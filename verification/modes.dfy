/**
 The two mode vocabularies of the integration and the tables between them:
 the host platform's normalised HVAC modes and the air conditioner's native
 operating-mode codes (`COOLING`, `HEATING`, `DRY`, `FAN`, `AUTO`).
 */
module Modes {
  import opened Ascii

  /** The host platform's HVAC modes that the integration names. */
  datatype HvacMode = Off | Cool | Heat | Dry | FanOnly | Auto

  /**
   The text of `str(hvac_mode)`: the host's HVAC modes are string-valued
   enumeration members whose string form is their lower-case value.
   */
  function Label(h: HvacMode): (s: string)
    ensures NoUpper(s)
  {
    match h
    case Off => "off"
    case Cool => "cool"
    case Heat => "heat"
    case Dry => "dry"
    case FanOnly => "fan_only"
    case Auto => "auto"
  }

  /** Distinct modes are sent to the device as distinct strings. */
  lemma LabelInjective(h: HvacMode, k: HvacMode)
    ensures Label(h) == Label(k) <==> h == k
  {
  }

  /** The modes the entity advertises to the host; AUTO is not among them. */
  const SupportedHvacModes: seq<HvacMode> := [Off, Cool, Heat, Dry, FanOnly]

  /** The fan modes the entity advertises to the host. */
  const FanAuto: string := "auto"
  const FanLow: string := "low"
  const FanMedium: string := "medium"
  const FanHigh: string := "high"
  const SupportedFanModes: seq<string> := [FanAuto, FanLow, FanMedium, FanHigh]

  /** Device-native code (already upper-cased) to host mode. */
  const ForwardTable: map<string, HvacMode> :=
    map["COOLING" := Cool, "HEATING" := Heat, "DRY" := Dry, "FAN" := FanOnly, "AUTO" := Auto]

  /** Host mode to device-native code; OFF has no entry. */
  const ReverseTable: map<HvacMode, string> :=
    map[Cool := "COOLING", Heat := "HEATING", Dry := "DRY", FanOnly := "FAN", Auto := "AUTO"]

  /**
   Forward mapping: the device's mode string is upper-cased and looked up. The
   result is the mode whose native code the string spells in some mixture of
   cases, and OFF when it spells none of them.
   */
  function MapModeToHvac(mode: string): (h: HvacMode)
    ensures forall k :: k in ReverseTable ==> (h == k <==> EqualsIgnoringCase(mode, ReverseTable[k]))
    ensures h == Off <==> forall k :: k in ReverseTable ==> !EqualsIgnoringCase(mode, ReverseTable[k])
  {
    var key := Upper(mode);
    LookupIgnoresCaseAll(mode);
    if key in ForwardTable then ForwardTable[key] else Off
  }

  /** Looking up the upper-cased string finds a mode exactly when the string spells its code. */
  lemma LookupIgnoresCase(mode: string, h: HvacMode)
    requires h in ReverseTable
    ensures (Upper(mode) in ForwardTable && ForwardTable[Upper(mode)] == h)
      <==> EqualsIgnoringCase(mode, ReverseTable[h])
  {
    CodesHaveNoLower(h);
    UpperFixed(ReverseTable[h]);
    UpperEqualIff(mode, ReverseTable[h]);
    TablesInverse(Upper(mode), h);
  }

  lemma LookupIgnoresCaseAll(mode: string)
    ensures forall h :: h in ReverseTable ==>
      ((Upper(mode) in ForwardTable && ForwardTable[Upper(mode)] == h) <==> EqualsIgnoringCase(mode, ReverseTable[h]))
    ensures Upper(mode) in ForwardTable ==> ForwardTable[Upper(mode)] in ReverseTable
  {
    forall h | h in ReverseTable {
      LookupIgnoresCase(mode, h);
    }
    if Upper(mode) in ForwardTable {
      TablesInverse(Upper(mode), ForwardTable[Upper(mode)]);
    }
  }

  /**
   Reverse mapping: defined on every mode but OFF (looking OFF up raises), and
   undone by the forward mapping.
   */
  function MapHvacToMode(h: HvacMode): (m: string)
    requires h != Off
    ensures NoLower(m)
    ensures MapModeToHvac(m) == h
  {
    ReverseDomain(h);
    var m := ReverseTable[h];
    CodesHaveNoLower(h);
    UpperFixed(m);
    TablesInverse(m, h);
    m
  }

  lemma CodesHaveNoLower(h: HvacMode)
    requires h in ReverseTable
    ensures NoLower(ReverseTable[h])
  {
    var m := ReverseTable[h];
    assert m in {"COOLING", "HEATING", "DRY", "FAN", "AUTO"};
  }

  /** The reverse table's domain is exactly the modes other than OFF. */
  lemma ReverseDomain(h: HvacMode)
    ensures h in ReverseTable <==> h != Off
  {
  }

  /** The two tables are inverse to each other. */
  lemma TablesInverse(key: string, h: HvacMode)
    ensures key in ForwardTable && ForwardTable[key] == h <==> h in ReverseTable && ReverseTable[h] == key
  {
  }

  /**
   Forward mapping is case-insensitive: a mode string maps to a mode other than
   OFF exactly when it spells that mode's native code in some mixture of cases.
   */
  lemma ForwardIgnoresCase(mode: string, h: HvacMode)
    requires h != Off
    ensures MapModeToHvac(mode) == h <==> EqualsIgnoringCase(mode, MapHvacToMode(h))
  {
    var code := MapHvacToMode(h);
    UpperFixed(code);
    UpperEqualIff(mode, code);
    TablesInverse(Upper(mode), h);
  }

  /** Forward mapping falls back to OFF exactly on strings that spell none of the five codes. */
  lemma ForwardFallback(mode: string)
    ensures MapModeToHvac(mode) == Off <==>
      forall h: HvacMode :: h != Off ==> !EqualsIgnoringCase(mode, MapHvacToMode(h))
  {
    forall h: HvacMode | h != Off {
      ForwardIgnoresCase(mode, h);
    }
    var g := MapModeToHvac(mode);
    if g != Off {
      ForwardIgnoresCase(mode, g);
    }
  }

  /** Strings that differ only in case map to the same mode. */
  lemma ForwardCaseInsensitive(a: string, b: string)
    requires EqualsIgnoringCase(a, b)
    ensures MapModeToHvac(a) == MapModeToHvac(b)
  {
    UpperEqualIff(a, b);
  }

  /**
   The label `str(hvac_mode)` that the mode command carries is not the device's
   native code for any mode but OFF; read back through the forward table, the
   labels of COOL, HEAT and FAN_ONLY come out as OFF.
   */
  lemma LabelIsNotNativeCode(h: HvacMode)
    requires h != Off
    ensures Label(h) != MapHvacToMode(h)
    ensures MapModeToHvac(Label(h)) == h <==> h == Dry || h == Auto
  {
    ForwardIgnoresCase(Label(h), h);
    if h == Dry || h == Auto {
      assert EqualsIgnoringCase(Label(h), MapHvacToMode(h));
    } else {
      assert |Label(h)| != |MapHvacToMode(h)|;
    }
  }
}
