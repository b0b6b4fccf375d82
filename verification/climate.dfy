/**
 The climate entity of the Broadlink air-conditioner integration: its state, the
 projection of a polled device status onto that state, and the command handlers.
 The device-control object is abstracted: what it returns from a status poll is an
 input, and every call made on it is recorded as a `Command` in the order issued.
 Every handler is one sequential step from an entity state to the next.
 */
module Climate {
  import opened Wrappers
  import opened Ascii
  import opened Modes

  /**
   The keys of the status dictionary the update reads, each looked up with `get`,
   so each may be absent. The update calls a string method on the mode and on the
   fan speed, so an absent one makes it raise once it gets there.
   */
  datatype DeviceStatus = DeviceStatus(
    ambientTemp: Option<real>,
    temp: Option<real>,
    power: Option<string>,
    mode: Option<string>,
    fanspeed: Option<string>)

  /** What a status poll returned: a status dictionary, or the failure value `False`. */
  datatype Poll = Reply(status: DeviceStatus) | NoReply

  /** The attributes of the entity that the integration maintains. */
  datatype Entity = Entity(
    currentTemperature: Option<real>,
    targetTemperature: Option<real>,
    hvacMode: HvacMode,
    fanMode: string)

  /** A call made on the device-control object. */
  datatype Command =
    | GetAcStatus(forceUpdate: bool)
    | SetTemperature(value: real)
    | SetHomeassistantMode(mode: string)
    | SetFanspeed(speed: string)

  /**
   How a handler ended: normally, or by an `AttributeError` escaping to the host
   (a string method or `get` called on a value that has none).
   */
  datatype Exit = Returned | RaisedAttributeError

  /** The entity after one handler, the device calls it made, and how it ended. */
  datatype Step = Step(entity: Entity, issued: seq<Command>, exit: Exit)

  /** A freshly constructed entity: OFF, automatic fan, no temperatures known yet. */
  function Init(): (e: Entity)
    ensures e.hvacMode == Off && e.fanMode == FanAuto
    ensures e.currentTemperature == None && e.targetTemperature == None
    ensures e.hvacMode in SupportedHvacModes && e.fanMode in SupportedFanModes
  {
    Entity(None, None, Off, FanAuto)
  }

  /**
   A status the update gets through without raising: the fan speed is present,
   and so is the mode unless the power flag is exactly "OFF" (then it is not read).
   */
  predicate Complete(s: DeviceStatus) {
    s.fanspeed.Some? && (s.power == Some("OFF") || s.mode.Some?)
  }

  /** The HVAC mode a status yields: power "OFF" (compared exactly) overrides the mode. */
  function PolledMode(s: DeviceStatus): HvacMode
    requires s.power == Some("OFF") || s.mode.Some?
  {
    if s.power == Some("OFF") then Off else MapModeToHvac(s.mode.value)
  }

  /**
   The entity a complete status produces. Every attribute is overwritten; the
   temperatures are copied; power "OFF" forces OFF whatever the mode says;
   otherwise the mode goes through the forward table; the fan speed is lower-cased.
   */
  function Project(s: DeviceStatus): (e: Entity)
    requires Complete(s)
    ensures e.currentTemperature == s.ambientTemp
    ensures e.targetTemperature == s.temp
    ensures s.power == Some("OFF") ==> e.hvacMode == Off
    ensures s.power != Some("OFF") ==>
      forall h: HvacMode :: h != Off ==> (e.hvacMode == h <==> EqualsIgnoringCase(s.mode.value, MapHvacToMode(h)))
    ensures EqualsIgnoringCase(e.fanMode, s.fanspeed.value) && NoUpper(e.fanMode)
  {
    var fan := Lower(s.fanspeed.value);
    LowerOfUpper(s.fanspeed.value);
    LowerEqualIff(fan, s.fanspeed.value);
    if s.power == Some("OFF") then
      Entity(s.ambientTemp, s.temp, Off, fan)
    else
      ForwardIgnoresCaseAll(s.mode.value);
      Entity(s.ambientTemp, s.temp, MapModeToHvac(s.mode.value), fan)
  }

  /**
   The poll handler. It asks the device for a fresh status. The guard in front of
   the projection tests the reply for identity with the type `bool` itself, which
   no reply is, so a `False` reply is not caught: it reaches the first dictionary
   lookup, which raises before any attribute is assigned. A dictionary reply is
   applied attribute by attribute: the temperatures first, then the HVAC mode,
   then the fan mode; an absent mode (with power not "OFF") or an absent fan speed
   raises at that point, leaving the attributes already assigned in place.
   */
  function Update(e: Entity, p: Poll): (r: Step)
    ensures r.issued == [GetAcStatus(true)]
    ensures p.NoReply? ==> r.entity == e && r.exit == RaisedAttributeError
    ensures p.Reply? && Complete(p.status) ==> r.entity == Project(p.status) && r.exit == Returned
    ensures p.Reply? && !Complete(p.status) ==>
      var s := p.status;
      && r.exit == RaisedAttributeError
      && r.entity.currentTemperature == s.ambientTemp
      && r.entity.targetTemperature == s.temp
      && r.entity.fanMode == e.fanMode
      && (s.power == Some("OFF") ==> r.entity.hvacMode == Off)
      && (s.power != Some("OFF") && s.mode.Some? ==> r.entity.hvacMode == MapModeToHvac(s.mode.value))
      && (s.power != Some("OFF") && s.mode.None? ==> r.entity.hvacMode == e.hvacMode)
  {
    match p
    case NoReply => Step(e, [GetAcStatus(true)], RaisedAttributeError)
    case Reply(s) =>
      var temps := e.(currentTemperature := s.ambientTemp, targetTemperature := s.temp);
      if s.power != Some("OFF") && s.mode.None? then
        Step(temps, [GetAcStatus(true)], RaisedAttributeError)
      else
        var moded := temps.(hvacMode := PolledMode(s));
        match s.fanspeed
        case None => Step(moded, [GetAcStatus(true)], RaisedAttributeError)
        case Some(f) => Step(moded.(fanMode := Lower(f)), [GetAcStatus(true)], Returned)
  }

  /**
   Set-temperature handler. Without a temperature argument nothing happens; with
   one, the device is told and the target temperature is updated optimistically.
   */
  function SetTargetTemperature(e: Entity, temperature: Option<real>): (r: Step)
    ensures r.exit == Returned
    ensures temperature == None ==> r.entity == e && r.issued == []
    ensures temperature != None ==>
      && r.issued == [SetTemperature(temperature.value)]
      && r.entity.targetTemperature == temperature
      && r.entity.(targetTemperature := e.targetTemperature) == e
  {
    match temperature
    case None => Step(e, [], Returned)
    case Some(t) => Step(e.(targetTemperature := Some(t)), [SetTemperature(t)], Returned)
  }

  /**
   Set-HVAC-mode handler. The device receives `str(hvac_mode)`, not the native
   code of the reverse table, and the mode is updated optimistically.
   */
  function SetHvacMode(e: Entity, h: HvacMode): (r: Step)
    ensures r.exit == Returned
    ensures |r.issued| == 1 && r.issued[0].SetHomeassistantMode?
    ensures h != Off ==> r.issued[0].mode != MapHvacToMode(h)
    ensures forall k: HvacMode :: r.issued[0].mode == Label(k) <==> k == h
    ensures r.entity.hvacMode == h
    ensures r.entity.(hvacMode := e.hvacMode) == e
  {
    LabelSeparates(h);
    Step(e.(hvacMode := h), [SetHomeassistantMode(Label(h))], Returned)
  }

  /**
   Set-fan-mode handler. The device receives the upper-cased fan mode; the entity
   keeps the argument exactly as given, without checking it is a supported mode.
   */
  function SetFanMode(e: Entity, fan: string): (r: Step)
    ensures r.exit == Returned
    ensures |r.issued| == 1 && r.issued[0].SetFanspeed?
    ensures EqualsIgnoringCase(r.issued[0].speed, fan) && NoLower(r.issued[0].speed)
    ensures r.entity.fanMode == fan
    ensures r.entity.(fanMode := e.fanMode) == e
  {
    var speed := Upper(fan);
    UpperEqualIff(speed, fan);
    LowerOfUpper(speed);
    Step(e.(fanMode := fan), [SetFanspeed(speed)], Returned)
  }

  /** Turning on is setting the mode AUTO, a mode the entity does not advertise. */
  function TurnOn(e: Entity): (r: Step)
    ensures r == SetHvacMode(e, Auto)
    ensures r.entity.hvacMode !in SupportedHvacModes
  {
    SetHvacMode(e, Auto)
  }

  /** Turning off is setting the mode OFF. */
  function TurnOff(e: Entity): (r: Step)
    ensures r == SetHvacMode(e, Off)
    ensures r.entity.hvacMode in SupportedHvacModes
  {
    SetHvacMode(e, Off)
  }

  /** `start` is an alias of turning on. */
  function Start(e: Entity): (r: Step)
    ensures r == TurnOn(e)
    ensures r.issued == [SetHomeassistantMode("auto")]
  {
    TurnOn(e)
  }

  /** `stop` is an alias of turning off. */
  function Stop(e: Entity): (r: Step)
    ensures r == TurnOff(e)
    ensures r.issued == [SetHomeassistantMode("off")]
  {
    TurnOff(e)
  }

  lemma ForwardIgnoresCaseAll(mode: string)
    ensures forall h: HvacMode :: h != Off ==>
      (MapModeToHvac(mode) == h <==> EqualsIgnoringCase(mode, MapHvacToMode(h)))
  {
    forall h: HvacMode | h != Off {
      ForwardIgnoresCase(mode, h);
    }
  }

  lemma LabelSeparates(h: HvacMode)
    ensures h != Off ==> Label(h) != MapHvacToMode(h)
    ensures forall k: HvacMode :: Label(h) == Label(k) <==> k == h
  {
    if h != Off {
      LabelIsNotNativeCode(h);
    }
    forall k: HvacMode {
      LabelInjective(h, k);
    }
  }

  /**
   A poll yields the same state whatever the state was before exactly when the
   status is complete: a poll that raises part-way keeps some prior attributes.
   */
  lemma UpdateForgetsPrior(s: DeviceStatus)
    ensures Complete(s) <==> forall e1, e2 :: Update(e1, Reply(s)).entity == Update(e2, Reply(s)).entity
  {
    if !Complete(s) {
      var e1 := Init();
      var e2 := Init().(fanMode := FanLow);
      assert Update(e1, Reply(s)).entity.fanMode != Update(e2, Reply(s)).entity.fanMode;
    }
  }

  /**
   With power "OFF" the reported operating mode is never read: changing it, or
   leaving it out, does not change the outcome of a poll.
   */
  lemma PowerOffIgnoresMode(e: Entity, s: DeviceStatus, mode: Option<string>)
    requires s.power == Some("OFF")
    ensures Update(e, Reply(s.(mode := mode))) == Update(e, Reply(s))
  {
  }

  /**
   The power flag is compared case-sensitively: a lower-case "off" does not
   override the mode, which then goes through the forward table (and, when it is
   absent, makes the poll raise).
   */
  lemma LowerCaseOffDoesNotPowerOff(e: Entity, s: DeviceStatus)
    requires s.power == Some("off")
    ensures s.mode.Some? ==> Update(e, Reply(s)).entity.hvacMode == MapModeToHvac(s.mode.value)
    ensures s.mode.None? ==> Update(e, Reply(s)).exit == RaisedAttributeError
  {
  }

  /**
   A polled fan speed becomes one of the advertised fan modes exactly when it
   spells one of them in some mixture of cases.
   */
  lemma ProjectedFanSupported(s: DeviceStatus)
    requires Complete(s)
    ensures Project(s).fanMode in SupportedFanModes <==>
      exists i :: 0 <= i < |SupportedFanModes| && EqualsIgnoringCase(s.fanspeed.value, SupportedFanModes[i])
  {
    var fan := Project(s).fanMode;
    assert fan == Lower(s.fanspeed.value);
    forall i | 0 <= i < |SupportedFanModes|
      ensures fan == SupportedFanModes[i] <==> EqualsIgnoringCase(s.fanspeed.value, SupportedFanModes[i])
    {
      FanModesHaveNoUpper(i);
      LowerMatches(s.fanspeed.value, SupportedFanModes[i]);
    }
  }

  lemma FanModesHaveNoUpper(i: nat)
    requires i < |SupportedFanModes|
    ensures NoUpper(SupportedFanModes[i])
  {
  }

  lemma LowerMatches(x: string, f: string)
    requires NoUpper(f)
    ensures Lower(x) == f <==> EqualsIgnoringCase(x, f)
  {
    LowerFixed(f);
    LowerEqualIff(x, f);
  }

  /**
   The optimistic fan mode agrees with the next poll when the device echoes the
   speed it was sent, provided the mode was given in lower case.
   */
  lemma FanModeReconciles(e: Entity, fan: string, s: DeviceStatus)
    requires NoUpper(fan)
    requires Complete(s)
    requires EqualsIgnoringCase(s.fanspeed.value, SetFanMode(e, fan).issued[0].speed)
    ensures Update(SetFanMode(e, fan).entity, Reply(s)).entity.fanMode == fan
  {
    var speed := SetFanMode(e, fan).issued[0].speed;
    LowerEqualIff(s.fanspeed.value, speed);
    LowerEqualIff(speed, fan);
    LowerFixed(fan);
  }

  /**
   The optimistic HVAC mode agrees with the next poll when the device, powered on,
   reports the native code of that mode in any case (even if the poll then raises
   on a missing fan speed). The command itself carries a different string, so this
   agreement rests on the device's own translation.
   */
  lemma HvacModeReconciles(e: Entity, h: HvacMode, s: DeviceStatus)
    requires h != Off
    requires s.power != Some("OFF")
    requires s.mode.Some? && EqualsIgnoringCase(s.mode.value, MapHvacToMode(h))
    ensures Update(SetHvacMode(e, h).entity, Reply(s)).entity.hvacMode == h
  {
  }

  /** A poll can also yield AUTO, which the entity does not advertise. */
  lemma PollCanYieldUnsupportedMode(e: Entity)
    ensures Update(e, Reply(DeviceStatus(None, None, Some("ON"), Some("Auto"), Some("auto")))).entity.hvacMode
      !in SupportedHvacModes
  {
    assert EqualsIgnoringCase("Auto", MapHvacToMode(Auto));
  }

  lemma CoolingSpelledInLowerCase()
    ensures MapModeToHvac("cooling") == Cool
  {
    assert ReverseTable[Cool] == "COOLING";
    forall i | 0 <= i < 7
      ensures SameIgnoringCase("cooling"[i], "COOLING"[i])
    {
    }
    assert EqualsIgnoringCase("cooling", ReverseTable[Cool]);
  }

  /** A cooling status with power on, projected. */
  lemma CoolingScenario()
    ensures Project(DeviceStatus(Some(22.5), Some(24.0), Some("ON"), Some("cooling"), Some("low")))
      == Entity(Some(22.5), Some(24.0), Cool, "low")
  {
    CoolingSpelledInLowerCase();
    assert NoUpper("low");
    LowerFixed("low");
  }

  /** The same status with power off projects to OFF. */
  lemma PowerOffScenario()
    ensures Project(DeviceStatus(Some(20.0), Some(24.0), Some("OFF"), Some("cooling"), Some("low"))).hvacMode == Off
  {
  }
}
