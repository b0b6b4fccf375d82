/**
 Sequences of host calls on one entity. The host runs polls and commands one
 after another; a handler that raises keeps whatever it assigned before raising,
 and the host carries on with the next call.
 */
module Trace {
  import opened Wrappers
  import opened Ascii
  import opened Modes
  import opened Climate

  /** A call the host makes on the entity. */
  datatype Call =
    | UpdateCall(poll: Poll)
    | SetTemperatureCall(temperature: Option<real>)
    | SetHvacModeCall(mode: HvacMode)
    | SetFanModeCall(fan: string)
    | TurnOnCall
    | TurnOffCall
    | StartCall
    | StopCall

  function Handle(e: Entity, c: Call): Step {
    match c
    case UpdateCall(p) => Update(e, p)
    case SetTemperatureCall(t) => SetTargetTemperature(e, t)
    case SetHvacModeCall(h) => SetHvacMode(e, h)
    case SetFanModeCall(f) => SetFanMode(e, f)
    case TurnOnCall => TurnOn(e)
    case TurnOffCall => TurnOff(e)
    case StartCall => Start(e)
    case StopCall => Stop(e)
  }

  /** The only call that makes no device call: set-temperature without a temperature. */
  predicate Silent(c: Call) {
    c == SetTemperatureCall(None)
  }

  function SilentCount(calls: seq<Call>): (n: nat)
    ensures n <= |calls|
  {
    if calls == [] then 0
    else SilentCount(calls[..|calls| - 1]) + (if Silent(calls[|calls| - 1]) then 1 else 0)
  }

  /** The entity after a sequence of calls, and every device call made, in order. */
  datatype Run = Run(entity: Entity, log: seq<Command>)

  /** The last call is handled on the entity the earlier calls left behind. */
  function Replay(e: Entity, calls: seq<Call>): (r: Run)
    ensures |r.log| == |calls| - SilentCount(calls)
  {
    if calls == [] then Run(e, [])
    else
      var before := Replay(e, calls[..|calls| - 1]);
      var s := Handle(before.entity, calls[|calls| - 1]);
      Run(s.entity, before.log + s.issued)
  }

  /**
   What a call writes to each attribute, whatever the entity was before: `None`
   for an attribute the call leaves alone.
   */
  datatype Writes = Writes(
    current: Option<Option<real>>,
    target: Option<Option<real>>,
    hvac: Option<HvacMode>,
    fan: Option<string>)

  function Written(c: Call): Writes {
    match c
    case UpdateCall(Reply(s)) =>
      var modeRead := s.power == Some("OFF") || s.mode.Some?;
      Writes(
        Some(s.ambientTemp),
        Some(s.temp),
        if modeRead then Some(PolledMode(s)) else None,
        if modeRead && s.fanspeed.Some? then Some(Lower(s.fanspeed.value)) else None)
    case UpdateCall(NoReply) => Writes(None, None, None, None)
    case SetTemperatureCall(None) => Writes(None, None, None, None)
    case SetTemperatureCall(Some(t)) => Writes(None, Some(Some(t)), None, None)
    case SetHvacModeCall(h) => Writes(None, None, Some(h), None)
    case SetFanModeCall(f) => Writes(None, None, None, Some(f))
    case TurnOnCall => Writes(None, None, Some(Auto), None)
    case StartCall => Writes(None, None, Some(Auto), None)
    case TurnOffCall => Writes(None, None, Some(Off), None)
    case StopCall => Writes(None, None, Some(Off), None)
  }

  /** The written value if there is one, otherwise the attribute's present value. */
  function Overwrite<T>(w: Option<T>, present: T): T {
    match w
    case Some(v) => v
    case None => present
  }

  function Apply(e: Entity, w: Writes): Entity {
    Entity(
      Overwrite(w.current, e.currentTemperature),
      Overwrite(w.target, e.targetTemperature),
      Overwrite(w.hvac, e.hvacMode),
      Overwrite(w.fan, e.fanMode))
  }

  /** Every handler overwrites the attributes it writes and changes nothing else. */
  lemma HandleOnlyWrites(e: Entity, c: Call)
    ensures Handle(e, c).entity == Apply(e, Written(c))
  {
  }

  /**
   The value of an attribute after a series of writes: the last value written,
   or `init` when nothing was written.
   */
  function LastWrite<T>(init: T, ws: seq<Option<T>>): (v: T)
    ensures (forall i :: 0 <= i < |ws| ==> ws[i] == None) ==> v == init
    ensures v == init || exists i :: 0 <= i < |ws| && ws[i] == Some(v)
  {
    if ws == [] then init
    else if ws[|ws| - 1].Some? then ws[|ws| - 1].value
    else LastWrite(init, ws[..|ws| - 1])
  }

  function CurrentWrites(calls: seq<Call>): seq<Option<Option<real>>> {
    seq(|calls|, i requires 0 <= i < |calls| => Written(calls[i]).current)
  }

  function TargetWrites(calls: seq<Call>): seq<Option<Option<real>>> {
    seq(|calls|, i requires 0 <= i < |calls| => Written(calls[i]).target)
  }

  function HvacWrites(calls: seq<Call>): seq<Option<HvacMode>> {
    seq(|calls|, i requires 0 <= i < |calls| => Written(calls[i]).hvac)
  }

  function FanWrites(calls: seq<Call>): seq<Option<string>> {
    seq(|calls|, i requires 0 <= i < |calls| => Written(calls[i]).fan)
  }

  /**
   Last writer wins: after any sequence of calls each attribute holds the value
   written by the last call that writes it, or its initial value if none does.
   */
  lemma {:induction false} ReplayLastWriteWins(e: Entity, calls: seq<Call>)
    ensures Replay(e, calls).entity == Entity(
      LastWrite(e.currentTemperature, CurrentWrites(calls)),
      LastWrite(e.targetTemperature, TargetWrites(calls)),
      LastWrite(e.hvacMode, HvacWrites(calls)),
      LastWrite(e.fanMode, FanWrites(calls)))
  {
    if calls != [] {
      var n := |calls| - 1;
      var front := calls[..n];
      var c := calls[n];
      ReplayLastWriteWins(e, front);
      HandleOnlyWrites(Replay(e, front).entity, c);
      ColumnsSnoc(calls);
      LastWriteSnoc(e.currentTemperature, CurrentWrites(calls));
      LastWriteSnoc(e.targetTemperature, TargetWrites(calls));
      LastWriteSnoc(e.hvacMode, HvacWrites(calls));
      LastWriteSnoc(e.fanMode, FanWrites(calls));
    }
  }

  lemma LastWriteSnoc<T>(init: T, ws: seq<Option<T>>)
    requires ws != []
    ensures LastWrite(init, ws) == Overwrite(ws[|ws| - 1], LastWrite(init, ws[..|ws| - 1]))
  {
  }

  /** Each column of a non-empty sequence of calls is the column of its front plus the last call's write. */
  lemma ColumnsSnoc(calls: seq<Call>)
    requires calls != []
    ensures var n := |calls| - 1; var w := Written(calls[n]);
      && CurrentWrites(calls)[..n] == CurrentWrites(calls[..n]) && CurrentWrites(calls)[n] == w.current
      && TargetWrites(calls)[..n] == TargetWrites(calls[..n]) && TargetWrites(calls)[n] == w.target
      && HvacWrites(calls)[..n] == HvacWrites(calls[..n]) && HvacWrites(calls)[n] == w.hvac
      && FanWrites(calls)[..n] == FanWrites(calls[..n]) && FanWrites(calls)[n] == w.fan
  {
  }

  /** After a poll of a complete status the entity is its projection, whatever came before. */
  lemma PollResets(e: Entity, calls: seq<Call>, s: DeviceStatus)
    requires Complete(s)
    ensures Replay(e, calls + [UpdateCall(Reply(s))]).entity == Project(s)
  {
    assert (calls + [UpdateCall(Reply(s))])[..|calls|] == calls;
  }

  /** Neither a poll that gets a status dictionary nor a set-temperature call with a value. */
  predicate KeepsTarget(c: Call) {
    && !(c.UpdateCall? && c.poll.Reply?)
    && !(c.SetTemperatureCall? && c.temperature.Some?)
  }

  /**
   The target temperature changes only through a poll that gets a status dictionary
   (even one that raises later) or a set-temperature call with a value.
   */
  lemma TargetFrame(e: Entity, calls: seq<Call>)
    requires forall i :: 0 <= i < |calls| ==> KeepsTarget(calls[i])
    ensures Replay(e, calls).entity.targetTemperature == e.targetTemperature
  {
    var ws := TargetWrites(calls);
    forall i | 0 <= i < |ws|
      ensures ws[i] == None
    {
      assert ws[i] == Written(calls[i]).target;
      assert KeepsTarget(calls[i]);
    }
    ReplayLastWriteWins(e, calls);
  }
}
