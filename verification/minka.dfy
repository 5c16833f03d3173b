/**
 * The transmission driver: initRadio configures the handle, fanCmd sends
 * one frame eight times inside a try whose finally puts the radio in idle
 * mode and releases it, and the script entry rejects unknown command names
 * before any radio handle exists.
 *
 * A call that raises is an Event with ok == false. Python semantics of the
 * try/finally are kept: the first raise ends the try block; setModeIDLE
 * then runs; if it raises, cleanup is skipped and its exception is the one
 * that propagates; otherwise cleanup runs and, if it raises, its exception
 * propagates; otherwise the try block's exception, if any, propagates.
 */
module Minka {
  import opened Wrappers
  import opened Symbols
  import opened Packet
  import opened Commands
  import opened Rflib

  /** How fanCmd ends: it returns, or the exception of one radio call propagates. */
  datatype Outcome = Returned | Raised(at: Call)

  /** The first configuration calls of initRadio: the frequency, then the power only with the max-power flag. */
  function PowerPlan(maxPower: bool): seq<Call> {
    [Call.SetFreq(Freq)] + (if maxPower then [Call.SetMaxPower] else [])
  }

  /** The modem settings that complete initRadio. */
  function ModemPlan(): seq<Call> {
    [Call.SetMdmModulation(ModAskOok), Call.SetMdmDRate(Baud), Call.MakePktFLEN(PktLen), Call.SetMdmSyncMode(0)]
  }

  /** The configuration calls of initRadio, in order. */
  function ConfigPlan(maxPower: bool): (plan: seq<Call>)
    ensures |plan| == (if maxPower then 6 else 5) && plan[0] == Call.SetFreq(Freq)
    ensures Call.SetMaxPower in plan <==> maxPower
    ensures plan[|plan| - 4..] == ModemPlan()
    ensures forall j :: 0 <= j < |plan| ==> !plan[j].RFxmit? && plan[j] != Call.SetModeIDLE && plan[j] != Call.Cleanup
  {
    PowerPlan(maxPower) + ModemPlan()
  }

  /** n transmissions of one frame. */
  function Transmits(frame: seq<byte>, n: nat): seq<Call> {
    seq(n, _ => Call.RFxmit(frame))
  }

  /** The calls of fanCmd's try block when none of them raises. */
  function Plan(maxPower: bool, frame: seq<byte>): (plan: seq<Call>)
    ensures |plan| == |ConfigPlan(maxPower)| + Repeats
    ensures plan[..|ConfigPlan(maxPower)|] == ConfigPlan(maxPower)
    ensures plan[|ConfigPlan(maxPower)|..] == Transmits(frame, Repeats)
  {
    ConfigPlan(maxPower) + Transmits(frame, Repeats)
  }

  /** The calls of a trace, without their results. */
  function Calls(t: seq<Event>): seq<Call> {
    seq(|t|, i requires 0 <= i < |t| => t[i].call)
  }

  /** How often a call occurs. */
  function Count(calls: seq<Call>, c: Call): nat {
    if calls == [] then 0
    else Count(calls[..|calls| - 1], c) + (if calls[|calls| - 1] == c then 1 else 0)
  }

  /**
   * A straight run of planned calls that stops at the first one that raises:
   * the calls are a prefix of the plan, all but the last returned, and the
   * run ends early only at a call that raised.
   */
  predicate StoppedAtFault(t: seq<Event>, plan: seq<Call>) {
    |t| <= |plan|
    && (forall i :: 0 <= i < |t| ==> t[i].call == plan[i])
    && (forall i :: 0 <= i < |t| - 1 ==> t[i].ok)
    && (|t| < |plan| ==> |t| > 0 && !t[|t| - 1].ok)
  }

  /** What such a run propagates: the exception of its last call, if that raised. */
  function Propagated(t: seq<Event>): Outcome {
    if |t| > 0 && !t[|t| - 1].ok then Raised(t[|t| - 1].call) else Returned
  }

  /** The exception that ends up propagating: that of the last call that raised. */
  function LastFault(t: seq<Event>): (o: Outcome)
    ensures o == Returned <==> forall i :: 0 <= i < |t| ==> t[i].ok
    ensures o.Raised? ==> exists i :: 0 <= i < |t| && t[i] == Event(o.at, false)
  {
    if t == [] then Returned
    else if !t[|t| - 1].ok then Raised(t[|t| - 1].call)
    else LastFault(t[..|t| - 1])
  }

  /**
   * The trace of one fanCmd and how it ends: a run of the plan that stops
   * at the first fault, then setModeIDLE, then cleanup unless setModeIDLE
   * raised; the outcome is the exception raised last, if any.
   */
  predicate FanCmdRun(t: seq<Event>, maxPower: bool, frame: seq<byte>, outcome: Outcome) {
    |t| >= 1
    && if t[|t| - 1] == Event(Call.SetModeIDLE, false) then
         StoppedAtFault(t[..|t| - 1], Plan(maxPower, frame))
         && outcome == Raised(Call.SetModeIDLE)
       else
         |t| >= 2 && t[|t| - 2] == Event(Call.SetModeIDLE, true) && t[|t| - 1].call == Call.Cleanup
         && StoppedAtFault(t[..|t| - 2], Plan(maxPower, frame))
         && outcome == (if t[|t| - 1].ok then Propagated(t[..|t| - 2]) else Raised(Call.Cleanup))
  }

  /** One more transmission after a run that has not faulted extends it by one planned call. */
  lemma TransmitStep(t: seq<Event>, maxPower: bool, frame: seq<byte>, i: nat, ok: bool)
    requires StoppedAtFault(t, ConfigPlan(maxPower) + Transmits(frame, i)) && Propagated(t) == Returned
    ensures StoppedAtFault(t + [Event(Call.RFxmit(frame), ok)], ConfigPlan(maxPower) + Transmits(frame, i + 1))
  {
    assert ConfigPlan(maxPower) + Transmits(frame, i + 1)
      == ConfigPlan(maxPower) + Transmits(frame, i) + [Call.RFxmit(frame)];
  }

  /** A run that sent all frames, or stopped at a fault, is a run of the whole plan. */
  lemma TransmitsDone(t: seq<Event>, maxPower: bool, frame: seq<byte>, i: nat)
    requires i <= Repeats && StoppedAtFault(t, ConfigPlan(maxPower) + Transmits(frame, i))
    requires i == Repeats || Propagated(t).Raised?
    ensures StoppedAtFault(t, Plan(maxPower, frame))
  {
    assert ConfigPlan(maxPower) + Transmits(frame, i) + Transmits(frame, Repeats - i) == Plan(maxPower, frame);
  }

  /** The finally block when setModeIDLE raises. */
  lemma IdleRaised(t: seq<Event>, maxPower: bool, frame: seq<byte>)
    requires StoppedAtFault(t, Plan(maxPower, frame))
    ensures FanCmdRun(t + [Event(Call.SetModeIDLE, false)], maxPower, frame, Raised(Call.SetModeIDLE))
  {
    assert (t + [Event(Call.SetModeIDLE, false)])[..|t|] == t;
  }

  /** The finally block when setModeIDLE returns and cleanup follows. */
  lemma IdleReturned(t: seq<Event>, maxPower: bool, frame: seq<byte>, cleaned: bool)
    requires StoppedAtFault(t, Plan(maxPower, frame))
    ensures FanCmdRun(t + [Event(Call.SetModeIDLE, true), Event(Call.Cleanup, cleaned)], maxPower, frame,
                      if cleaned then Propagated(t) else Raised(Call.Cleanup))
  {
    assert (t + [Event(Call.SetModeIDLE, true), Event(Call.Cleanup, cleaned)])[..|t|] == t;
  }

  /** A run of a whole plan with no fault, followed by a run of a second plan, is a run of both. */
  lemma StoppedConcat(a: seq<Event>, b: seq<Event>, p: seq<Call>, q: seq<Call>)
    requires StoppedAtFault(a, p) && |a| == |p| && Propagated(a) == Returned
    requires StoppedAtFault(b, q)
    ensures StoppedAtFault(a + b, p + q) && Propagated(a + b) == (if b == [] then Returned else Propagated(b))
  {
  }

  /** A run that stopped at a fault before the end of one plan stopped at it in any longer plan. */
  lemma StoppedEarly(a: seq<Event>, p: seq<Call>, q: seq<Call>)
    requires StoppedAtFault(a, p) && Propagated(a).Raised?
    ensures StoppedAtFault(a, p + q)
  {
  }

  /** The modem settings of initRadio: the last four of its calls, stopping at the first that raises. */
  method ConfigureModem(d: RfCat) returns (outcome: Outcome, ghost events: seq<Event>)
    modifies d
    ensures d.trace == old(d.trace) + events
    ensures StoppedAtFault(events, ModemPlan())
    ensures outcome == Propagated(events)
  {
    var ok := d.SetMdmModulation(ModAskOok);
    events := [Event(Call.SetMdmModulation(ModAskOok), ok)];
    if !ok { return Raised(Call.SetMdmModulation(ModAskOok)), events; }
    ok := d.SetMdmDRate(Baud);
    events := events + [Event(Call.SetMdmDRate(Baud), ok)];
    if !ok { return Raised(Call.SetMdmDRate(Baud)), events; }
    ok := d.MakePktFLEN(PktLen);
    events := events + [Event(Call.MakePktFLEN(PktLen), ok)];
    if !ok { return Raised(Call.MakePktFLEN(PktLen)), events; }
    ok := d.SetMdmSyncMode(0);
    events := events + [Event(Call.SetMdmSyncMode(0), ok)];
    if !ok { return Raised(Call.SetMdmSyncMode(0)), events; }
    return Returned, events;
  }

  /** initRadio: the configuration calls in order, stopping at the first that raises. */
  method InitRadio(d: RfCat, maxPower: bool) returns (outcome: Outcome, ghost events: seq<Event>)
    modifies d
    ensures d.trace == old(d.trace) + events
    ensures StoppedAtFault(events, ConfigPlan(maxPower))
    ensures outcome == Propagated(events)
  {
    var ok := d.SetFreq(Freq);
    events := [Event(Call.SetFreq(Freq), ok)];
    if !ok {
      StoppedEarly(events, PowerPlan(maxPower), ModemPlan());
      return Raised(Call.SetFreq(Freq)), events;
    }
    if maxPower {
      ok := d.SetMaxPower();
      events := events + [Event(Call.SetMaxPower, ok)];
      if !ok {
        StoppedEarly(events, PowerPlan(maxPower), ModemPlan());
        return Raised(Call.SetMaxPower), events;
      }
    }
    ghost var head := events;
    ghost var rest;
    outcome, rest := ConfigureModem(d);
    StoppedConcat(head, rest, PowerPlan(maxPower), ModemPlan());
    events := head + rest;
    assert d.trace == old(d.trace) + events;
  }

  /**
   * The try block of fanCmd: configure the radio, build the frame, and send
   * it Repeats times, stopping at the first call that raises.
   */
  method FanCmdTry(d: RfCat, maxPower: bool, cmd: string) returns (outcome: Outcome, ghost run: seq<Event>)
    requires IsBinary(cmd)
    modifies d
    ensures d.trace == old(d.trace) + run
    ensures StoppedAtFault(run, Plan(maxPower, Frame(cmd)))
    ensures outcome == Propagated(run)
  {
    outcome, run := InitRadio(d, maxPower);
    if outcome == Returned {
      var data := Frame(cmd);
      var i := 0;
      while i < Repeats && outcome == Returned
        invariant 0 <= i <= Repeats
        invariant d.trace == old(d.trace) + run
        invariant StoppedAtFault(run, ConfigPlan(maxPower) + Transmits(data, i))
        invariant outcome == Propagated(run)
      {
        TransmitStep(run, maxPower, data, i, true);
        TransmitStep(run, maxPower, data, i, false);
        var ok := d.RFxmit(data);
        run := run + [Event(Call.RFxmit(data), ok)];
        if !ok { outcome := Raised(Call.RFxmit(data)); }
        i := i + 1;
      }
      TransmitsDone(run, maxPower, data, i);
    } else {
      assert ConfigPlan(maxPower) + Transmits(Frame(cmd), 0) == ConfigPlan(maxPower);
      TransmitsDone(run, maxPower, Frame(cmd), 0);
    }
  }

  /**
   * fanCmd: the try block, then, whatever happened, setModeIDLE and
   * (unless that raised) cleanup.
   */
  method FanCmd(d: RfCat, maxPower: bool, cmd: string) returns (outcome: Outcome, ghost run: seq<Event>)
    requires IsBinary(cmd)
    modifies d
    ensures d.trace == old(d.trace) + run
    ensures FanCmdRun(run, maxPower, Frame(cmd), outcome)
  {
    outcome, run := FanCmdTry(d, maxPower, cmd);
    ghost var tried := run;
    var idle := d.SetModeIDLE();
    run := run + [Event(Call.SetModeIDLE, idle)];
    assert d.trace == old(d.trace) + run;
    if !idle {
      outcome := Raised(Call.SetModeIDLE);
      IdleRaised(tried, maxPower, Frame(cmd));
    } else {
      var cleaned := d.Cleanup();
      IdleReturned(tried, maxPower, Frame(cmd), cleaned);
      if !cleaned { outcome := Raised(Call.Cleanup); }
      run := run + [Event(Call.Cleanup, cleaned)];
      assert d.trace == old(d.trace) + run;
      assert run == tried + [Event(Call.SetModeIDLE, true), Event(Call.Cleanup, cleaned)];
    }
  }

  /**
   * The script entry: an unknown command name exits with status 2 before
   * any radio handle exists; otherwise a handle is opened and fanCmd runs,
   * and an exception escaping it ends the script with status 1.
   */
  method RunCommand(name: string, maxPower: bool) returns (status: int, d: RfCat?)
    ensures Lookup(name) == None ==> status == 2 && d == null
    ensures Lookup(name).Some? ==>
      d != null && fresh(d) && IsBinary(Lookup(name).value)
      && FanCmdRun(d.trace, maxPower, Frame(Lookup(name).value), LastFault(d.trace))
      && status == (if LastFault(d.trace) == Returned then 0 else 1)
  {
    var cmd := Lookup(name);
    if cmd == None {
      return 2, null;
    }
    CommandCodes(name);
    SymbolStringIsBinary(cmd.value);
    d := new RfCat();
    var outcome;
    ghost var run;
    outcome, run := FanCmd(d, maxPower, cmd.value);
    assert d.trace == run;
    OutcomeIsLastFault(d.trace, maxPower, Frame(cmd.value), outcome);
    status := if outcome == Returned then 0 else 1;
  }

  // Properties of a fanCmd trace.

  lemma CallsAppend(a: seq<Event>, b: seq<Event>)
    ensures Calls(a + b) == Calls(a) + Calls(b)
  {
  }

  lemma {:induction false} CountAppend(a: seq<Call>, b: seq<Call>, c: Call)
    ensures Count(a + b, c) == Count(a, c) + Count(b, c)
  {
    if b != [] {
      assert (a + b)[..|a + b| - 1] == a + b[..|b| - 1];
      CountAppend(a, b[..|b| - 1], c);
    } else {
      assert a + b == a;
    }
  }

  lemma CountTrace(a: seq<Event>, b: seq<Event>, c: Call)
    ensures Count(Calls(a + b), c) == Count(Calls(a), c) + Count(Calls(b), c)
  {
    CallsAppend(a, b);
    CountAppend(Calls(a), Calls(b), c);
  }

  lemma {:induction false} CountAbsent(calls: seq<Call>, c: Call)
    requires forall i :: 0 <= i < |calls| ==> calls[i] != c
    ensures Count(calls, c) == 0
  {
    if calls != [] {
      CountAbsent(calls[..|calls| - 1], c);
    }
  }

  lemma {:induction false} CountTransmits(frame: seq<byte>, n: nat)
    ensures Count(Transmits(frame, n), Call.RFxmit(frame)) == n
  {
    if n > 0 {
      assert Transmits(frame, n)[..n - 1] == Transmits(frame, n - 1);
      CountTransmits(frame, n - 1);
    }
  }

  /** For a run that stops at its first fault, the last fault is the one it propagates. */
  lemma StoppedLastFault(t: seq<Event>, plan: seq<Call>)
    requires StoppedAtFault(t, plan)
    ensures LastFault(t) == Propagated(t)
  {
  }

  /**
   * The try block and the two calls of the finally block, split as
   * FanCmdRun describes them.
   */
  lemma FanCmdParts(t: seq<Event>, maxPower: bool, frame: seq<byte>, outcome: Outcome)
      returns (tried: seq<Event>, final: seq<Event>)
    requires FanCmdRun(t, maxPower, frame, outcome)
    ensures t == tried + final && StoppedAtFault(tried, Plan(maxPower, frame))
    ensures final == [Event(Call.SetModeIDLE, false)]
         || (|final| == 2 && final[0] == Event(Call.SetModeIDLE, true) && final[1].call == Call.Cleanup)
  {
    if t[|t| - 1] == Event(Call.SetModeIDLE, false) {
      tried, final := t[..|t| - 1], [t[|t| - 1]];
    } else {
      tried, final := t[..|t| - 2], t[|t| - 2..];
    }
  }

  /**
   * fanCmd propagates the exception raised last; with LastFault's contract,
   * it returns normally exactly when no radio call raised.
   */
  lemma OutcomeIsLastFault(t: seq<Event>, maxPower: bool, frame: seq<byte>, outcome: Outcome)
    requires FanCmdRun(t, maxPower, frame, outcome)
    ensures outcome == LastFault(t)
  {
    var n := |t|;
    if t[n - 1] == Event(Call.SetModeIDLE, false) {
      StoppedLastFault(t[..n - 1], Plan(maxPower, frame));
    } else {
      var tried := t[..n - 2];
      assert t[..n - 1][..n - 2] == tried;
      StoppedLastFault(tried, Plan(maxPower, frame));
    }
  }

  /** fanCmd returns normally exactly when no radio call raised; otherwise an exception escapes. */
  lemma FaultPropagates(t: seq<Event>, maxPower: bool, frame: seq<byte>, outcome: Outcome)
    requires FanCmdRun(t, maxPower, frame, outcome)
    ensures outcome == Returned <==> forall i :: 0 <= i < |t| ==> t[i].ok
  {
    OutcomeIsLastFault(t, maxPower, frame, outcome);
  }

  /**
   * When fanCmd returns normally the radio saw exactly: the configuration
   * calls, Repeats transmissions of the one frame, setModeIDLE, cleanup.
   */
  lemma SuccessfulRun(t: seq<Event>, maxPower: bool, frame: seq<byte>)
    requires FanCmdRun(t, maxPower, frame, Returned)
    ensures Calls(t) == ConfigPlan(maxPower) + Transmits(frame, Repeats) + [Call.SetModeIDLE, Call.Cleanup]
    ensures forall i :: 0 <= i < |t| ==> t[i].ok
    ensures Count(Calls(t), Call.RFxmit(frame)) == Repeats
  {
    OutcomeIsLastFault(t, maxPower, frame, Returned);
    var tried, final := FanCmdParts(t, maxPower, frame, Returned);
    var plan := Plan(maxPower, frame);
    assert Calls(tried) == plan;
    assert Calls(t) == Calls(tried) + [Call.SetModeIDLE, Call.Cleanup];
    CountAppend(plan, [Call.SetModeIDLE, Call.Cleanup], Call.RFxmit(frame));
    PlanTransmits(maxPower, frame);
    CountAbsent([Call.SetModeIDLE, Call.Cleanup], Call.RFxmit(frame));
  }

  /** How often the calls of the finally block occur there. */
  lemma FinallyCounts(final: seq<Event>, data: seq<byte>)
    requires final == [Event(Call.SetModeIDLE, false)]
          || (|final| == 2 && final[0] == Event(Call.SetModeIDLE, true) && final[1].call == Call.Cleanup)
    ensures Count(Calls(final), Call.SetModeIDLE) == 1
    ensures Count(Calls(final), Call.Cleanup) == (if |final| == 2 then 1 else 0)
    ensures Count(Calls(final), Call.RFxmit(data)) == 0
  {
    var idle: seq<Call> := [Call.SetModeIDLE];
    assert idle[..0] == [];
    if |final| == 2 {
      assert Calls(final) == idle + [Call.Cleanup];
      assert Calls(final)[..1] == idle;
    } else {
      assert Calls(final) == idle;
    }
  }

  /** The plan of the try block transmits Repeats times. */
  lemma PlanTransmits(maxPower: bool, frame: seq<byte>)
    ensures Count(Plan(maxPower, frame), Call.RFxmit(frame)) == Repeats
  {
    CountAppend(ConfigPlan(maxPower), Transmits(frame, Repeats), Call.RFxmit(frame));
    CountAbsent(ConfigPlan(maxPower), Call.RFxmit(frame));
    CountTransmits(frame, Repeats);
  }

  /** A prefix holds no more occurrences than the whole. */
  lemma CountPrefix(calls: seq<Call>, k: nat, c: Call)
    requires k <= |calls|
    ensures Count(calls[..k], c) <= Count(calls, c)
  {
    assert calls == calls[..k] + calls[k..];
    CountAppend(calls[..k], calls[k..], c);
  }

  /** A run of the try block makes no call of the finally block and at most Repeats transmissions. */
  lemma TriedCounts(tried: seq<Event>, maxPower: bool, frame: seq<byte>)
    requires StoppedAtFault(tried, Plan(maxPower, frame))
    ensures Count(Calls(tried), Call.SetModeIDLE) == 0
    ensures Count(Calls(tried), Call.Cleanup) == 0
    ensures Count(Calls(tried), Call.RFxmit(frame)) <= Repeats
  {
    var plan := Plan(maxPower, frame);
    assert Calls(tried) == plan[..|tried|];
    CountAbsent(Calls(tried), Call.SetModeIDLE);
    CountAbsent(Calls(tried), Call.Cleanup);
    CountPrefix(plan, |tried|, Call.RFxmit(frame));
    PlanTransmits(maxPower, frame);
  }

  /** How often the calls occur in a try block followed by a finally block. */
  lemma RunCounts(tried: seq<Event>, final: seq<Event>, maxPower: bool, frame: seq<byte>)
    requires StoppedAtFault(tried, Plan(maxPower, frame))
    requires final == [Event(Call.SetModeIDLE, false)]
          || (|final| == 2 && final[0] == Event(Call.SetModeIDLE, true) && final[1].call == Call.Cleanup)
    ensures Count(Calls(tried + final), Call.SetModeIDLE) == 1
    ensures Count(Calls(tried + final), Call.Cleanup) == (if |final| == 2 then 1 else 0)
    ensures Count(Calls(tried + final), Call.RFxmit(frame)) <= Repeats
  {
    TriedCounts(tried, maxPower, frame);
    FinallyCounts(final, frame);
    CountTrace(tried, final, Call.SetModeIDLE);
    CountTrace(tried, final, Call.Cleanup);
    CountTrace(tried, final, Call.RFxmit(frame));
  }

  /**
   * On every path setModeIDLE runs exactly once; cleanup runs once when
   * setModeIDLE returned and not at all when it raised.
   */
  lemma FinallyRuns(t: seq<Event>, maxPower: bool, frame: seq<byte>, outcome: Outcome)
    requires FanCmdRun(t, maxPower, frame, outcome)
    ensures Count(Calls(t), Call.SetModeIDLE) == 1
    ensures Count(Calls(t), Call.Cleanup) == (if Event(Call.SetModeIDLE, true) in t then 1 else 0)
  {
    var tried, final := FanCmdParts(t, maxPower, frame, outcome);
    RunCounts(tried, final, maxPower, frame);
    assert Event(Call.SetModeIDLE, true) in t <==> |final| == 2;
  }

  /**
   * The finally block comes last: the last call is setModeIDLE or cleanup,
   * and no planned call follows setModeIDLE.
   */
  lemma FinallyLast(t: seq<Event>, maxPower: bool, frame: seq<byte>, outcome: Outcome)
    requires FanCmdRun(t, maxPower, frame, outcome)
    ensures t[|t| - 1].call == Call.SetModeIDLE || t[|t| - 1].call == Call.Cleanup
    ensures forall i, j :: 0 <= i < j < |t| && t[j].call != Call.SetModeIDLE && t[j].call != Call.Cleanup
              ==> t[i].call != Call.SetModeIDLE
  {
    var tried, final := FanCmdParts(t, maxPower, frame, outcome);
    var plan := Plan(maxPower, frame);
    assert forall i :: 0 <= i < |tried| ==> tried[i].call == plan[i];
  }

  /**
   * Once a call raises, the only calls that follow are those of the finally
   * block: no further configuration and no further transmission.
   */
  lemma NothingAfterFault(t: seq<Event>, maxPower: bool, frame: seq<byte>, outcome: Outcome)
    requires FanCmdRun(t, maxPower, frame, outcome)
    ensures forall i, j :: 0 <= i < j < |t| && !t[i].ok ==> t[j].call == Call.SetModeIDLE || t[j].call == Call.Cleanup
  {
    var tried, final := FanCmdParts(t, maxPower, frame, outcome);
  }

  /** Every transmission carries the one frame, and there are at most Repeats of them. */
  lemma TransmissionBounds(t: seq<Event>, maxPower: bool, frame: seq<byte>, outcome: Outcome)
    requires FanCmdRun(t, maxPower, frame, outcome)
    ensures forall i :: 0 <= i < |t| && t[i].call.RFxmit? ==> t[i].call == Call.RFxmit(frame)
    ensures Count(Calls(t), Call.RFxmit(frame)) <= Repeats
  {
    var tried, final := FanCmdParts(t, maxPower, frame, outcome);
    RunCounts(tried, final, maxPower, frame);
    TriedFrames(tried, maxPower, frame);
    forall i | 0 <= i < |t| && t[i].call.RFxmit? ensures t[i].call == Call.RFxmit(frame) {
      assert i < |tried| && t[i] == tried[i];
    }
  }

  /** Every transmission of the try block carries the frame. */
  lemma TriedFrames(tried: seq<Event>, maxPower: bool, frame: seq<byte>)
    requires StoppedAtFault(tried, Plan(maxPower, frame))
    ensures forall i :: 0 <= i < |tried| && tried[i].call.RFxmit? ==> tried[i].call == Call.RFxmit(frame)
  {
    var config, plan := ConfigPlan(maxPower), Plan(maxPower, frame);
    assert forall i :: |config| <= i < |plan| ==> plan[i] == Call.RFxmit(frame);
  }

  /**
   * A transmission happens only after every configuration call, in order,
   * has returned; in particular setMaxPower is among them exactly when the
   * max-power flag is set.
   */
  lemma ConfiguredBeforeTransmit(t: seq<Event>, maxPower: bool, frame: seq<byte>, outcome: Outcome, i: nat)
    requires FanCmdRun(t, maxPower, frame, outcome)
    requires i < |t| && t[i].call.RFxmit?
    ensures |ConfigPlan(maxPower)| <= i
    ensures forall j :: 0 <= j < |ConfigPlan(maxPower)| ==> t[j] == Event(ConfigPlan(maxPower)[j], true)
  {
    var tried, final := FanCmdParts(t, maxPower, frame, outcome);
    assert i < |tried| && tried[i] == t[i];
    TriedConfigured(tried, maxPower, frame, i);
  }

  /** In a run of the try block, a transmission comes after every configuration call returned. */
  lemma TriedConfigured(tried: seq<Event>, maxPower: bool, frame: seq<byte>, i: nat)
    requires StoppedAtFault(tried, Plan(maxPower, frame))
    requires i < |tried| && tried[i].call.RFxmit?
    ensures |ConfigPlan(maxPower)| <= i
    ensures forall j :: 0 <= j < |ConfigPlan(maxPower)| ==> tried[j] == Event(ConfigPlan(maxPower)[j], true)
  {
    var config, plan := ConfigPlan(maxPower), Plan(maxPower, frame);
    assert forall j :: 0 <= j < |config| ==> plan[j] == config[j];
  }
}
