/** The stop ladder against an arbitrary guest agent and service manager: what it may return, in what
    order it escalates, and by when it is over. Times are milliseconds. */
module StopLadder {
  import opened Wrappers

  const SHUTDOWN_ASK_TIMEOUT: nat := 2000
  const POWER_SIGNAL_WINDOW_SECONDS: int := 10
  const POLL: nat := 100
  const REAP_POLLS: nat := 50
  /** What the hard poweroff may add: one last poll and the reaping ones. */
  const REAPING: nat := POLL * REAP_POLLS

  datatype Rung = Agent | PowerSignal | HardPoweroff

  /** `systemctl stop`: queued, a unit that is not there, refused, or not even run. */
  datatype StopAnswer = Queued | NotLoaded | Refused

  /** What the ladder did and was told. A unit state of `None` is the question going unanswered. */
  datatype Event =
    | Ask(acknowledged: bool)
    | Stop(answer: StopAnswer)
    | Read(state: Option<string>)
    | Kill(delivered: bool)

  datatype Stamped = Stamped(at: nat, event: Event)

  datatype Outcome = Stopped(rung: Option<Rung>) | Unconfirmed | StillWaiting

  /** The states of a unit whose lifetime is over. */
  predicate IsGone(unit: string) {
    unit == "inactive" || unit == "failed"
  }

  /** How the polls read a unit: gone, or not answered for at all. */
  predicate Gone(state: Option<string>) {
    state.None? || IsGone(state.value)
  }

  /** The unit's actual state at the moment of each event, counted from 0, and what the manager makes of
      the questions: which it answers and which stops it refuses. */
  datatype Manager = Manager(unit: nat -> string, answers: nat -> bool, refuses: nat -> bool)

  /** The `k`-th event is what this manager would have said: a reading is the actual state or nothing, and
      only a unit that is gone is not loaded. */
  ghost predicate Explained(m: Manager, k: nat, e: Event) {
    match e
    case Read(state) => state == if m.answers(k) then Some(m.unit(k)) else None
    case Stop(answer) =>
      (answer == NotLoaded ==> IsGone(m.unit(k))) && (answer == Refused <==> m.refuses(k))
    case _ => true
  }

  ghost predicate Explains(m: Manager, trace: seq<Stamped>) {
    forall k | 0 <= k < |trace| :: Explained(m, k, trace[k].event)
  }

  /** The last event is evidence: a reading that was answered, or a stop that found nothing to stop. */
  predicate Witnessed(trace: seq<Stamped>) {
    trace != [] && (var last := trace[|trace| - 1].event;
                    last == Stop(NotLoaded) || (last.Read? && last.state.Some?))
  }

  /** The states a unit can have gone through, one per event, for what was seen of it. */
  ghost predicate Fits(units: seq<string>, trace: seq<Stamped>) {
    && |units| >= |trace|
    && (forall k | 0 <= k < |trace| && trace[k].event.Read? && trace[k].event.state.Some? ::
          units[k] == trace[k].event.state.value)
    && (forall k | 0 <= k < |trace| && trace[k].event == Stop(NotLoaded) :: IsGone(units[k]))
  }

  /** Whatever the unit went through, so long as it fits what was seen, it was gone at the end. */
  ghost predicate Certain(trace: seq<Stamped>) {
    trace != [] && forall units | Fits(units, trace) :: IsGone(units[|trace| - 1])
  }

  /** What a manager was like fits what the ladder saw of it. */
  lemma ManagersFit(m: Manager, trace: seq<Stamped>)
    requires Explains(m, trace)
    ensures Fits(seq(|trace|, k requires 0 <= k => m.unit(k)), trace)
  {
  }

  /** A stop that was reported can be relied on exactly when its last event is evidence: then the unit was
      gone at that moment whatever it went through, and otherwise it may have been active all along. */
  lemma AStopIsCertainExactlyWhenWitnessed(m: Manager, trace: seq<Stamped>)
    requires Explains(m, trace) && EndsGone(trace)
    ensures Certain(trace) <==> Witnessed(trace)
  {
    var last := |trace| - 1;
    ManagersFit(m, trace);
    if !Witnessed(trace) {
      var units := seq(|trace|, k requires 0 <= k => m.unit(k))[last := "active"];
      assert Fits(units, trace);
      assert !IsGone(units[last]);
    }
  }

  /** And it says nothing about later: the unit may be back at the very next moment. */
  lemma AStopSaysNothingAboutLater(trace: seq<Stamped>, units: seq<string>, later: string)
    requires Fits(units, trace) && |units| == |trace|
    ensures Fits(units + [later], trace) && (units + [later])[|trace|] == later
  {
  }

  /** `grace_seconds`; no value is an indefinite wait. */
  function GraceSeconds(force: bool, timeout: Option<int>): Option<nat> {
    if force then Some(0)
    else
      match timeout
      case Some(seconds) => if seconds < 0 then None else Some(seconds)
      case None => Some(10)
  }

  predicate Happened(trace: seq<Stamped>, e: Event) {
    exists k :: 0 <= k < |trace| && trace[k].event == e
  }

  /** The deepest rung a trace entered. */
  function Deepest(trace: seq<Stamped>): Option<Rung> {
    if Happened(trace, Kill(true)) then Some(HardPoweroff)
    else if Happened(trace, Stop(Queued)) then Some(PowerSignal)
    else if Happened(trace, Ask(true)) then Some(Agent)
    else None
  }

  /** The last thing learned is that the unit is gone, or was not there to stop. */
  predicate EndsGone(trace: seq<Stamped>) {
    trace != [] && (var last := trace[|trace| - 1].event;
                    last == Stop(NotLoaded) || (last.Read? && Gone(last.state)))
  }

  /** From entry `n` on, the trace is one pass of the manager's rungs and `out` is its outcome: a stop
      that ended says the unit is gone and names the deepest rung, nobody asks the agent, and a kill
      comes only once the stop was queued and the whole grace had passed. */
  ghost predicate StopsFrom(trace: seq<Stamped>, n: nat, grace: Option<nat>, out: Outcome) {
    && n <= |trace|
    && (forall k | n <= k < |trace| :: !trace[k].event.Ask?)
    && (forall k | n <= k < |trace| && trace[k].event.Kill? ::
          grace.Some? && n < k && trace[n].event == Stop(Queued) && trace[n].at + 1000 * grace.value <= trace[k].at)
    && (out.Stopped? ==>
          && EndsGone(trace)
          && (out.rung == Some(HardPoweroff) <==> exists k :: n <= k < |trace| && trace[k].event == Kill(true))
          && (out.rung != None <==> exists k :: n <= k < |trace| && trace[k].event == Stop(Queued))
          && out.rung != Some(Agent))
  }

  function Smaller(a: nat, b: nat): nat { if a < b then a else b }

  /** Before entry `n` there were only the ask and readings. */
  lemma DeepestFrom(trace: seq<Stamped>, n: nat, grace: Option<nat>, out: Outcome, acknowledged: bool)
    requires StopsFrom(trace, n, grace, out)
    requires forall k | 0 <= k < n :: trace[k].event.Ask? || trace[k].event.Read?
    requires acknowledged <==> Happened(trace[..n], Ask(true))
    ensures out.Stopped? ==> Deepest(trace) == if out.rung.None? && acknowledged then Some(Agent) else out.rung
    ensures Happened(trace, Ask(true)) <==> acknowledged
    ensures out.Stopped? ==> EndsGone(trace)
    ensures forall k | n <= k < |trace| :: !trace[k].event.Ask?
    ensures forall k | 0 <= k < |trace| && trace[k].event.Kill? ::
              n < k && Happened(trace[..k], Stop(Queued))
              && grace.Some? && trace[n].at + 1000 * grace.value <= trace[k].at
  {
    assert forall k | 0 <= k < n :: trace[..n][k] == trace[k];
    assert Happened(trace[..n], Ask(true)) <==> exists k :: 0 <= k < n && trace[k].event == Ask(true);
    assert Happened(trace, Ask(true)) <==> acknowledged;
    assert Happened(trace, Kill(true)) <==> exists k :: n <= k < |trace| && trace[k].event == Kill(true);
    assert Happened(trace, Stop(Queued)) <==> exists k :: n <= k < |trace| && trace[k].event == Stop(Queued);
    if out.Stopped? && out.rung.Some? {
      match out.rung.value
      case HardPoweroff =>
      case PowerSignal =>
      case Agent =>
    }
    forall k | 0 <= k < |trace| && trace[k].event.Kill?
      ensures n < k && Happened(trace[..k], Stop(Queued))
              && grace.Some? && trace[n].at + 1000 * grace.value <= trace[k].at
    {
      assert trace[..k][n] == trace[n];
    }
  }

  lemma Latencies(i: nat, latency: nat)
    requires i < REAP_POLLS
    ensures (i + 1) * latency == i * latency + latency <= REAP_POLLS * latency
  {
    assert (REAP_POLLS - i - 1) * latency >= 0;
  }

  class Ladder {
    var now: nat
    var trace: seq<Stamped>
    /** How long the agent was given to answer, once it was asked. */
    var given: Option<nat>
    /** The longest one call to the manager takes. */
    const latency: nat
    const manager: Manager

    constructor (latency: nat, manager: Manager)
      ensures now == 0 && trace == [] && this.latency == latency && this.manager == manager
    {
      this.now, this.trace, this.given, this.latency, this.manager := 0, [], None, latency, manager;
    }

    /** The manager accounts for everything seen so far. */
    ghost predicate Told()
      reads this
    {
      Explains(manager, trace)
    }

    method Record(e: Event, limit: nat)
      modifies this`now, this`trace
      ensures old(now) <= now <= old(now) + limit && trace == old(trace) + [Stamped(now, e)]
    {
      var took: nat :| took <= limit;
      now := now + took;
      trace := trace + [Stamped(now, e)];
    }

    method ReadUnit() returns (state: Option<string>)
      requires Told()
      modifies this`now, this`trace
      ensures Told()
      ensures old(now) <= now <= old(now) + latency && trace == old(trace) + [Stamped(now, Read(state))]
    {
      state := if manager.answers(|trace|) then Some(manager.unit(|trace|)) else None;
      Record(Read(state), latency);
    }

    method RequestShutdown(limit: nat) returns (acknowledged: bool)
      requires Told()
      modifies this
      ensures Told()
      ensures old(now) <= now <= old(now) + limit && trace == old(trace) + [Stamped(now, Ask(acknowledged))]
      ensures given == Some(limit)
    {
      given := Some(limit);
      acknowledged := *;
      Record(Ask(acknowledged), limit);
    }

    method StopCommand() returns (answer: StopAnswer)
      requires Told()
      modifies this`now, this`trace
      ensures Told()
      ensures old(now) <= now <= old(now) + latency && trace == old(trace) + [Stamped(now, Stop(answer))]
    {
      var loaded: bool := *;
      answer := if manager.refuses(|trace|) then Refused
                else if !loaded && IsGone(manager.unit(|trace|)) then NotLoaded
                else Queued;
      Record(Stop(answer), latency);
    }

    method KillCommand() returns (delivered: bool)
      requires Told()
      modifies this`now, this`trace
      ensures Told()
      ensures old(now) <= now <= old(now) + latency && trace == old(trace) + [Stamped(now, Kill(delivered))]
    {
      delivered := *;
      Record(Kill(delivered), latency);
    }

    /** Poll the unit until it reads as gone or the deadline has passed. Without a deadline the wait has
        no end of its own; `patience` is how many polls of it are looked at. */
    method PollUntil(deadline: Option<nat>, patience: nat) returns (result: Polled)
      requires Told()
      modifies this`now, this`trace
      ensures Told()
      ensures OnlyReads(old(trace), trace) && old(now) <= now
      ensures result == SawGone ==> EndsGone(trace)
      ensures |trace| > |old(trace)| && Paced(trace, |old(trace)|)
      ensures NoGone(trace, |old(trace)|, if result == SawGone then |trace| - 1 else |trace|)
      ensures result == Late ==> deadline.Some? && deadline.value <= now
      ensures result == Waiting ==> deadline.None?
      ensures deadline.Some? ==> now <= Later(old(now), deadline.value + POLL) + latency
    {
      var left: nat := patience;
      while true
        invariant Told() && OnlyReads(old(trace), trace) && old(now) <= now
        invariant NoGone(trace, |old(trace)|, |trace|)
        invariant Paced(trace, |old(trace)|) && (trace != old(trace) ==> trace[|trace| - 1].at + 100 <= now)
        invariant deadline.Some? ==> now <= Later(old(now), deadline.value + POLL)
        decreases if deadline.None? then left else if now < deadline.value then deadline.value - now else 0
      {
        var state := ReadUnit();
        if Gone(state) { return SawGone; }
        if deadline.Some? && now >= deadline.value { return Late; }
        if deadline.None? {
          if left == 0 { return Waiting; }
          left := left - 1;
        }
        now := now + POLL;
      }
    }

    /** The reaping polls after a delivered kill. */
    method Reap() returns (gone: bool)
      requires Told()
      modifies this`now, this`trace
      ensures Told()
      ensures OnlyReads(old(trace), trace) && old(now) <= now <= old(now) + REAPING + REAP_POLLS * latency
      ensures gone ==> EndsGone(trace)
      ensures NoGone(trace, |old(trace)|, if gone then |trace| - 1 else |trace|)
      ensures !gone ==> |trace| == |old(trace)| + 50 && trace[|trace| - 1].at + 100 <= now
      ensures Paced(trace, |old(trace)|)
    {
      for i := 0 to REAP_POLLS
        invariant Told() && OnlyReads(old(trace), trace) && |trace| == |old(trace)| + i
        invariant NoGone(trace, |old(trace)|, |trace|)
        invariant Paced(trace, |old(trace)|) && (i > 0 ==> trace[|trace| - 1].at + 100 <= now)
        invariant old(now) <= now <= old(now) + i * POLL + i * latency
      {
        Latencies(i, latency);
        var state := ReadUnit();
        if Gone(state) { return true; }
        now := now + POLL;
      }
      gone := false;
    }

    /** `stop_unit`: the manager's two rungs. */
    method StopUnit(force: bool, timeout: Option<int>, patience: nat) returns (out: Outcome)
      requires Told()
      modifies this`now, this`trace
      ensures Told()
      ensures old(trace) <= trace && old(now) <= now
      ensures StopsFrom(trace, |old(trace)|, GraceSeconds(force, timeout), out)
      ensures |old(trace)| < |trace| && old(now) <= trace[|old(trace)|].at && trace[|old(trace)|].event.Stop?
      ensures Paced(trace, |old(trace)|)
      ensures HeedsGone(trace, |old(trace)|) && AsksBeforeKilling(trace, |old(trace)|)
      ensures out.Unconfirmed? ==> GaveUp(trace, |old(trace)|)
      ensures forall k | |old(trace)| <= k < |trace| && trace[k].event.Kill? ::
                && (force || timeout.None? || timeout.value >= 0)
                && old(now) + (if force then 0 else if timeout.None? then 10_000 else 1000 * timeout.value)
                     <= trace[k].at
      ensures force || timeout.None? || timeout.value >= 0 ==>
                && !out.StillWaiting?
                && now <= old(now) + (if force then 0 else if timeout.None? then 10_000 else 1000 * timeout.value)
                          + 5100 + 54 * latency
    {
      hide Explains, Explained, IsGone, Gone;
      var grace := GraceSeconds(force, timeout);
      ghost var n := |trace|;
      var answer := StopCommand();
      if answer != Queued {
        return if answer == NotLoaded then Stopped(None) else Unconfirmed;
      }
      assert trace[n].event == Stop(Queued) && trace[n].at == now;
      var deadline := if grace.Some? then Some(now + 1000 * grace.value) else None;
      var polled := PollUntil(deadline, patience);
      assert trace[n].event == Stop(Queued) && trace[n + 1].event.Read?;
      if polled == SawGone { return Stopped(Some(PowerSignal)); }
      if polled == Waiting { return StillWaiting; }
      ghost var k := |trace|;
      var gone := Poweroff();
      assert trace[n].event == Stop(Queued) && trace[n + 1].event.Read?;
      out := if gone then Stopped(Some(HardPoweroff)) else Unconfirmed;
    }

    /** The last rung: one kill of the whole group, and the polls that see it reaped. */
    method Poweroff() returns (gone: bool)
      requires Told()
      modifies this`now, this`trace
      ensures Told()
      ensures old(trace) < trace && old(now) <= now <= old(now) + REAPING + (REAP_POLLS + 2) * latency
      ensures trace[|old(trace)|].event.Kill? && old(now) <= trace[|old(trace)|].at
      ensures forall k | |old(trace)| < k < |trace| :: trace[k].event.Read?
      ensures NoGone(trace, |old(trace)|, |trace| - 1)
      ensures gone ==> EndsGone(trace) && trace[|old(trace)|].event == Kill(true)
      ensures !gone ==> trace[|old(trace)|].event == Kill(true) ==> |old(trace)| < |trace| - 51
      ensures Paced(trace, |old(trace)|)
    {
      hide Gone;
      var delivered := KillCommand();
      gone := false;
      if delivered {
        gone := Reap();
        if gone { return; }
      }
      // The report names the state the unit is in.
      var actual := ReadUnit();
    }

    /** `stop_ladder`. `ready` is whether the boot record could be read. With a finite grace it always
        ends, in time; it reports success only once the unit read as gone, with the deepest rung it
        entered, and can be relied on exactly when the last answer was one; and it asks the agent only when
        the operator left it time to. */
    method Run(force: bool, timeout: Option<int>, ready: bool, patience: nat) returns (out: Outcome)
      requires trace == []
      requires Told()
      modifies this
      ensures Told()
      ensures out.Stopped? ==> EndsGone(trace) && out.rung == Deepest(trace)
      ensures (exists a :: Happened(trace, Ask(a))) <==> ready && !force && timeout != Some(0)
      ensures (exists a :: Happened(trace, Ask(a))) ==>
                given == Some(if timeout.Some? && 0 <= timeout.value < 2 then 1000 * timeout.value else 2000)
      ensures HeedsGone(trace, 0) && AsksBeforeKilling(trace, 0) && Paced(trace, 0)
      ensures out.Stopped? && Witnessed(trace) ==> IsGone(manager.unit(|trace| - 1))
      ensures out.Stopped? ==> (Certain(trace) <==> Witnessed(trace))
      ensures out.Unconfirmed? ==> GaveUp(trace, 0)
      ensures forall k | 0 <= k < |trace| && trace[k].event.Kill? ::
                && (force || timeout.None? || timeout.value >= 0)
                && Happened(trace[..k], Stop(Queued))
                && old(now) + (if force then 0 else if timeout.None? then 10_000 else 1000 * timeout.value)
                     + (if Happened(trace, Ask(true)) then 10_000 else 0) <= trace[k].at
      ensures force || timeout.None? || timeout.value >= 0 ==>
                var g := if force then 0 else if timeout.None? then 10_000 else 1000 * timeout.value;
                && !out.StillWaiting?
                && (Happened(trace, Ask(true)) ==> now <= old(now) + g + 15_200 + 55 * latency)
                && (!Happened(trace, Ask(true)) ==>
                      now <= old(now) + Smaller(2000, g) + g + 5100 + 54 * latency)
    {
      hide Explains, Explained, GaveUp, IsGone, StopsFrom, HeedsGone, NoGone, EndsGone, Witnessed, Certain, Deepest,
        AsksBeforeKilling, Paced;
      var grace := GraceSeconds(force, timeout);
      var deadline := if grace.Some? then Some(now + 1000 * grace.value) else None;
      if ready && grace != Some(0) {
        var limit := if grace.None? then SHUTDOWN_ASK_TIMEOUT else Smaller(SHUTDOWN_ASK_TIMEOUT, deadline.value - now);
        var acknowledged, polled := AskFirst(limit, deadline, patience);
        if acknowledged && polled != Late {
          out := if polled == SawGone then Stopped(Some(Agent)) else StillWaiting;
          OnlyAsked(trace, polled);
          if out.Stopped? { Relied(manager, trace); }
          return;
        }
        ghost var n, asked := |trace|, trace;
        if acknowledged {
          out := StopUnit(false, Some(POWER_SIGNAL_WINDOW_SECONDS), patience);
          DeepestFrom(trace, n, Some(POWER_SIGNAL_WINDOW_SECONDS), out, true);
          if out == Stopped(None) { out := Stopped(Some(Agent)); }
        } else {
          out := StopUnit(force, timeout, patience);
          DeepestFrom(trace, n, grace, out, false);
        }
        assert trace[0].event == Ask(acknowledged);
        if acknowledged { NoGoneExtends(asked, trace, n); }
        PacedThroughout(asked, trace, n);
        LaterRungs(trace, n, out);
      } else {
        out := StopUnit(force, timeout, patience);
        DeepestFrom(trace, 0, grace, out, false);
        LaterRungs(trace, 0, out);
      }
      if out.Stopped? { Relied(manager, trace); }
    }

    /** Rung one: the bounded ask and, once acknowledged, the polls of the guest's own shutdown. */
    method AskFirst(limit: nat, deadline: Option<nat>, patience: nat) returns (acknowledged: bool, polled: Polled)
      requires Told() && trace == []
      modifies this
      ensures Told() && trace != [] && trace[0].event == Ask(acknowledged)
      ensures forall k | 0 < k < |trace| :: trace[k].event.Read?
      ensures !acknowledged ==> |trace| == 1 && old(now) <= now <= old(now) + limit
      ensures given == Some(limit)
      ensures acknowledged ==> old(now) <= now
      ensures Paced(trace, 0)
      ensures acknowledged && polled == SawGone ==> EndsGone(trace)
      ensures acknowledged ==> NoGone(trace, 0, if polled == SawGone then |trace| - 1 else |trace|)
      ensures acknowledged && polled == Late ==> deadline.Some? && deadline.value <= now
      ensures acknowledged && polled == Waiting ==> deadline.None?
      ensures acknowledged && deadline.Some? ==> now <= Later(old(now) + limit, deadline.value + POLL) + latency
    {
      hide Explains, Explained, Gone;
      acknowledged := RequestShutdown(limit);
      assert trace[0].event == Ask(acknowledged);
      polled := Late;
      if acknowledged {
        polled := PollUntil(deadline, patience);
        assert trace[0].event == Ask(true);
      }
    }
  }

  /** The polls stop at the first reading that the unit is gone: none but the last entry can be one. */
  ghost predicate HeedsGone(trace: seq<Stamped>, from: nat) {
    forall k | from <= k < |trace| - 1 && trace[k].event.Read? :: !Gone(trace[k].event.state)
  }

  /** How far the ladder's word on a stop goes. */
  lemma Relied(m: Manager, trace: seq<Stamped>)
    requires Explains(m, trace) && EndsGone(trace)
    ensures Witnessed(trace) ==> IsGone(m.unit(|trace| - 1))
    ensures Certain(trace) <==> Witnessed(trace)
  {
    AStopIsCertainExactlyWhenWitnessed(m, trace);
    assert Explained(m, |trace| - 1, trace[|trace| - 1].event);
  }

  /** The trace of an ask whose own shutdown was the end of it. */
  lemma OnlyAsked(trace: seq<Stamped>, polled: Polled)
    requires trace != [] && trace[0].event == Ask(true) && forall k | 0 < k < |trace| :: trace[k].event.Read?
    requires NoGone(trace, 0, if polled == SawGone then |trace| - 1 else |trace|)
    ensures HeedsGone(trace, 0) && AsksBeforeKilling(trace, 0)
    ensures Deepest(trace) == Some(Agent) && Happened(trace, Ask(true))
  {
    assert forall k | 0 <= k < |trace| :: trace[k].event != Kill(true) && trace[k].event != Stop(Queued);
  }

  lemma NoGoneExtends(before: seq<Stamped>, trace: seq<Stamped>, n: nat)
    requires before <= trace && n == |before| && NoGone(before, 0, n)
    ensures NoGone(trace, 0, n)
  {
    assert forall k | 0 <= k < n :: trace[k] == before[k];
  }

  /** What the manager's rungs promise of their part of the trace holds of all of it. */
  lemma LaterRungs(trace: seq<Stamped>, n: nat, out: Outcome)
    requires n < |trace| && HeedsGone(trace, n) && AsksBeforeKilling(trace, n)
    requires forall k | 0 <= k < n :: trace[k].event.Ask? || trace[k].event.Read?
    requires n > 1 ==> NoGone(trace, 0, n)
    requires out.Unconfirmed? ==> GaveUp(trace, n)
    requires n > 0 ==> trace[0].event.Ask?
    ensures HeedsGone(trace, 0) && AsksBeforeKilling(trace, 0)
    ensures out.Unconfirmed? ==> GaveUp(trace, 0)
  {
  }

  /** Every kill comes after a reading. */
  ghost predicate AsksBeforeKilling(trace: seq<Stamped>, from: nat) {
    forall k | from <= k < |trace| && trace[k].event.Kill? :: exists j :: from <= j < k && trace[j].event.Read?
  }

  /** Giving up takes a refused stop, or a kill that could not be delivered or was followed by every
      reaping poll and the last question. */
  ghost predicate GaveUp(trace: seq<Stamped>, from: nat) {
    || (exists k :: from <= k < |trace| && trace[k].event == Stop(Refused))
    || (exists k :: from <= k < |trace| && trace[k].event == Kill(false))
    || (exists k :: from <= k < |trace| - 51 && trace[k].event == Kill(true))
  }

  ghost predicate NoGone(trace: seq<Stamped>, from: nat, to: int) {
    forall k | from <= k < to && k < |trace| && trace[k].event.Read? :: !Gone(trace[k].event.state)
  }

  /** Readings that follow each other are at least a tenth of a second apart. */
  ghost predicate Paced(trace: seq<Stamped>, from: nat) {
    forall k | from <= k < |trace| - 1 && trace[k].event.Read? && trace[k + 1].event.Read? ::
      trace[k].at + 100 <= trace[k + 1].at
  }

  /** What the end of a stop was told: that there is no such unit to stop, that it is inactive or failed, or
      nothing; and that no reading before the end was one of these. */
  lemma WhatReadsAsGone(trace: seq<Stamped>)
    ensures var gone := {Read(None), Read(Some("inactive")), Read(Some("failed"))};
            && (EndsGone(trace) <==> trace != [] && trace[|trace| - 1].event in gone + {Stop(NotLoaded)})
            && (HeedsGone(trace, 0) <==> forall k | 0 <= k < |trace| - 1 :: trace[k].event !in gone)
  {
    forall e: Event | e.Read?
      ensures Gone(e.state) <==> e in {Read(None), Read(Some("inactive")), Read(Some("failed"))}
    {
      assert e == Read(e.state);
      if e.state.Some? { assert e.state == Some(e.state.value); }
    }
  }

  lemma PacedThroughout(before: seq<Stamped>, trace: seq<Stamped>, n: nat)
    requires before <= trace && n == |before| < |trace| && !trace[n].event.Read?
    requires Paced(before, 0) && Paced(trace, n)
    ensures Paced(trace, 0)
  {
    assert forall k | 0 <= k < n :: trace[k] == before[k];
  }

  datatype Polled = SawGone | Late | Waiting

  function Later(a: nat, b: nat): nat { if a < b then b else a }

  /** `after` is `before` and then readings of the unit. */
  ghost predicate OnlyReads(before: seq<Stamped>, after: seq<Stamped>) {
    before <= after && forall k | |before| <= k < |after| :: after[k].event.Read?
  }

  /** With a manager that never answers and a unit that stays active throughout, a forced stop reports
      success. */
  method SilenceReadsAsGone(latency: nat) returns (out: Outcome, ladder: Ladder)
    ensures out.Stopped? && forall k: nat :: ladder.manager.unit(k) == "active"
    ensures Explains(ladder.manager, ladder.trace) && !Witnessed(ladder.trace)
  {
    ladder := new Ladder(latency, Manager(k => "active", k => false, k => false));
    out := ladder.Run(true, None, true, 0);
    ghost var trace := ladder.trace;
    forall k | 0 <= k < |trace| ensures trace[k].event != Stop(Refused) && trace[k].event != Stop(NotLoaded) {
      assert Explained(ladder.manager, k, trace[k].event);
    }
    forall k | 0 <= k < |trace| && trace[k].event.Read? ensures trace[k].event.state.None? {
      assert Explained(ladder.manager, k, trace[k].event);
    }
  }
}
