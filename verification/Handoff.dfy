/** The readiness handoff between the launcher, the supervisor's main task and its supervision task:
    every interleaving, a connection outliving the socket's name, and either side dying. */
module Handoff {
  import opened Wrappers
  import opened Readiness

  /** The launcher listens, has accepted and reads to end of file, and ends; or it dies. */
  datatype Launcher = Listening | Reading(got: string) | Finished(result: Result) | Dead

  datatype Result = Success | LaunchFailed | Unintelligible | TimedOut

  /** The supervisor's main task. `heard` is whether the channel's first message was `ProcessReady`. */
  datatype Supervisor =
    | Starting
    | Connected
    | Waiting
    | Writing(heard: bool, sent: nat)
    | Joining(heard: bool)
    | Exited(zero: bool)

  datatype Supervision = Unspawned | Running | Ended(ok: bool)

  /** `buffer` is the channel's one slot and `first` what it delivered first; `wire` is what the
      connection carried and `read` how much of it the launcher took. */
  datatype World = World(launcher: Launcher, supervisor: Supervisor, supervision: Supervision,
                         name: bool, connected: bool, closed: bool, wire: string, read: nat,
                         buffer: Option<Status>, sender: bool, first: Option<Status>)

  /** The launcher has bound its socket and submitted the unit. */
  function Initial(): World {
    World(Listening, Starting, Unspawned, true, false, false, "", 0, None, false, None)
  }

  function Report(heard: bool): string {
    Encode(if heard then ProcessReady else Failed)
  }

  datatype Step =
    // The launcher.
    | Accept | GiveUp | Read(count: nat) | EndOfFile | LauncherDies
    // The supervisor's main task.
    | Refuse | Connect | Spawn | Receive | Write(count: nat) | WriteFails | HalfClose | Join | SupervisorDies
    // The supervision task.
    | Send(message: Status) | DropSender | UnlinkSocket | End(ok: bool)

  predicate LauncherGone(w: World) {
    w.launcher.Dead? || w.launcher.Finished?
  }

  predicate Enabled(w: World, s: Step) {
    match s
    case Accept => w.launcher.Listening? && w.connected
    case GiveUp => w.launcher.Listening? && !w.connected
    case Read(count) => w.launcher.Reading? && 0 < count && w.read + count <= |w.wire|
    case EndOfFile => w.launcher.Reading? && w.read == |w.wire| && w.closed
    case LauncherDies => !LauncherGone(w)
    case Refuse => w.supervisor.Starting?
    case Connect => w.supervisor.Starting? && w.name && w.launcher.Listening?
    case Spawn => w.supervisor.Connected?
    case Receive => w.supervisor.Waiting? && (w.buffer.Some? || !w.sender)
    case Write(count) => w.supervisor.Writing? && !LauncherGone(w)
                         && 0 < count <= |Report(w.supervisor.heard)| - w.supervisor.sent
    case WriteFails => w.supervisor.Writing? && LauncherGone(w)
    case HalfClose => w.supervisor.Writing? && w.supervisor.sent == |Report(w.supervisor.heard)|
    case Join => w.supervisor.Joining? && w.supervision.Ended?
    case SupervisorDies => !w.supervisor.Exited?
    case Send(_) => w.supervision.Running? && w.sender && w.buffer.None? && !w.supervisor.Exited?
    case DropSender => w.supervision.Running? && w.sender
    case UnlinkSocket => w.supervision.Running? && w.name
    case End(_) => w.supervision.Running?
  }

  function Gone(w: World, zero: bool): World {
    w.(supervisor := Exited(zero), closed := true, sender := false,
       supervision := if w.supervision.Running? then Ended(false) else w.supervision)
  }

  function ResultOf(text: string): Result {
    match Decode(text)
    case Report(ProcessReady) => Success
    case Report(Failed) => LaunchFailed
    case _ => Unintelligible
  }

  function Apply(w: World, s: Step): World
    requires Enabled(w, s)
  {
    match s
    case Accept => w.(launcher := Reading(""))
    case GiveUp => w.(launcher := Finished(TimedOut))
    case Read(count) =>
      w.(launcher := Reading(w.launcher.got + w.wire[w.read..w.read + count]), read := w.read + count)
    case EndOfFile => w.(launcher := Finished(ResultOf(w.launcher.got)))
    case LauncherDies => w.(launcher := Dead)
    case Refuse => Gone(w, false)
    case Connect => w.(supervisor := Connected, connected := true)
    case Spawn => w.(supervisor := Waiting, supervision := Running, sender := true)
    case Receive =>
      w.(supervisor := Writing(w.buffer == Some(ProcessReady), 0), first := w.buffer, buffer := None)
    case Write(count) =>
      var report := Report(w.supervisor.heard);
      var sent := w.supervisor.sent;
      w.(wire := w.wire + report[sent..sent + count], supervisor := Writing(w.supervisor.heard, sent + count))
    case WriteFails => if w.supervisor.heard then Gone(w, false) else w.(supervisor := Joining(false))
    case HalfClose => w.(supervisor := Joining(w.supervisor.heard), closed := true)
    case Join => Gone(w, w.supervisor.heard && w.supervision.ok)
    case SupervisorDies => Gone(w, false)
    case Send(message) => w.(buffer := Some(message))
    case DropSender => w.(sender := false)
    case UnlinkSocket => w.(name := false)
    case End(ok) => w.(supervision := Ended(ok), sender := false)
  }

  predicate HeardReady(w: World) {
    w.first == Some(ProcessReady)
  }

  ghost predicate Inv(w: World) {
    && (w.launcher.Listening? ==> w.read == 0)
    && (w.launcher.Reading? ==> w.connected && w.read <= |w.wire| && w.launcher.got == w.wire[..w.read])
    && (w.supervisor.Starting? ==> !w.connected && !w.closed)
    && (w.supervisor.Starting? || w.supervisor.Connected? || w.supervisor.Waiting? ==>
          w.wire == "" && w.first.None?)
    && (w.supervisor.Connected? || w.supervisor.Waiting? || w.supervisor.Writing? ==> w.connected && !w.closed)
    && (w.supervisor.Writing? ==>
          && w.supervisor.heard == HeardReady(w)
          && w.supervisor.sent <= |Report(HeardReady(w))|
          && w.wire == Report(HeardReady(w))[..w.supervisor.sent])
    && (w.supervisor.Joining? ==> w.supervisor.heard == HeardReady(w))
    // Whatever the connection carried is a prefix of the one report the first message calls for.
    && w.wire <= Report(HeardReady(w))
    && (w.supervisor == Exited(true) ==> HeardReady(w))
    && (w.launcher == Finished(Success) ==> HeardReady(w))
    && (w.launcher == Finished(LaunchFailed) ==> !HeardReady(w))
    && (w.launcher.Finished? && !w.launcher.result.TimedOut? ==> w.closed && w.read == |w.wire|)
    && (w.supervisor.Exited? ==> w.closed)
    && TaskInv(w)
  }

  /** The supervision task exists from its spawn to, at the latest, the supervisor's exit. */
  ghost predicate TaskInv(w: World) {
    && (w.supervisor.Starting? || w.supervisor.Connected? ==> w.supervision.Unspawned? && w.buffer.None?)
    && (w.supervisor.Waiting? || w.supervisor.Writing? || w.supervisor.Joining? ==> !w.supervision.Unspawned?)
    && (w.supervisor.Exited? ==> !w.supervision.Running?)
    && (w.sender ==> w.supervision.Running?)
  }

  lemma StepKeepsTaskInv(w: World, s: Step)
    requires TaskInv(w) && Enabled(w, s)
    ensures TaskInv(Apply(w, s))
  {
    hide Report, ResultOf;
  }

  lemma ResultOfPrefix(text: string, heard: bool)
    requires text <= Report(heard)
    ensures ResultOf(text) == if text != Report(heard) then Unintelligible
                              else if heard then Success else LaunchFailed
  {
    hide Encode, Decode;
    var status := if heard then ProcessReady else Failed;
    if text == Report(heard) {
      DecodeOfEncode(status);
    } else {
      assert text == Encode(status)[..|text|];
      TornReportIsMalformed(status, |text|);
    }
  }

  predicate OfLauncher(s: Step) {
    s.Accept? || s.GiveUp? || s.Read? || s.EndOfFile? || s.LauncherDies?
  }

  predicate OfSupervision(s: Step) {
    s.Send? || s.DropSender? || s.UnlinkSocket? || s.End?
  }

  predicate OfWriting(s: Step) {
    s.Write? || s.WriteFails? || s.HalfClose?
  }

  lemma LauncherKeepsInv(w: World, s: Step)
    requires Inv(w) && Enabled(w, s) && OfLauncher(s) && TaskInv(Apply(w, s))
    ensures Inv(Apply(w, s))
  {
    hide ResultOf, Report, TaskInv;
    if s.EndOfFile? {
      assert w.launcher.got == w.wire;
      ResultOfPrefix(w.wire, HeardReady(w));
    } else if s.Read? {
      assert w.wire[..w.read] + w.wire[w.read..w.read + s.count] == w.wire[..w.read + s.count];
    }
  }

  lemma WritingKeepsInv(w: World, s: Step)
    requires Inv(w) && Enabled(w, s) && OfWriting(s) && TaskInv(Apply(w, s))
    ensures Inv(Apply(w, s))
  {
    hide ResultOf, Report, TaskInv;
    if s.Write? {
      var report, sent := Report(w.supervisor.heard), w.supervisor.sent;
      assert report[..sent] + report[sent..sent + s.count] == report[..sent + s.count];
      if w.launcher.Reading? {
        assert (w.wire + report[sent..sent + s.count])[..w.read] == w.wire[..w.read];
      }
    }
  }

  lemma OthersKeepInv(w: World, s: Step)
    requires Inv(w) && Enabled(w, s) && !OfLauncher(s) && !OfWriting(s) && TaskInv(Apply(w, s))
    ensures Inv(Apply(w, s))
  {
    hide ResultOf, Report, TaskInv;
  }

  lemma StepKeepsInv(w: World, s: Step)
    requires Inv(w) && Enabled(w, s)
    ensures Inv(Apply(w, s))
  {
    StepKeepsTaskInv(w, s);
    hide Inv, TaskInv, Enabled, Apply;
    if OfLauncher(s) {
      LauncherKeepsInv(w, s);
    } else if OfWriting(s) {
      WritingKeepsInv(w, s);
    } else {
      OthersKeepInv(w, s);
    }
  }

  predicate Possible(w: World, steps: seq<Step>)
    decreases |steps|
  {
    steps == [] || (Enabled(w, steps[0]) && Possible(Apply(w, steps[0]), steps[1..]))
  }

  function After(w: World, steps: seq<Step>): World
    requires Possible(w, steps)
    decreases |steps|
  {
    if steps == [] then w else After(Apply(w, steps[0]), steps[1..])
  }

  lemma {:induction false} RunKeepsInv(w: World, steps: seq<Step>)
    requires Inv(w) && Possible(w, steps)
    ensures Inv(After(w, steps))
    decreases |steps|
  {
    hide Inv, Enabled, Apply;
    if steps != [] {
      StepKeepsInv(w, steps[0]);
      RunKeepsInv(Apply(w, steps[0]), steps[1..]);
    }
  }

  /** Whatever dies and whenever: the launcher reports success, and the supervisor exits 0, only when
      the first message on the channel was `ProcessReady`. */
  lemma SuccessIsNeverMadeUp(steps: seq<Step>)
    requires Possible(Initial(), steps)
    ensures var w := After(Initial(), steps);
            && (w.launcher == Finished(Success) ==> HeardReady(w))
            && (w.launcher == Finished(LaunchFailed) ==> !HeardReady(w))
            && (w.supervisor == Exited(true) ==> HeardReady(w))
  {
    hide Report;
    assert Inv(Initial());
    RunKeepsInv(Initial(), steps);
  }

  // Without a death.

  predicate IsDeath(s: Step) {
    s.LauncherDies? || s.SupervisorDies?
  }

  /** A connection that was closed carried the whole report, and a launcher that finished reading has it. */
  ghost predicate WholeInv(w: World) {
    && Inv(w)
    && !w.launcher.Dead?
    && (w.closed && w.connected ==> w.wire == Report(HeardReady(w)))
    && (w.supervisor.Joining? ==> w.closed && w.connected)
    && (w.supervisor.Exited? ==> w.supervisor.zero == (HeardReady(w) && w.supervision == Ended(true)))
    && (w.launcher.Finished? ==>
          w.launcher.result == if !w.connected then TimedOut else if HeardReady(w) then Success else LaunchFailed)
  }

  lemma StepKeepsWholeInv(w: World, s: Step)
    requires WholeInv(w) && Enabled(w, s) && !IsDeath(s)
    ensures WholeInv(Apply(w, s))
  {
    hide ResultOf, Report;
    StepKeepsInv(w, s);
    if s.EndOfFile? {
      assert w.launcher.got == w.wire;
      ResultOfPrefix(w.wire, HeardReady(w));
    } else if s.HalfClose? {
      var report := Report(HeardReady(w));
      assert report[..|report|] == report;
    }
  }

  lemma {:induction false} RunKeepsWholeInv(w: World, steps: seq<Step>)
    requires WholeInv(w) && Possible(w, steps) && forall s | s in steps :: !IsDeath(s)
    ensures WholeInv(After(w, steps))
    decreases |steps|
  {
    hide WholeInv, Enabled, Apply;
    if steps != [] {
      StepKeepsWholeInv(w, steps[0]);
      RunKeepsWholeInv(Apply(w, steps[0]), steps[1..]);
    }
  }

  function SupervisorRank(s: Supervisor): int {
    var both := |Report(true)| + |Report(false)|;
    match s
    case Starting => 5 + 2 * both
    case Connected => 4 + 2 * both
    case Waiting => 3 + 2 * both
    case Writing(heard, sent) => 2 + 2 * (|Report(heard)| - sent)
    case Joining(_) => 1
    case Exited(_) => 0
  }

  function LauncherRank(l: Launcher, unread: int): int {
    if l.Listening? then 2 + unread else if l.Reading? then 1 + unread else 0
  }

  function TaskRank(t: Supervision, sender: bool, name: bool, buffer: Option<Status>): int {
    (if t.Unspawned? then 3 else if t.Running? then 1 else 0)
      + (if sender then 1 else 0) + (if name then 1 else 0) + (if buffer.None? then 1 else 0)
  }

  /** How many steps can still be taken, at most. */
  function Rank(w: World): int {
    4 * SupervisorRank(w.supervisor) + LauncherRank(w.launcher, |w.wire| - w.read)
      + TaskRank(w.supervision, w.sender, w.name, w.buffer)
  }

  lemma EveryStepCounts(w: World, s: Step)
    requires Inv(w) && Enabled(w, s)
    ensures 0 <= Rank(Apply(w, s)) < Rank(w)
  {
    StepKeepsInv(w, s);
    hide Report, ResultOf, TaskInv;
    RankIsNatural(Apply(w, s));
    RankFalls(w, s);
  }

  lemma RankFalls(w: World, s: Step)
    requires Inv(w) && Enabled(w, s)
    ensures Rank(Apply(w, s)) < Rank(w)
  {
    if OfLauncher(s) {
      RankFallsLauncher(w, s);
    } else if OfSupervision(s) {
      RankFallsSupervision(w, s);
    } else if s.Write? || s.WriteFails? || s.HalfClose? {
      RankFallsWriting(w, s);
    } else {
      RankFallsMain(w, s);
    }
  }

  lemma RankFallsLauncher(w: World, s: Step)
    requires Enabled(w, s) && OfLauncher(s) && (!LauncherGone(w) ==> w.read <= |w.wire|)
    ensures Rank(Apply(w, s)) < Rank(w)
  {
    hide Report, ResultOf, SupervisorRank, TaskRank;
  }

  lemma RankFallsSupervision(w: World, s: Step)
    requires Enabled(w, s) && OfSupervision(s)
    ensures Rank(Apply(w, s)) < Rank(w)
  {
    hide Report, ResultOf, SupervisorRank, LauncherRank;
  }

  lemma RankFallsWriting(w: World, s: Step)
    requires Inv(w) && Enabled(w, s) && (s.Write? || s.WriteFails? || s.HalfClose?)
    ensures Rank(Apply(w, s)) < Rank(w)
  {
    hide Report, ResultOf, TaskInv;
  }

  lemma RankFallsMain(w: World, s: Step)
    requires Inv(w) && Enabled(w, s)
    requires s.Refuse? || s.Connect? || s.Spawn? || s.Receive? || s.Join? || s.SupervisorDies?
    ensures Rank(Apply(w, s)) < Rank(w)
  {
    hide Report, ResultOf, TaskInv;
  }

  /** Every interleaving ends, after at most `Rank` steps, with no help from the scheduler. */
  lemma {:induction false} EveryRunIsShort(w: World, steps: seq<Step>)
    requires Inv(w) && Possible(w, steps)
    ensures |steps| <= Rank(w)
    decreases |steps|
  {
    hide Inv, Rank, Enabled, Apply;
    if steps == [] {
      RankIsNatural(w);
    } else {
      EveryStepCounts(w, steps[0]);
      StepKeepsInv(w, steps[0]);
      EveryRunIsShort(Apply(w, steps[0]), steps[1..]);
    }
  }

  lemma RankIsNatural(w: World)
    requires Inv(w)
    ensures Rank(w) >= 0
  {
    hide Report;
  }

  /** While anyone is alive and unfinished, some step that is not a death can be taken. */
  lemma NobodyIsStuck(w: World) returns (s: Step)
    requires WholeInv(w) && !(LauncherGone(w) && w.supervisor.Exited?)
    ensures Enabled(w, s) && !IsDeath(s)
  {
    hide Report;
    match w.supervisor
    case Starting => s := Refuse;
    case Connected => s := Spawn;
    case Waiting =>
      s := if w.buffer.Some? || !w.sender then Receive else End(true);
    case Writing(heard, sent) =>
      s := if LauncherGone(w) then WriteFails
           else if sent < |Report(heard)| then Write(1)
           else HalfClose;
    case Joining(_) =>
      s := if w.supervision.Ended? then Join else End(true);
    case Exited(_) =>
      s := if w.launcher.Listening? then (if w.connected then Accept else GiveUp)
           else if w.read < |w.wire| then Read(1)
           else EndOfFile;
  }

  /** The handoff. In every interleaving without a death that cannot be continued, the launcher has
      finished; and if the supervisor had connected, the launcher read exactly the one complete report,
      to end of file, and reports success exactly when the channel's first message was `ProcessReady`:
      the supervision task unlinking the socket's name, early or late, changes nothing. The supervisor then exits 0
      exactly when that message was `ProcessReady` and the supervision ended well. */
  lemma HandoffDelivers(steps: seq<Step>)
    requires Possible(Initial(), steps) && forall s | s in steps :: !IsDeath(s)
    requires forall s :: Enabled(After(Initial(), steps), s) ==> IsDeath(s)
    ensures var w := After(Initial(), steps);
            && w.launcher.Finished? && w.supervisor.Exited?
            && (w.connected ==> w.wire == Report(HeardReady(w)) && w.read == |w.wire|)
            && w.supervisor.zero == (HeardReady(w) && w.supervision == Ended(true))
            && w.launcher.result == if !w.connected then TimedOut else if HeardReady(w) then Success else LaunchFailed
  {
    hide Report, Apply;
    assert WholeInv(Initial()) by { assert Inv(Initial()); }
    RunKeepsWholeInv(Initial(), steps);
    var w := After(Initial(), steps);
    if !(LauncherGone(w) && w.supervisor.Exited?) {
      var s := NobodyIsStuck(w);
      assert false;
    }
  }

  // And both reports do arrive.

  lemma {:induction false} OneMore(w: World, steps: seq<Step>, s: Step)
    requires Possible(w, steps) && Enabled(After(w, steps), s)
    ensures Possible(w, steps + [s]) && After(w, steps + [s]) == Apply(After(w, steps), s)
    decreases |steps|
  {
    hide Enabled, Apply;
    if steps == [] {
      assert steps + [s] == [s] && [s][1..] == [];
      assert Possible(Apply(w, s), []) && After(Apply(w, s), []) == Apply(w, s);
    } else {
      assert (steps + [s])[0] == steps[0] && (steps + [s])[1..] == steps[1..] + [s];
      OneMore(Apply(w, steps[0]), steps[1..], s);
    }
  }

  ghost predicate Reached(to: World) {
    exists steps :: Possible(Initial(), steps) && After(Initial(), steps) == to && forall s | s in steps :: !IsDeath(s)
  }

  lemma ReachedOn(w: World, s: Step)
    requires Reached(w) && Enabled(w, s) && !IsDeath(s)
    ensures Reached(Apply(w, s))
  {
    hide Enabled, Apply;
    var steps :| Possible(Initial(), steps) && After(Initial(), steps) == w && forall s | s in steps :: !IsDeath(s);
    OneMore(Initial(), steps, s);
  }

  lemma ConnectedIsReached() returns (w: World)
    ensures Reached(w) && w.launcher == Reading("") && w.supervisor == Waiting && w.supervision == Running
    ensures w.connected && !w.closed && w.wire == "" && w.read == 0 && w.buffer == None && w.sender && w.first == None
  {
    hide Reached, Report;
    w := Initial();
    InitialIsReached();
    ReachedOn(w, Connect);
    w := Apply(w, Connect);
    ReachedOn(w, Accept);
    w := Apply(w, Accept);
    ReachedOn(w, Spawn);
    w := Apply(w, Spawn);
  }

  lemma InitialIsReached()
    ensures Reached(Initial())
  {
    assert Possible(Initial(), []) && After(Initial(), []) == Initial();
  }

  lemma ReportIsReached(message: Status) returns (w: World)
    ensures Reached(w) && w.launcher == Reading("") && w.supervisor == Joining(message == ProcessReady)
    ensures w.connected && w.closed && w.wire == Report(message == ProcessReady) && w.read == 0 && w.wire != ""
    ensures w.supervision == Running && w.first == Some(message)
  {
    hide Reached, Report;
    w := ConnectedIsReached();
    ReachedOn(w, Send(message));
    w := Apply(w, Send(message));
    ReachedOn(w, Receive);
    w := Apply(w, Receive);
    var report := Report(message == ProcessReady);
    ReportIsText(message == ProcessReady);
    ReachedOn(w, Write(|report|));
    w := Apply(w, Write(|report|));
    assert report[0..|report|] == report;
    ReachedOn(w, HalfClose);
    w := Apply(w, HalfClose);
  }

  lemma ReportIsText(heard: bool)
    ensures Report(heard) != ""
  {
    var open := OneClosingBrace(if heard then ProcessReady else Failed);
    hide Encode;
  }

  /** Either message can come first, and however the supervision ends there is a run without a death in which
      the launcher connects, reads its report, and both sides end as it says. */
  lemma EitherReportArrives(message: Status, ok: bool)
    ensures exists w :: Reached(w) && w.connected && w.first == Some(message)
              && w.launcher == Finished(if message == ProcessReady then Success else LaunchFailed)
              && w.supervisor == Exited(message == ProcessReady && ok)
  {
    hide Reached, Report, ResultOf;
    var w := ReportIsReached(message);
    ReachedOn(w, Read(|w.wire|));
    var whole := w.wire;
    w := Apply(w, Read(|w.wire|));
    assert "" + whole[0..|whole|] == whole;
    ReachedOn(w, EndOfFile);
    ResultOfPrefix(whole, message == ProcessReady);
    w := Apply(w, EndOfFile);
    ReachedOn(w, End(ok));
    w := Apply(w, End(ok));
    ReachedOn(w, Join);
    w := Apply(w, Join);
  }
}
