/** Any number of `viv` processes over one target: the startup lock, the judgment of what is there, and
    the destructive steps that follow from it, beside a supervisor, a kernel that reuses pids and a
    service manager that may not answer. */
module Target {
  import opened Wrappers
  import opened Presence
  import opened RuntimeDirectory

  datatype Vm = Off | Booting | Up

  /** How far a process is in one invocation. `Asked` has the kernel's answer about the recorded pid and
      `Looked` whether there were records; `removing` tells `destroy` from the verbs that boot. */
  datatype Work =
    | Out
    | Opened
    | Holding
    | Looked(hasRecords: bool)
    | Laddered
    | Asked(pid: Option<bool>, removing: bool)
    | MayRepair
    | MayBoot
    | Launched
    | MayRemove
    | Removed

  datatype Process = Process(work: Work, lockFile: nat)

  /** A process is a number while it is at work; one that is `Out` may be another process next time.
      `entries` is the runtime directory, `locks` the holder of each locked inode. `alive` says whether
      there is a process of the recorded number: a record can outlive its process, and the number can be
      taken by another. */
  datatype World = World(entries: map<Name, nat>, next: nat, locks: map<nat, nat>, processes: map<nat, Process>,
                         vm: Vm, alive: bool, unit: string)

  datatype Step =
    // Of process p.
    | Open(p: nat)
    | TryLock(p: nat)
    | Leave(p: nat)
    | AskKernel(p: nat, pid: Option<bool>)
    | AskManager(p: nat, owns: Option<bool>, socket: bool, boot: BootRead, soon: bool, late: bool)
    | Repair(p: nat, whole: bool)
    | Launch(p: nat)
    | LookForRecords(p: nat)
    | LookAtUnit(p: nat, built: bool, seen: bool, shown: Option<string>)
    | RemoveState(p: nat)
    | ClearDirectory(p: nat, left: map<Name, nat>)
    // Of everything else.
    | SupervisorPublishes
    | VmExits(left: map<Name, nat>)
    | PidReused(now: bool)
    | UnitMoves(to: string)

  /** The inode the lock's pathname leads to. */
  function PathOf(w: World): Option<nat> {
    if Lock in w.entries then Some(w.entries[Lock]) else None
  }

  /** Whether the process the pid record names exists; no record, no answer. */
  function PidRecord(w: World): Option<bool> {
    if VmPid in w.entries then Some(w.alive) else None
  }

  function BootRecord(w: World): bool {
    BootJson in w.entries
  }

  function WorkOf(w: World, p: nat): Work {
    if p in w.processes then w.processes[p].work else Out
  }

  function LockFileOf(w: World, p: nat): nat {
    if p in w.processes then w.processes[p].lockFile else 0
  }

  function Now(w: World, p: nat, work: Work): World {
    w.(processes := w.processes[p := Process(work, LockFileOf(w, p))])
  }

  /** Closing the lock file, by return or by death, releases what it locked. */
  function Left(w: World, p: nat): World {
    Now(w, p, Out).(locks := map i | i in w.locks && w.locks[i] != p :: w.locks[i])
  }

  predicate MaySay(answer: Option<bool>, truth: Option<bool>) {
    answer.None? || answer == truth
  }

  /** `recorded_pid_liveness` is such an answer, whatever of it fails. */
  lemma TheKernelMaySay(pid: nat, probe: nat -> Probe, alive: bool, raw: Option<string>)
    requires raw.None? || PidOf(raw.value) in {None, Some(pid)}
    requires probe(pid) in {ProbeFailed, if alive then Exists else NoSuchProcess}
    ensures MaySay(RecordedPidLiveness(raw, probe), Some(alive))
  {
    OnlyAGoneProcessIsDead(raw, probe);
  }

  /** A launch is refused while the unit is loaded, since it submits one of the same name; a process that is
      refused leaves, as does one whose forced stop in front of a repair fails. */
  ghost predicate Enabled(w: World, s: Step) {
    match s
    case Open(p) => WorkOf(w, p) == Out
    case TryLock(p) => WorkOf(w, p) == Opened
    case Leave(p) => WorkOf(w, p) != Out
    case AskKernel(p, pid) => WorkOf(w, p) in {Holding, Laddered} && MaySay(pid, PidRecord(w))
    case AskManager(p, owns, _, _, _, _) => WorkOf(w, p).Asked? && MaySay(owns, OwnershipOf(w.unit))
    case Repair(p, _) => WorkOf(w, p) == MayRepair
    case Launch(p) => WorkOf(w, p) == MayBoot && OwnershipOf(w.unit) != Some(true)
    case LookForRecords(p) => WorkOf(w, p) == Holding
    case LookAtUnit(p, _, _, shown) => WorkOf(w, p).Looked? && (shown.None? || shown == Some(w.unit))
    case RemoveState(p) => WorkOf(w, p) == MayRemove
    case ClearDirectory(p, left) => WorkOf(w, p) == Removed && SweptTo(w.entries, left)
    case SupervisorPublishes => w.vm == Vm.Booting
    case VmExits(left) => w.vm != Off && SweptTo(w.entries, left)
    case PidReused(_) => w.vm != Up && PidRecord(w).Some?
    case UnitMoves(to) => w.vm != Off ==> OwnershipOf(to) == Some(true)
  }

  function Judged(w: World, p: nat, s: Step): Work
    requires s.AskManager? && WorkOf(w, p).Asked?
  {
    var work := WorkOf(w, p);
    var presence := PresenceOf(work.pid, s.owns);
    if work.removing then (if presence == Dead then MayRemove else Holding)
    else
      match Reusable(s.socket, s.boot, s.soon, s.late, presence)
      case ColdStart => MayBoot
      case RepairThenColdStart => MayRepair
      case _ => Holding
  }

  /** What the step makes of the world. A repair removes the boot record and then the pid record, and may
      fail between the two; a VM that its forced stop ends exits by `VmExits`. Both sweeps may stop anywhere. */
  ghost function Apply(w: World, s: Step): World
    requires Enabled(w, s)
  {
    match s
    case Open(p) =>
      var bound := if Lock in w.entries then w else w.(entries := w.entries[Lock := w.next], next := w.next + 1);
      bound.(processes := w.processes[p := Process(Opened, bound.entries[Lock])])
    case TryLock(p) =>
      var i := LockFileOf(w, p);
      if i in w.locks then Left(w, p) else Now(w, p, Holding).(locks := w.locks[i := p])
    case Leave(p) => Left(w, p)
    case AskKernel(p, pid) => Now(w, p, Asked(pid, WorkOf(w, p) == Laddered))
    case AskManager(p, _, _, _, _, _) => Now(w, p, Judged(w, p, s))
    case Repair(p, whole) =>
      if whole then Now(w, p, MayBoot).(entries := w.entries - {BootJson, VmPid})
      else Left(w, p).(entries := w.entries - {BootJson})
    case Launch(p) => Now(w, p, Launched).(vm := Vm.Booting, unit := "activating")
    case LookForRecords(p) => Now(w, p, Looked(PidRecord(w).Some? || BootRecord(w)))
    case LookAtUnit(p, built, seen, shown) =>
      Now(w, p, if Classify(WorkOf(w, p).hasRecords, built, seen, shown) in {Absent, Built}
                then MayRemove else Laddered)
    case RemoveState(p) => Now(w, p, Removed)
    case ClearDirectory(p, left) => Left(w, p).(entries := left)
    case SupervisorPublishes =>
      w.(vm := Up, entries := w.entries[VmPid := w.next][BootJson := w.next + 1], next := w.next + 2, alive := true)
    case VmExits(left) => w.(vm := Off, entries := left, alive := w.alive && w.vm != Up)
    case PidReused(now) => w.(alive := now)
    case UnitMoves(to) => w.(unit := to)
  }

  ghost predicate Possible(w: World, steps: seq<Step>)
    decreases |steps|
  {
    steps == [] || (Enabled(w, steps[0]) && Possible(Apply(w, steps[0]), steps[1..]))
  }

  ghost function After(w: World, steps: seq<Step>): World
    requires Possible(w, steps)
    decreases |steps|
  {
    if steps == [] then w else After(Apply(w, steps[0]), steps[1..])
  }

  // The lock.

  /** Past `TryLock`. */
  predicate Inside(w: World, p: nat) {
    WorkOf(w, p) !in {Out, Opened}
  }

  ghost predicate LockInv(w: World) {
    && (forall p: nat | WorkOf(w, p) != Out :: PathOf(w) == Some(LockFileOf(w, p)))
    && (forall p: nat | Inside(w, p) :: LockFileOf(w, p) in w.locks && w.locks[LockFileOf(w, p)] == p)
    && (PathOf(w).Some? ==> PathOf(w).value < w.next)
    && (forall i | i in w.locks :: PathOf(w) == Some(i) && Inside(w, w.locks[i]))
  }

  predicate ByProcess(s: Step) {
    !(s.SupervisorPublishes? || s.VmExits? || s.PidReused? || s.UnitMoves?)
  }

  lemma OthersStay(w: World, s: Step, q: nat)
    requires Enabled(w, s) && (ByProcess(s) ==> s.p != q)
    ensures WorkOf(Apply(w, s), q) == WorkOf(w, q) && LockFileOf(Apply(w, s), q) == LockFileOf(w, q)
    ensures forall i | i in w.locks && w.locks[i] == q :: i in Apply(w, s).locks && Apply(w, s).locks[i] == q
    ensures forall i | i in Apply(w, s).locks && Apply(w, s).locks[i] == q :: i in w.locks && w.locks[i] == q
  {
    hide SweptTo, Classify, Judged, OwnershipOf;
  }

  /** The lock's name is never rebound: opening binds it only when it is not there, and no sweep, repair
      or record takes it away. Names come only from opening it and from a supervisor's records. */
  lemma ThePathnameStays(w: World, s: Step)
    requires Enabled(w, s)
    ensures PathOf(w).Some? ==> PathOf(Apply(w, s)) == PathOf(w)
    ensures !s.Open? && PathOf(w).None? ==> PathOf(Apply(w, s)).None?
    ensures PathOf(Apply(w, s)).Some? && PathOf(w).None? ==> PathOf(Apply(w, s)).value < Apply(w, s).next
    ensures w.next <= Apply(w, s).next
    ensures !s.Open? && !s.SupervisorPublishes? ==> Apply(w, s).entries.Keys <= w.entries.Keys
  {
  }

  lemma StepKeepsLockInv(w: World, s: Step)
    requires LockInv(w) && Enabled(w, s)
    ensures LockInv(Apply(w, s))
  {
    ThePathnameStays(w, s);
    var after := Apply(w, s);
    forall q: nat | WorkOf(after, q) != Out
      ensures PathOf(after) == Some(LockFileOf(after, q))
      ensures Inside(after, q) ==> LockFileOf(after, q) in after.locks && after.locks[LockFileOf(after, q)] == q
    {
      if ByProcess(s) && s.p == q {
        assert !s.Open? ==> WorkOf(w, q) != Out;
      } else {
        OthersStay(w, s, q);
        assert WorkOf(w, q) != Out;
      }
    }
    forall i | i in after.locks ensures PathOf(after) == Some(i) && Inside(after, after.locks[i]) {
      var q := after.locks[i];
      if ByProcess(s) && s.p == q {
      } else {
        OthersStay(w, s, q);
      }
    }
  }

  /** No step of any process rebinds the pathname once it exists, and no two processes are ever past the
      lock together: over every run, both sweeps of the directory under a held lock included. */
  lemma {:induction false} MutualExclusion(w: World, steps: seq<Step>, p: nat, q: nat)
    requires LockInv(w) && Possible(w, steps)
    ensures LockInv(After(w, steps))
    ensures PathOf(w).Some? ==> PathOf(After(w, steps)) == PathOf(w)
    ensures Inside(After(w, steps), p) && Inside(After(w, steps), q) ==> p == q
    decreases |steps|
  {
    if steps != [] {
      ThePathnameStays(w, steps[0]);
      StepKeepsLockInv(w, steps[0]);
      MutualExclusion(Apply(w, steps[0]), steps[1..], p, q);
    }
  }

  // The destructive steps.

  /** The steps a live VM must not meet: a repair, with its forced stop, and `destroy`'s two removals. */
  predicate Removes(s: Step) { s.RemoveState? || s.ClearDirectory? }

  /** The unit is there as long as the VM is. */
  predicate UnitHoldsTheVm(w: World) {
    w.vm != Off ==> OwnershipOf(w.unit) == Some(true)
  }

  /** Over every run, clean or not, no second VM is booted: the unit's name refuses it. */
  lemma {:induction false} ALaunchNeverMeetsALiveVm(w: World, steps: seq<Step>, s: Step)
    requires UnitHoldsTheVm(w) && Possible(w, steps) && Enabled(After(w, steps), s) && s.Launch?
    ensures After(w, steps).vm == Off
    decreases |steps|
  {
    if steps != [] {
      StepKeepsTheUnit(w, steps[0]);
      hide Enabled, Apply, UnitHoldsTheVm;
      ALaunchNeverMeetsALiveVm(Apply(w, steps[0]), steps[1..], s);
    }
  }

  lemma StepKeepsTheUnit(w: World, s: Step)
    requires UnitHoldsTheVm(w) && Enabled(w, s)
    ensures UnitHoldsTheVm(Apply(w, s))
  {
    hide SweptTo, Classify, Judged;
  }

  /** A launcher that stops waiting while its boot is still on the way. Its supervisor goes on alone. */
  predicate AbandonsBoot(w: World, s: Step) {
    s.Leave? && WorkOf(w, s.p) == Launched && w.vm == Vm.Booting
  }

  /** What a run may not do: abandon a boot beside a pid record of an earlier one and, where `destroy` is
      looked at as well (`strict`), abandon one beside no boot record either. */
  predicate Clean(w: World, s: Step, strict: bool) {
    AbandonsBoot(w, s) ==> PidRecord(w).None? && (strict ==> BootRecord(w))
  }

  ghost predicate CleanRun(w: World, steps: seq<Step>, strict: bool)
    requires Possible(w, steps)
    decreases |steps|
  {
    steps == [] || (Clean(w, steps[0], strict) && CleanRun(Apply(w, steps[0]), steps[1..], strict))
  }

  /** Work that only makes sense while the VM is dead. */
  predicate CountsOnDeath(work: Work, strict: bool) {
    || work in {MayRepair, MayBoot}
    || (work.Asked? && work.pid == Some(false))
    || (strict && work in {MayRemove, Removed, Looked(false)})
  }

  ghost predicate SomeoneLaunched(w: World) {
    exists p: nat :: WorkOf(w, p) == Launched
  }

  ghost predicate VmInv(w: World, strict: bool) {
    && UnitHoldsTheVm(w)
    && (w.vm == Up ==> PidRecord(w) == Some(true) || (!strict && PidRecord(w).None?))
    && (w.vm == Vm.Booting ==> SomeoneLaunched(w) || (PidRecord(w).None? && (strict ==> BootRecord(w))))
    && (forall p: nat | CountsOnDeath(WorkOf(w, p), strict) :: w.vm == Off)
  }

  /** Whoever is past the lock is the only one, so nobody else has launched anything. */
  lemma AloneInside(w: World, p: nat)
    requires LockInv(w) && Inside(w, p) && WorkOf(w, p) != Launched
    ensures !SomeoneLaunched(w)
  {
    if q: nat :| WorkOf(w, q) == Launched {
      assert Inside(w, q);
    }
  }

  /** The two questions behind a judgment. */
  predicate Asks(s: Step) { s.AskKernel? || s.AskManager? }

  /** The one process that moves counts on a death only with a reason. */
  lemma MoverCountsOnDeath(w: World, s: Step, strict: bool)
    requires LockInv(w) && VmInv(w, strict) && Enabled(w, s) && ByProcess(s)
    ensures CountsOnDeath(WorkOf(Apply(w, s), s.p), strict) ==> Apply(w, s).vm == Off
  {
    assert CountsOnDeath(WorkOf(w, s.p), strict) ==> w.vm == Off;
    if Inside(w, s.p) && WorkOf(w, s.p) != Launched { AloneInside(w, s.p); }
    hide LockInv, VmInv, SweptTo;
    if Asks(s) {
      AskerCountsOnDeath(w, s, strict);
    } else {
      ActorCountsOnDeath(w, s, strict);
    }
  }

  lemma AskerCountsOnDeath(w: World, s: Step, strict: bool)
    requires VmInv(w, strict) && Enabled(w, s) && Asks(s) && !SomeoneLaunched(w)
    requires CountsOnDeath(WorkOf(w, s.p), strict) ==> w.vm == Off
    ensures CountsOnDeath(WorkOf(Apply(w, s), s.p), strict) ==> Apply(w, s).vm == Off
  {
    hide SweptTo, Classify;
  }

  lemma ActorCountsOnDeath(w: World, s: Step, strict: bool)
    requires VmInv(w, strict) && Enabled(w, s) && ByProcess(s) && !Asks(s)
    requires Inside(w, s.p) && WorkOf(w, s.p) != Launched ==> !SomeoneLaunched(w)
    requires CountsOnDeath(WorkOf(w, s.p), strict) ==> w.vm == Off
    ensures CountsOnDeath(WorkOf(Apply(w, s), s.p), strict) ==> Apply(w, s).vm == Off
  {
    hide SweptTo, Judged, OwnershipOf;
  }

  lemma DeathStaysCountedOn(w: World, s: Step, strict: bool)
    requires LockInv(w) && VmInv(w, strict) && Enabled(w, s) && ByProcess(s)
    ensures forall q: nat | CountsOnDeath(WorkOf(Apply(w, s), q), strict) :: Apply(w, s).vm == Off
  {
    hide SweptTo, Classify, Judged;
    MoverCountsOnDeath(w, s, strict);
    forall q: nat | q != s.p && CountsOnDeath(WorkOf(Apply(w, s), q), strict) ensures Apply(w, s).vm == Off {
      OthersStay(w, s, q);
      assert CountsOnDeath(WorkOf(w, q), strict) && Inside(w, q);
    }
  }

  lemma BootKeepsItsLauncher(w: World, s: Step, strict: bool)
    requires LockInv(w) && VmInv(w, strict) && Enabled(w, s) && Clean(w, s, strict) && ByProcess(s)
    ensures var after := Apply(w, s);
            after.vm == Vm.Booting ==>
              SomeoneLaunched(after) || (PidRecord(after).None? && (strict ==> BootRecord(after)))
  {
    var after := Apply(w, s);
    if after.vm == Vm.Booting {
      if s.Launch? {
        assert WorkOf(after, s.p) == Launched;
      } else if q: nat :| WorkOf(w, q) == Launched {
        if q != s.p {
          OthersStay(w, s, q);
          assert WorkOf(after, q) == Launched;
        }
      } else {
        assert CountsOnDeath(WorkOf(w, s.p), strict) ==> w.vm == Off;
      }
    }
  }

  lemma ProcessKeepsVmInv(w: World, s: Step, strict: bool)
    requires LockInv(w) && VmInv(w, strict) && Enabled(w, s) && Clean(w, s, strict) && ByProcess(s)
    ensures VmInv(Apply(w, s), strict)
  {
    DeathStaysCountedOn(w, s, strict);
    BootKeepsItsLauncher(w, s, strict);
    assert CountsOnDeath(WorkOf(w, s.p), strict) ==> w.vm == Off;
  }

  lemma OutsideKeepsVmInv(w: World, s: Step, strict: bool)
    requires VmInv(w, strict) && Enabled(w, s) && !ByProcess(s)
    ensures VmInv(Apply(w, s), strict)
  {
    var after := Apply(w, s);
    assert forall q: nat :: WorkOf(after, q) == WorkOf(w, q);
  }

  lemma {:induction false} RunsKeepInv(w: World, steps: seq<Step>, strict: bool)
    requires LockInv(w) && VmInv(w, strict) && Possible(w, steps) && CleanRun(w, steps, strict)
    ensures LockInv(After(w, steps)) && VmInv(After(w, steps), strict)
    decreases |steps|
  {
    if steps != [] {
      hide LockInv, VmInv, Apply, Clean, Enabled;
      StepKeepsLockInv(w, steps[0]);
      if ByProcess(steps[0]) {
        ProcessKeepsVmInv(w, steps[0], strict);
      } else {
        OutsideKeepsVmInv(w, steps[0], strict);
      }
      RunsKeepInv(Apply(w, steps[0]), steps[1..], strict);
    }
  }

  /** Nobody at work and no VM: where runs start. Old records may lie about. */
  ghost predicate Initial(w: World) {
    && (forall p: nat :: WorkOf(w, p) == Out)
    && w.vm == Off && w.locks == map[] && (PathOf(w).Some? ==> PathOf(w).value < w.next)
  }

  /** Over every run in which no launcher abandons a boot beside an older pid record, each repair meets a
      dead VM and whoever is about to boot is right to; and when none abandons one beside no boot record
      either, each of `destroy`'s removals meets a dead VM. Missing records, unreadable ones and an
      unaskable manager are all allowed. */
  lemma NoDestructiveStepOnALiveVm(w: World, steps: seq<Step>, s: Step, strict: bool)
    requires Initial(w) && Possible(w, steps) && CleanRun(w, steps, strict) && Enabled(After(w, steps), s)
    ensures s.Repair? || (strict && Removes(s)) ==> After(w, steps).vm == Off
    ensures forall q: nat | WorkOf(After(w, steps), q) == MayBoot :: After(w, steps).vm == Off
  {
    RunsKeepInv(w, steps, strict);
    forall q: nat | WorkOf(After(w, steps), q) == MayBoot ensures After(w, steps).vm == Off {
      assert CountsOnDeath(WorkOf(After(w, steps), q), strict);
    }
    if s.Repair? || (strict && Removes(s)) {
      assert CountsOnDeath(WorkOf(After(w, steps), s.p), strict);
    }
  }

  // And the other way: the conditions are exact.

  ghost predicate Leads(w: World, steps: seq<Step>, to: World, strict: bool) {
    Possible(w, steps) && After(w, steps) == to && CleanRun(w, steps, strict)
  }

  /** Some clean run leads from here to a process that is about to do one kind of `work` while the VM is
      live: to repair it, which stops it by force, or to boot a second one, which its unit refuses. */
  ghost predicate CanBeTakenForDead(w: World, work: Work) {
    exists steps, to, q: nat :: Leads(w, steps, to, false) && WorkOf(to, q) == work && to.vm != Off
  }

  /** Some clean run leads from here to a removal that meets a live VM. */
  ghost predicate CanRemoveUnderAVm(w: World) {
    exists steps, to, s :: Leads(w, steps, to, true) && Enabled(to, s) && Removes(s) && to.vm != Off
  }

  lemma LeadsNowhere(w: World, strict: bool)
    ensures Leads(w, [], w, strict)
  {
  }

  lemma {:induction false} LeadsOn(w: World, steps: seq<Step>, x: World, s: Step, strict: bool)
    requires Leads(w, steps, x, strict) && Enabled(x, s) && Clean(x, s, strict)
    ensures Leads(w, steps + [s], Apply(x, s), strict)
    decreases |steps|
  {
    hide Enabled, Apply, Clean;
    if steps == [] {
      assert steps + [s] == [s] && [s][1..] == [];
      assert x == w;
      LeadsNowhere(Apply(w, s), strict);
    } else {
      assert (steps + [s])[0] == steps[0] && (steps + [s])[1..] == steps[1..] + [s];
      LeadsOn(Apply(w, steps[0]), steps[1..], x, s, strict);
    }
  }

  /** Some clean run leads from `w` to `to`. */
  ghost predicate Reaches(w: World, to: World, strict: bool) {
    exists steps :: Leads(w, steps, to, strict)
  }

  lemma ReachesItself(w: World, strict: bool)
    ensures Reaches(w, w, strict)
  {
    LeadsNowhere(w, strict);
  }

  lemma ReachesOn(w: World, x: World, s: Step, strict: bool)
    requires Reaches(w, x, strict) && Enabled(x, s) && Clean(x, s, strict)
    ensures Reaches(w, Apply(x, s), strict)
  {
    var steps :| Leads(w, steps, x, strict);
    LeadsOn(w, steps, x, s, strict);
  }

  /** A process comes in: nobody holds the lock. */
  lemma ComesIn(w: World, x: World, p: nat, strict: bool) returns (to: World)
    requires Reaches(w, x, strict) && LockInv(x) && WorkOf(x, p) == Out && x.locks == map[]
    ensures Reaches(w, to, strict) && LockInv(to) && WorkOf(to, p) == Holding
    ensures PidRecord(to) == PidRecord(x) && BootRecord(to) == BootRecord(x)
    ensures to.vm == x.vm && to.unit == x.unit && forall q: nat | q != p :: WorkOf(to, q) == WorkOf(x, q)
  {
    hide Reaches, LockInv;
    var entered := Apply(x, Open(p));
    StepKeepsLockInv(x, Open(p));
    ReachesOn(w, x, Open(p), strict);
    to := Apply(entered, TryLock(p));
    StepKeepsLockInv(entered, TryLock(p));
    ReachesOn(w, entered, TryLock(p), strict);
  }

  /** Whoever gives up a boot in flight leaves the lock free. */
  lemma LaunchersLeaveTheLock(w: World, p: nat)
    requires LockInv(w) && Inside(w, p)
    ensures var left := Apply(w, Leave(p));
            && LockInv(left) && left.locks == map[] && WorkOf(left, p) == Out
            && left.entries == w.entries && left.vm == w.vm && left.unit == w.unit && left.alive == w.alive
  {
    StepKeepsLockInv(w, Leave(p));
    assert forall i | i in w.locks :: w.locks[i] == p;
  }

  // `destroy` and the booting verbs meet an abandoned boot.

  /** The launcher is gone, something happens outside, and the next process is past the lock. */
  lemma Reenter(w: World, p: nat, between: Step, strict: bool) returns (holding: World)
    requires LockInv(w) && WorkOf(w, p) == Launched && w.vm == Vm.Booting
    requires between == PidReused(false) || between == UnitMoves("active")
    requires between.PidReused? ==> PidRecord(w).Some?
    ensures Reaches(Apply(w, Leave(p)), holding, strict) && WorkOf(holding, p) == Holding && holding.vm == Vm.Booting
    ensures PidRecord(holding) == if between.PidReused? then Some(false) else PidRecord(w)
    ensures BootRecord(holding) == BootRecord(w)
    ensures between.UnitMoves? ==> holding.unit == "active"
  {
    var left := Apply(w, Leave(p));
    LaunchersLeaveTheLock(w, p);
    ReachesItself(left, strict);
    hide LockInv, Reaches;
    ReachesOn(left, left, between, strict);
    StepKeepsLockInv(left, between);
    holding := ComesIn(left, Apply(left, between), p, strict);
  }

  /** A booting verb beside a pid record: its process can be gone. Whether the control socket is there
      decides between the repair and the cold start. */
  lemma ABootIsTakenForDead(w: World, p: nat, socket: bool)
    requires LockInv(w) && WorkOf(w, p) == Launched && w.vm == Vm.Booting && PidRecord(w).Some?
    ensures CanBeTakenForDead(Apply(w, Leave(p)), if socket then MayRepair else MayBoot)
  {
    hide LockInv, Reaches;
    var left := Apply(w, Leave(p));
    var holding := Reenter(w, p, PidReused(false), false);
    var ask, judge := AskKernel(p, Some(false)), AskManager(p, None, socket, NoBoot, false, false);
    var asked := Apply(holding, ask);
    ReachesOn(left, holding, ask, false);
    var judged := Apply(asked, judge);
    ReachesOn(left, asked, judge, false);
    TakenFrom(left, judged, p);
  }

  lemma TakenFrom(w: World, to: World, p: nat)
    requires Reaches(w, to, false) && to.vm != Off
    ensures CanBeTakenForDead(w, WorkOf(to, p))
  {
    var steps :| Leads(w, steps, to, false);
  }

  lemma RemovedFrom(w: World, to: World, s: Step)
    requires Reaches(w, to, true) && Enabled(to, s) && Removes(s) && to.vm != Off
    ensures CanRemoveUnderAVm(w)
  {
    var steps :| Leads(w, steps, to, true);
  }

  /** `destroy` beside a pid record: the ladder cannot tell, and the record's process can be gone. */
  lemma AStaleRecordLetsDestroyThrough(w: World, p: nat)
    requires LockInv(w) && WorkOf(w, p) == Launched && w.vm == Vm.Booting && PidRecord(w).Some?
    ensures CanRemoveUnderAVm(Apply(w, Leave(p)))
  {
    hide LockInv, Reaches, Classify;
    var left := Apply(w, Leave(p));
    var holding := Reenter(w, p, PidReused(false), true);
    var look, unit := LookForRecords(p), LookAtUnit(p, true, false, None);
    var looked := Apply(holding, look);
    ReachesOn(left, holding, look, true);
    StatesByTheirFacts(true, true, None, None);
    var laddered := Apply(looked, unit);
    ReachesOn(left, looked, unit, true);
    LadderThenRemove(left, laddered, p);
  }

  lemma LadderThenRemove(w: World, x: World, p: nat)
    requires Reaches(w, x, true) && WorkOf(x, p) == Laddered && PidRecord(x) == Some(false) && x.vm != Off
    ensures CanRemoveUnderAVm(w)
  {
    hide Reaches;
    var ask, judge := AskKernel(p, Some(false)), AskManager(p, None, false, NoBoot, false, false);
    var asked := Apply(x, ask);
    ReachesOn(w, x, ask, true);
    var judged := Apply(asked, judge);
    ReachesOn(w, asked, judge, true);
    RemovedFrom(w, judged, RemoveState(p));
  }

  /** `destroy` beside no record at all: a unit that has moved on to plainly active hides the boot. */
  lemma ARecordlessBootLetsDestroyThrough(w: World, p: nat)
    requires LockInv(w) && WorkOf(w, p) == Launched && w.vm == Vm.Booting
    requires PidRecord(w).None? && !BootRecord(w)
    ensures CanRemoveUnderAVm(Apply(w, Leave(p)))
  {
    hide LockInv, Reaches, Classify;
    var left := Apply(w, Leave(p));
    var holding := Reenter(w, p, UnitMoves("active"), true);
    var look, unit := LookForRecords(p), LookAtUnit(p, true, false, Some("active"));
    var looked := Apply(holding, look);
    ReachesOn(left, holding, look, true);
    StatesByTheirFacts(false, true, None, Some("active"));
    var may := Apply(looked, unit);
    ReachesOn(left, looked, unit, true);
    RemovedFrom(left, may, RemoveState(p));
  }

  lemma InitialHolds(w: World, strict: bool)
    requires Initial(w)
    ensures LockInv(w) && VmInv(w, strict)
  {
  }

  lemma CleanAbandonmentIsSafe(w: World, p: nat, steps: seq<Step>, to: World, q: nat, strict: bool)
    requires LockInv(w) && VmInv(w, strict) && AbandonsBoot(w, Leave(p)) && Clean(w, Leave(p), strict)
    requires Leads(Apply(w, Leave(p)), steps, to, strict)
    ensures CountsOnDeath(WorkOf(to, q), strict) ==> to.vm == Off
  {
    var left := Apply(w, Leave(p));
    StepKeepsLockInv(w, Leave(p));
    ProcessKeepsVmInv(w, Leave(p), strict);
    RunsKeepInv(left, steps, strict);
  }

  /** A boot that is abandoned in an otherwise clean run can be followed by a repair of the live VM, forced
      stop and all, or by a second cold start beside it, exactly when it is abandoned beside a pid record. */
  lemma AnAbandonedBootIsTakenForDeadExactlyBesideAPidRecord(w: World, steps: seq<Step>, p: nat, work: Work)
    requires Initial(w) && Possible(w, steps) && CleanRun(w, steps, false) && AbandonsBoot(After(w, steps), Leave(p))
    requires work in {MayRepair, MayBoot}
    ensures CanBeTakenForDead(Apply(After(w, steps), Leave(p)), work) <==> PidRecord(After(w, steps)).Some?
  {
    InitialHolds(w, false);
    RunsKeepInv(w, steps, false);
    var x := After(w, steps);
    if PidRecord(x).Some? {
      ABootIsTakenForDead(x, p, work == MayRepair);
    } else {
      forall rest, to, q: nat | Leads(Apply(x, Leave(p)), rest, to, false) && WorkOf(to, q) == work
        ensures to.vm == Off
      {
        CleanAbandonmentIsSafe(x, p, rest, to, q, false);
      }
    }
  }

  /** It can be followed by a removal under the live VM exactly when it is abandoned beside a pid record or
      without a boot record. */
  lemma AnAbandonedBootIsRemovedUnderExactly(w: World, steps: seq<Step>, p: nat)
    requires Initial(w) && Possible(w, steps) && CleanRun(w, steps, true) && AbandonsBoot(After(w, steps), Leave(p))
    ensures CanRemoveUnderAVm(Apply(After(w, steps), Leave(p))) <==>
              PidRecord(After(w, steps)).Some? || !BootRecord(After(w, steps))
  {
    InitialHolds(w, true);
    RunsKeepInv(w, steps, true);
    var x := After(w, steps);
    if PidRecord(x).Some? {
      AStaleRecordLetsDestroyThrough(x, p);
    } else if !BootRecord(x) {
      ARecordlessBootLetsDestroyThrough(x, p);
    } else {
      forall rest, to, s | Leads(Apply(x, Leave(p)), rest, to, true) && Enabled(to, s) && Removes(s)
        ensures to.vm == Off
      {
        CleanAbandonmentIsSafe(x, p, rest, to, s.p, true);
      }
    }
  }

  // Both happen: the boots in question can be come to from any start.

  /** A repair and a boot, from any start: the boot is in flight with no record of it yet. */
  lemma ARecordlessBootIsReached(w: World, p: nat, strict: bool) returns (to: World)
    requires Initial(w)
    ensures Reaches(w, to, strict) && LockInv(to) && WorkOf(to, p) == Launched && to.vm == Vm.Booting
    ensures PidRecord(to).None? && !BootRecord(to)
  {
    InitialHolds(w, strict);
    ReachesItself(w, strict);
    assert WorkOf(w, p) == Out;
    var idle := Apply(w, UnitMoves("inactive"));
    StepKeepsLockInv(w, UnitMoves("inactive"));
    ReachesOn(w, w, UnitMoves("inactive"), strict);
    var holding := ComesIn(w, idle, p, strict);
    to := RepairAndLaunch(w, holding, p, strict);
  }

  lemma RepairAndLaunch(w: World, holding: World, p: nat, strict: bool) returns (to: World)
    requires Reaches(w, holding, strict) && LockInv(holding) && WorkOf(holding, p) == Holding
    requires holding.vm == Off && holding.unit == "inactive"
    ensures Reaches(w, to, strict) && LockInv(to) && WorkOf(to, p) == Launched && to.vm == Vm.Booting
    ensures PidRecord(to).None? && !BootRecord(to)
  {
    hide LockInv, Reaches;
    var ask, judge := AskKernel(p, None), AskManager(p, Some(false), true, NoBoot, false, false);
    StepKeepsLockInv(holding, ask);
    ReachesOn(w, holding, ask, strict);
    var asked := Apply(holding, ask);
    StepKeepsLockInv(asked, judge);
    ReachesOn(w, asked, judge, strict);
    var judged := Apply(asked, judge);
    StepKeepsLockInv(judged, Repair(p, true));
    ReachesOn(w, judged, Repair(p, true), strict);
    var repaired := Apply(judged, Repair(p, true));
    StepKeepsLockInv(repaired, Launch(p));
    ReachesOn(w, repaired, Launch(p), strict);
    to := Apply(repaired, Launch(p));
  }

  /** A VM that exited without a sweep leaves its pid record, and a cold start that finds no control socket
      leaves it where it is. */
  lemma AStaleRecordIsReached(w: World, p: nat, strict: bool) returns (to: World)
    requires Initial(w)
    ensures Reaches(w, to, strict) && LockInv(to) && WorkOf(to, p) == Launched && to.vm == Vm.Booting
    ensures PidRecord(to) == Some(false)
  {
    var first := ARecordlessBootIsReached(w, p, strict);
    var exited := PublishAndExit(w, first, p, strict);
    var left := Apply(exited, Leave(p));
    LaunchersLeaveTheLock(exited, p);
    ReachesOn(w, exited, Leave(p), strict);
    var holding := ComesIn(w, left, p, strict);
    to := ColdStartAndLaunch(w, holding, p, strict);
  }

  lemma PublishAndExit(w: World, first: World, p: nat, strict: bool) returns (exited: World)
    requires Reaches(w, first, strict) && LockInv(first) && WorkOf(first, p) == Launched && first.vm == Vm.Booting
    ensures Reaches(w, exited, strict) && LockInv(exited) && WorkOf(exited, p) == Launched
    ensures exited.vm == Off && PidRecord(exited) == Some(false)
  {
    hide LockInv, Reaches;
    StepKeepsLockInv(first, SupervisorPublishes);
    ReachesOn(w, first, SupervisorPublishes, strict);
    var up := Apply(first, SupervisorPublishes);
    StepKeepsLockInv(up, VmExits(up.entries));
    ReachesOn(w, up, VmExits(up.entries), strict);
    exited := Apply(up, VmExits(up.entries));
  }

  lemma ColdStartAndLaunch(w: World, holding: World, p: nat, strict: bool) returns (to: World)
    requires Reaches(w, holding, strict) && LockInv(holding) && WorkOf(holding, p) == Holding
    requires holding.vm == Off && PidRecord(holding) == Some(false)
    ensures Reaches(w, to, strict) && LockInv(to) && WorkOf(to, p) == Launched && to.vm == Vm.Booting
    ensures PidRecord(to) == Some(false)
  {
    hide LockInv, Reaches;
    var ask, judge := AskKernel(p, Some(false)), AskManager(p, None, false, NoBoot, false, false);
    StepKeepsLockInv(holding, ask);
    ReachesOn(w, holding, ask, strict);
    var asked := Apply(holding, ask);
    StepKeepsLockInv(asked, judge);
    ReachesOn(w, asked, judge, strict);
    var judged := Apply(asked, judge);
    StepKeepsLockInv(judged, UnitMoves("failed"));
    ReachesOn(w, judged, UnitMoves("failed"), strict);
    var free := Apply(judged, UnitMoves("failed"));
    StepKeepsLockInv(free, Launch(p));
    ReachesOn(w, free, Launch(p), strict);
    to := Apply(free, Launch(p));
  }

  /** From every start, a clean run comes to a boot whose abandonment can cost the live VM: beside a stale
      record to a repair, beside no record to `destroy`. */
  lemma UncleanAbandonmentsAreReached(w: World, p: nat)
    requires Initial(w)
    ensures exists x :: Reaches(w, x, false) && AbandonsBoot(x, Leave(p))
                        && CanBeTakenForDead(Apply(x, Leave(p)), MayRepair)
    ensures exists x :: Reaches(w, x, true) && AbandonsBoot(x, Leave(p)) && !BootRecord(x) && PidRecord(x).None?
                        && CanRemoveUnderAVm(Apply(x, Leave(p)))
  {
    var stale := AStaleRecordIsReached(w, p, false);
    ABootIsTakenForDead(stale, p, true);
    var recordless := ARecordlessBootIsReached(w, p, true);
    ARecordlessBootLetsDestroyThrough(recordless, p);
    hide Reaches, LockInv, CanBeTakenForDead, CanRemoveUnderAVm;
  }

  // What a judgment says of a live VM.

  /** What asking the kernel and then the manager can come to. */
  ghost predicate CanBeJudgedDead(w: World, p: nat) {
    exists pid, owns, socket, boot, soon, late ::
      var ask, judge := AskKernel(p, pid), AskManager(p, owns, socket, boot, soon, late);
      Possible(w, [ask, judge]) && WorkOf(After(w, [ask, judge]), p) in {MayRepair, MayBoot}
  }

  lemma OneStep(w: World, a: Step)
    ensures Possible(w, [a]) <==> Enabled(w, a)
    ensures Possible(w, [a]) ==> After(w, [a]) == Apply(w, a)
  {
    hide Enabled, Apply;
    assert [a][1..] == [];
  }

  lemma TwoSteps(w: World, a: Step, b: Step)
    ensures Possible(w, [a, b]) <==> Enabled(w, a) && Enabled(Apply(w, a), b)
    ensures Possible(w, [a, b]) ==> After(w, [a, b]) == Apply(Apply(w, a), b)
  {
    hide Enabled, Apply;
    assert [a, b][1..] == [b];
    if Enabled(w, a) { OneStep(Apply(w, a), b); }
  }

  /** In every state of every clean run, a live VM can be judged dead by a booting verb exactly beside a
      pid record whose process is gone, however little is answered; and in such a run that never is. */
  lemma ALiveVmIsJudgedDeadExactlyBesideAGonePid(w: World, p: nat)
    requires w.vm != Off && OwnershipOf(w.unit) == Some(true) && WorkOf(w, p) == Holding
    ensures CanBeJudgedDead(w, p) <==> PidRecord(w) == Some(false)
    ensures LockInv(w) && VmInv(w, false) ==> !CanBeJudgedDead(w, p)
  {
    if PidRecord(w) == Some(false) {
      var ask, judge := AskKernel(p, Some(false)), AskManager(p, None, false, NoBoot, false, false);
      TwoSteps(w, ask, judge);
      assert Possible(w, [ask, judge]) && WorkOf(After(w, [ask, judge]), p) in {MayRepair, MayBoot};
    }
    forall pid, owns, socket, boot, soon, late
      | var ask, judge := AskKernel(p, pid), AskManager(p, owns, socket, boot, soon, late);
        Possible(w, [ask, judge]) && WorkOf(After(w, [ask, judge]), p) in {MayRepair, MayBoot}
      ensures PidRecord(w) == Some(false)
    {
      TwoSteps(w, AskKernel(p, pid), AskManager(p, owns, socket, boot, soon, late));
      DecisionsExactly(socket, boot, soon, late, PresenceOf(pid, owns));
      ALiveVmReadsDeadExactlyWhenAFactLies(pid, owns);
    }
    if LockInv(w) && VmInv(w, false) { AloneInside(w, p); }
  }

  /** Were the lock's name swept away while it is held, the next process would get past it at once. */
  lemma UnlinkingTheLockEndsTheExclusion(w: World, p: nat, q: nat)
    requires LockInv(w) && Inside(w, p) && WorkOf(w, q) == Out
    ensures var unlinked := w.(entries := w.entries - {Lock});
            && Possible(unlinked, [Open(q), TryLock(q)])
            && Inside(After(unlinked, [Open(q), TryLock(q)]), p)
            && Inside(After(unlinked, [Open(q), TryLock(q)]), q)
            && p != q
  {
    var unlinked := w.(entries := w.entries - {Lock});
    assert forall i | i in w.locks :: i < w.next;
    TwoSteps(unlinked, Open(q), TryLock(q));
  }
}
