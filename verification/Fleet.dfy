/** Measuring the running fleet and the admission decision that reads the measurement: a figure that
    may be partial, in 64-bit arithmetic that saturates. */
module Fleet {
  import opened Wrappers
  import opened Presence

  const U64_MAX: nat := 0xffff_ffff_ffff_ffff
  const MEMORY_RESERVE_BYTES: nat := 1024 * 1024 * 1024

  function Capped(n: nat): nat { if n < U64_MAX then n else U64_MAX }

  /** One sandbox target: its state, what it truly uses, and what its unit reports, if it reports. */
  datatype Member = Member(state: State, use: nat, reported: Option<nat>)

  predicate Runs(m: Member) { m.state == Running || m.state == Stopping }

  /** What a unit reports is what its members use, and fits 64 bits. */
  predicate Truthful(m: Member) {
    m.reported.Some? ==> m.reported.value == m.use <= U64_MAX
  }

  /** The use of the whole running fleet, as an unbounded integer. */
  function TrueTotal(members: seq<Member>): nat {
    if members == [] then 0
    else TrueTotal(members[..|members| - 1])
         + if Runs(members[|members| - 1]) then members[|members| - 1].use else 0
  }

  function Count(members: seq<Member>, measured: bool): nat {
    if members == [] then 0
    else Count(members[..|members| - 1], measured)
         + if Runs(members[|members| - 1]) && (measured ==> members[|members| - 1].reported.Some?) then 1 else 0
  }

  function MeasuredTotal(members: seq<Member>): nat {
    if members == [] then 0
    else MeasuredTotal(members[..|members| - 1])
         + if Runs(members[|members| - 1]) && members[|members| - 1].reported.Some?
           then members[|members| - 1].reported.value else 0
  }

  datatype FleetUse = FleetUse(running: nat, measured: nat, complete: bool, bytes: Option<nat>)

  /** `fleet_sum`. */
  function FleetSum(running: nat, measured: nat, sum: nat, complete: bool): Option<nat> {
    if running == 0 then (if complete then Some(0) else None)
    else if measured > 0 then Some(sum)
    else None
  }

  /** `measured_use` over the members a scan found. */
  method MeasuredUse(members: seq<Member>, complete: bool) returns (fleet: FleetUse)
    ensures fleet.running == Count(members, false) && fleet.measured == Count(members, true)
    ensures fleet.complete == complete
    ensures fleet.bytes
            == FleetSum(Count(members, false), Count(members, true), Capped(MeasuredTotal(members)), complete)
  {
    var running: nat, measured: nat, sum: nat := 0, 0, 0;
    for k := 0 to |members|
      invariant running == Count(members[..k], false) && measured == Count(members[..k], true)
      invariant sum == Capped(MeasuredTotal(members[..k]))
    {
      var m := members[k];
      assert members[..k + 1][..k] == members[..k];
      if m.state != Running && m.state != Stopping { continue; }
      running := running + 1;
      if m.reported.Some? {
        measured := measured + 1;
        sum := Capped(sum + m.reported.value);
      }
    }
    assert members[..|members|] == members;
    fleet := FleetUse(running, measured, complete, FleetSum(running, measured, sum, complete));
  }

  lemma {:induction false} MeasuredIsPart(members: seq<Member>)
    requires forall m | m in members :: Truthful(m)
    ensures MeasuredTotal(members) <= TrueTotal(members)
    ensures Count(members, true) <= Count(members, false)
    ensures Count(members, true) == Count(members, false) ==> MeasuredTotal(members) == TrueTotal(members)
    ensures Count(members, false) == 0 ==> TrueTotal(members) == 0
  {
    if members != [] {
      assert members == members[..|members| - 1] + [members[|members| - 1]];
      assert Truthful(members[|members| - 1]);
      MeasuredIsPart(members[..|members| - 1]);
    }
  }

  lemma {:induction false} TotalOfBoth(a: seq<Member>, b: seq<Member>)
    ensures TrueTotal(a + b) == TrueTotal(a) + TrueTotal(b)
  {
    if b == [] {
      assert a + b == a;
    } else {
      var n := |b| - 1;
      TotalOfBoth(a, b[..n]);
      assert (a + b)[..|a| + n] == a + b[..n];
    }
  }

  /** The figure for the members that were `seen`. */
  function Figure(seen: seq<Member>, complete: bool): Option<nat> {
    FleetSum(Count(seen, false), Count(seen, true), Capped(MeasuredTotal(seen)), complete)
  }

  /** A figure never exceeds the true total of the whole fleet, the `hidden` members of an incomplete
      scan included; and it is that total when the scan was complete, every running member reported and
      64 bits hold it. */
  lemma AFigureIsALowerBound(seen: seq<Member>, hidden: seq<Member>, complete: bool)
    requires forall m | m in seen :: Truthful(m)
    requires complete ==> hidden == []
    ensures var figure := Figure(seen, complete);
            && (figure.Some? ==> figure.value <= TrueTotal(seen + hidden))
            && (figure.Some? && figure.value < U64_MAX ==>
                  (figure.value == TrueTotal(seen + hidden) <==> MeasuredTotal(seen) == TrueTotal(seen + hidden)))
            && (complete && Count(seen, true) == Count(seen, false) && TrueTotal(seen) <= U64_MAX ==>
                  figure == Some(TrueTotal(seen + hidden)))
  {
    MeasuredIsPart(seen);
    TotalOfBoth(seen, hidden);
    if complete { assert seen + hidden == seen; }
    if Count(seen, false) == 0 { NoneRunning(seen); }
  }

  lemma {:induction false} NoneRunning(members: seq<Member>)
    requires Count(members, false) == 0
    ensures TrueTotal(members) == 0 && MeasuredTotal(members) == 0 && Count(members, true) == 0
  {
    if members != [] { NoneRunning(members[..|members| - 1]); }
  }

  /** There is a figure exactly when some running member reports, or nobody runs and the scan saw all. Then it
      is what the reporting members use, as far as 64 bits go. */
  lemma AFigureExistsExactly(seen: seq<Member>, complete: bool)
    ensures Figure(seen, complete).Some? <==>
              || (exists m :: m in seen && m.state in {Running, Stopping} && m.reported.Some?)
              || (complete && forall m | m in seen :: m.state !in {Running, Stopping})
    ensures Figure(seen, complete).Some? ==>
              Figure(seen, complete).value == if MeasuredTotal(seen) < 0xffff_ffff_ffff_ffff then MeasuredTotal(seen)
                                              else 0xffff_ffff_ffff_ffff
  {
    CountsAreOfMembers(seen, false);
    CountsAreOfMembers(seen, true);
    if Count(seen, false) == 0 { NoneRunning(seen); }
  }

  lemma {:induction false} CountsAreOfMembers(members: seq<Member>, measured: bool)
    ensures Count(members, measured) > 0 <==>
              exists m :: m in members && m.state in {Running, Stopping} && (measured ==> m.reported.Some?)
    ensures Count(members, measured) <= |members|
    ensures Count(members, measured) == |members| <==>
              forall m | m in members :: m.state in {Running, Stopping} && (measured ==> m.reported.Some?)
  {
    if members != [] {
      var n := |members| - 1;
      CountsAreOfMembers(members[..n], measured);
      assert members == members[..n] + [members[n]];
      assert forall m :: m in members <==> m in members[..n] || m == members[n];
    }
  }

  datatype Admission = Refuse | Warn | Proceed

  /** `admit`. */
  function Admit(available: Option<nat>, used: Option<nat>): Admission {
    match available
    case None => Proceed
    case Some(a) =>
      if a < MEMORY_RESERVE_BYTES then Admission.Refuse
      else if used.Some? && used.value > a - MEMORY_RESERVE_BYTES then Warn
      else Proceed
  }

  /** The subtraction says exactly what the unbounded sum would. A missing reading decides nothing: without
      the host's everything proceeds, and without the fleet's only the reserve of one GiB is held up. */
  lemma AdmitExactly(available: nat, used: nat)
    ensures Admit(Some(available), Some(used)) == Warn <==>
            available >= 1_073_741_824 && used + 1_073_741_824 > available
    ensures Admit(Some(available), Some(used)) == Admission.Refuse <==> available < 1_073_741_824
    ensures Admit(None, Some(used)) == Proceed && Admit(None, None) == Proceed
    ensures Admit(Some(available), None) == if available < 1_073_741_824 then Admission.Refuse else Proceed
  {
  }

  lemma AWarningIsTrue(seen: seq<Member>, hidden: seq<Member>, complete: bool, available: Option<nat>)
    requires forall m | m in seen :: Truthful(m)
    requires complete ==> hidden == []
    ensures Admit(available, Figure(seen, complete)) == Warn ==>
              Admit(available, Some(TrueTotal(seen + hidden))) == Warn
    ensures complete && Count(seen, true) == Count(seen, false) && TrueTotal(seen) <= U64_MAX ==>
              Admit(available, Figure(seen, complete)) == Admit(available, Some(TrueTotal(seen + hidden)))
  {
    AFigureIsALowerBound(seen, hidden, complete);
  }

  // The walk of the runtime root.

  /** A sandbox id and a target. */
  type Key = (string, string)

  /** What is really there, and which looks at it succeed: the listing of the entry and its file type. A
      name that is not UTF-8 is no name. */
  datatype TargetEntry = TargetEntry(listed: bool, typed: bool, directory: bool, name: Option<string>)

  /** The same one level up, with whether the directory itself can be read. */
  datatype SandboxEntry = SandboxEntry(listed: bool, typed: bool, directory: bool, name: Option<string>,
                                       readable: bool, targets: seq<TargetEntry>)

  datatype Root = Absent | Unreadable(there: seq<SandboxEntry>) | Readable(entries: seq<SandboxEntry>)

  predicate IsTarget(t: TargetEntry) { t.directory && t.name.Some? }

  predicate IsSandbox(s: SandboxEntry) { s.directory && s.name.Some? }

  /** The target directories that are there. */
  function There(entries: seq<SandboxEntry>): set<Key> {
    set s, t | s in entries && IsSandbox(s) && t in s.targets && IsTarget(t) :: (s.name.value, t.name.value)
  }

  function TrueMembers(root: Root): set<Key> {
    match root
    case Absent => {}
    case Unreadable(there) => There(there)
    case Readable(entries) => There(entries)
  }

  /** No look that could have found a target failed. */
  predicate SawAll(entries: seq<SandboxEntry>) {
    forall s | s in entries ::
      s.listed && s.typed && (IsSandbox(s) ==> s.readable && forall t | t in s.targets :: t.listed && t.typed)
  }

  /** The inner loop: one sandbox's targets. */
  method TargetMembers(sandbox: string, targets: seq<TargetEntry>) returns (members: set<Key>, complete: bool)
    ensures complete <==> forall t | t in targets :: t.listed && t.typed
    ensures members <= set t | t in targets && IsTarget(t) :: (sandbox, t.name.value)
    ensures complete ==> members == set t | t in targets && IsTarget(t) :: (sandbox, t.name.value)
  {
    members, complete := {}, true;
    for i := 0 to |targets|
      invariant complete <==> forall t | t in targets[..i] :: t.listed && t.typed
      invariant members <= set t | t in targets[..i] && IsTarget(t) :: (sandbox, t.name.value)
      invariant complete ==> members == set t | t in targets[..i] && IsTarget(t) :: (sandbox, t.name.value)
    {
      var target := targets[i];
      assert targets[..i + 1] == targets[..i] + [target];
      if !target.listed || !target.typed {
        complete := false;
        continue;
      }
      if target.directory && target.name.Some? {
        members := members + {(sandbox, target.name.value)};
      }
    }
    assert targets[..|targets|] == targets;
  }

  /** `runtime_members`. A walk that calls itself complete found every target directory that is there. */
  method RuntimeMembers(root: Root) returns (members: set<Key>, complete: bool)
    ensures members <= TrueMembers(root)
    ensures complete ==> members == TrueMembers(root)
    ensures complete <==> root.Absent? || (root.Readable? && SawAll(root.entries))
  {
    members, complete := {}, true;
    match root
    case Absent =>
    case Unreadable(_) => complete := false;
    case Readable(entries) =>
      for i := 0 to |entries|
        invariant members <= There(entries[..i])
        invariant complete ==> members == There(entries[..i])
        invariant complete <==> SawAll(entries[..i])
      {
        var sandbox := entries[i];
        ThereOfPush(entries[..i], sandbox);
        assert entries[..i + 1] == entries[..i] + [sandbox];
        if !sandbox.listed || !sandbox.typed {
          complete := false;
          continue;
        }
        if !sandbox.directory || sandbox.name.None? { continue; }
        if !sandbox.readable {
          complete := false;
          continue;
        }
        var found, whole := TargetMembers(sandbox.name.value, sandbox.targets);
        members := members + found;
        complete := complete && whole;
      }
      assert entries[..|entries|] == entries;
  }

  lemma ThereOfPush(entries: seq<SandboxEntry>, s: SandboxEntry)
    ensures There(entries + [s]) == There(entries)
              + if IsSandbox(s) then set t | t in s.targets && IsTarget(t) :: (s.name.value, t.name.value) else {}
    ensures SawAll(entries + [s]) <==>
              SawAll(entries) && s.listed && s.typed
              && (IsSandbox(s) ==> s.readable && forall t | t in s.targets :: t.listed && t.typed)
  {
    assert forall x :: x in entries + [s] <==> x in entries || x == s;
  }

  function At(keys: seq<Key>, member: Key -> Member): seq<Member> {
    seq(|keys|, i requires 0 <= i < |keys| => member(keys[i]))
  }

  ghost predicate Enumerates(keys: seq<Key>, s: set<Key>) {
    && (forall i, j | 0 <= i < j < |keys| :: keys[i] != keys[j])
    && (forall k :: k in keys <==> k in s)
  }

  lemma NoKeys(keys: seq<Key>)
    requires Enumerates(keys, {})
    ensures keys == []
  {
    if keys != [] {
      FirstIsIn(keys);
      assert false;
    }
  }

  lemma FirstIsIn(keys: seq<Key>)
    requires keys != []
    ensures keys[0] in keys
  {
  }

  /** The figure and the decision, from the walk on. `seen` are the indexed targets and those the walk
      found, `hidden` the targets that are there besides: whatever the walk missed or the units withheld,
      the figure never exceeds the true total and a warning is never a false alarm; and when the walk was
      complete, every running member reported and 64 bits hold the sum, both are exact. */
  lemma NoFalseAlarm(root: Root, indexed: set<Key>, members: set<Key>, complete: bool,
                     seen: seq<Key>, hidden: seq<Key>, member: Key -> Member, available: Option<nat>)
    // What `RuntimeMembers` ensures.
    requires members <= TrueMembers(root) && (complete ==> members == TrueMembers(root))
    requires Enumerates(seen, indexed + members) && Enumerates(hidden, TrueMembers(root) - indexed - members)
    requires forall k | k in seen :: Truthful(member(k))
    ensures var figure := Figure(At(seen, member), complete);
            var total := TrueTotal(At(seen, member) + At(hidden, member));
            && (figure.Some? ==> figure.value <= total)
            && (Admit(available, figure) == Warn ==> Admit(available, Some(total)) == Warn)
            && (complete && Count(At(seen, member), true) == Count(At(seen, member), false) && total <= U64_MAX ==>
                  figure == Some(total) && Admit(available, figure) == Admit(available, Some(total)))
  {
    var here, elsewhere := At(seen, member), At(hidden, member);
    forall m | m in here ensures Truthful(m) {
      var i :| 0 <= i < |here| && here[i] == m;
      assert seen[i] in seen;
    }
    if complete {
      assert TrueMembers(root) - indexed - members == {};
      NoKeys(hidden);
      assert here + elsewhere == here;
    }
    AFigureIsALowerBound(here, elsewhere, complete);
    AWarningIsTrue(here, elsewhere, complete, available);
  }

  /** `near_ceiling`, in saturating arithmetic. */
  function NearCeiling(used: Option<nat>, ceilingMib: Option<nat>): bool {
    match (used, ceilingMib)
    case (Some(u), Some(mib)) =>
      var ceiling := Capped(mib * (1024 * 1024));
      ceiling > 0 && Capped(u * 10) >= Capped(ceiling * 9)
    case _ => false
  }

  /** While ten times the use fits 64 bits the answer is exact: use at or past nine tenths of the
      ceiling. Beyond that the two sides can saturate together, and the answer is yes. Without either
      reading it is no. */
  lemma NearCeilingExactly(used: nat, mib: nat)
    ensures used * 10 < 0xffff_ffff_ffff_ffff ==>
              (NearCeiling(Some(used), Some(mib)) <==> mib > 0 && used * 10 >= mib * 1_048_576 * 9)
    ensures used * 10 >= 0xffff_ffff_ffff_ffff ==> (NearCeiling(Some(used), Some(mib)) <==> mib > 0)
    ensures !NearCeiling(None, Some(mib)) && !NearCeiling(Some(used), None) && !NearCeiling(None, None)
  {
  }
}
