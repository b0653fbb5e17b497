/** One project's generation profile: numbered roots, records, lock snapshots and the `current`
    pointer, changed under the target lock by processes that can die between any two file
    operations and whose every file operation can fail. */
module Profile {
  import opened Wrappers
  import opened Retention
  import Rfc3339

  /** The files of one profile. Staged siblings are left out: they carry dot names that no scan reads. */
  datatype Files = Files(links: map<nat, string>, records: map<nat, Record>, locks: map<nat, string>,
                         current: Option<nat>)

  function Numbers(f: Files): set<nat> { f.links.Keys + f.records.Keys }

  /** Which of the two directories a scan could read. An unreadable one counts as empty. */
  datatype Scan = Scan(links: bool, records: bool)

  function Seen(f: Files, scan: Scan): set<nat> {
    (if scan.links then f.links.Keys else {}) + (if scan.records then f.records.Keys else {})
  }

  lemma {:induction false} HasHighest(s: set<nat>)
    requires s != {}
    ensures exists m :: m in s && forall k | k in s :: k <= m
  {
    var x :| x in s;
    if s == {x} {
    } else {
      HasHighest(s - {x});
      var m :| m in s - {x} && forall k | k in s - {x} :: k <= m;
      var top := if x > m then x else m;
      forall k | k in s ensures k <= top {
        if k != x { assert k in s - {x}; }
      }
    }
  }

  ghost function Highest(s: set<nat>): (m: nat)
    requires s != {}
    ensures m in s && forall k | k in s :: k <= m
  {
    HasHighest(s);
    var m :| m in s && forall k | k in s :: k <= m;
    m
  }

  /** One past the highest number seen, 1 when none is. */
  ghost function NextNumber(seen: set<nat>): (n: nat) {
    if seen == {} then 1 else Highest(seen) + 1
  }

  /** The next number is above everything present exactly when the highest number present is in a
      directory the scan could read. */
  lemma NextIsAboveAll(f: Files, scan: Scan)
    ensures (forall k | k in Numbers(f) :: k < NextNumber(Seen(f, scan)))
            <==> (Numbers(f) - {0} != {} ==> Highest(Numbers(f)) in Seen(f, scan))
  {
    assert Seen(f, scan) <= Numbers(f);
    if forall k | k in Numbers(f) :: k == 0 {
      assert Numbers(f) - {0} == {};
      assert NextNumber(Seen(f, scan)) >= 1;
    } else {
      var top := Highest(Numbers(f));
      assert top in Numbers(f) - {0};
      if top in Seen(f, scan) {
        assert Highest(Seen(f, scan)) == top;
      } else if Seen(f, scan) != {} {
        assert Highest(Seen(f, scan)) < top;
      } else {
        assert top >= 1;
      }
    }
  }

  // What every exit, planned or not, leaves behind.

  /** A root link has its record, and the record tells the truth about the link and the snapshot. */
  ghost predicate Labelled(f: Files, digest: string -> string, n: nat) {
    && n in f.links && n in f.records && n in f.locks
    && f.records[n].storePath == f.links[n]
    && f.records[n].lockDigest == digest(f.locks[n])
  }

  ghost predicate Consistent(f: Files, digest: string -> string) {
    && (f.current.Some? ==> f.current.value in f.links)
    && (forall n | n in f.links :: Labelled(f, digest, n))
  }

  /** The three files of one number. */
  datatype Slot = Slot(link: Option<string>, record: Option<Record>, snapshot: Option<string>)

  function SlotOf(f: Files, n: nat): Slot {
    Slot(if n in f.links then Some(f.links[n]) else None,
         if n in f.records then Some(f.records[n]) else None,
         if n in f.locks then Some(f.locks[n]) else None)
  }

  /** The two hold the same files for every number outside `changed`. */
  ghost predicate AgreeOutside(a: Files, b: Files, changed: set<nat>) {
    forall n: nat | n !in changed :: SlotOf(a, n) == SlotOf(b, n)
  }

  lemma WithoutOneMore(f: Files, gone: set<nat>, n: nat)
    ensures WithoutNumbers(WithoutNumbers(f, gone), {n}) == WithoutNumbers(f, gone + {n})
  {
    assert f.links - gone - {n} == f.links - (gone + {n});
    assert f.records - gone - {n} == f.records - (gone + {n});
    assert f.locks - gone - {n} == f.locks - (gone + {n});
  }

  lemma WithoutAgreesOnce(f: Files, gone: set<nat>)
    ensures AgreeOutside(f, WithoutNumbers(f, gone), gone)
    ensures Numbers(WithoutNumbers(f, gone)) <= Numbers(f)
  {
  }

  lemma WithoutAgrees(was: Files, before: Files, after: Files, gone: set<nat>, n: nat, all: set<nat>)
    requires before == WithoutNumbers(was, gone) && gone + {n} <= all
    requires AgreeOutside(before, after, {n})
    requires after.links.Keys <= before.links.Keys && after.records.Keys <= before.records.Keys
    ensures AgreeOutside(was, after, all) && Numbers(after) <= Numbers(was)
  {
    WithoutAgreesOnce(was, gone);
    forall k: nat | k !in all ensures SlotOf(was, k) == SlotOf(after, k) {
      assert SlotOf(was, k) == SlotOf(before, k) == SlotOf(after, k);
    }
  }

  /** While a fresh number has no root link, whatever else it has cannot hurt. */
  lemma UnlinkedIsConsistent(was: Files, f: Files, n: nat, digest: string -> string)
    requires Consistent(was, digest) && n !in was.links
    requires AgreeOutside(was, f, {n}) && f.links == was.links && f.current == was.current
    ensures Consistent(f, digest)
  {
    forall k | k in f.links ensures Labelled(f, digest, k) {
      assert SlotOf(was, k) == SlotOf(f, k);
    }
  }

  /** A number written whole can take or leave the pointer. */
  lemma WholeIsConsistent(was: Files, f: Files, n: nat, record: Record, lock: string, digest: string -> string)
    requires Consistent(was, digest) && record.lockDigest == digest(lock)
    requires f.(current := was.current) == WithNumber(was, n, record, lock)
    requires f.current in {was.current, Some(n)}
    ensures Consistent(f, digest)
  {
    assert f.links == was.links[n := record.storePath];
    assert f.records == was.records[n := record];
    assert f.locks == was.locks[n := lock];
    forall k | k in f.links ensures Labelled(f, digest, k) {
      assert k != n ==> Labelled(was, digest, k);
    }
  }

  function WithNumber(f: Files, n: nat, record: Record, lock: string): Files {
    f.(links := f.links[n := record.storePath], records := f.records[n := record], locks := f.locks[n := lock])
  }

  function WithoutNumbers(f: Files, gone: set<nat>): Files {
    f.(links := f.links - gone, records := f.records - gone, locks := f.locks - gone)
  }

  function RowOf(f: Files, n: nat): Row {
    Row(n,
        if n in f.links then Some(f.links[n]) else None,
        if n in f.records then Some(f.records[n]) else None,
        f.current == Some(n))
  }

  /** The rows for a set of numbers, oldest first. */
  ghost function RowsOf(f: Files, numbers: set<nat>): seq<Row>
    decreases |numbers|
  {
    if numbers == {} then []
    else RowsOf(f, numbers - {Highest(numbers)}) + [RowOf(f, Highest(numbers))]
  }

  lemma {:induction false} RowsOfListsEach(f: Files, numbers: set<nat>)
    ensures Ascending(RowsOf(f, numbers))
    ensures forall r :: r in RowsOf(f, numbers) <==> r.number in numbers && r == RowOf(f, r.number)
    decreases |numbers|
  {
    if numbers != {} {
      var top := Highest(numbers);
      RowsOfListsEach(f, numbers - {top});
      var older := RowsOf(f, numbers - {top});
      assert forall i | 0 <= i < |older| :: older[i] in older;
      forall r ensures r in RowsOf(f, numbers) <==> r.number in numbers && r == RowOf(f, r.number) {
        if r.number == top {
          assert r in older ==> r.number in numbers - {top};
        }
      }
    }
  }

  /** The row of the highest number comes last. */
  lemma RowsOfSplit(f: Files, numbers: set<nat>, later: seq<Row>)
    requires numbers != {}
    ensures var top := Highest(numbers);
            RowsOf(f, numbers) + later == RowsOf(f, numbers - {top}) + ([RowOf(f, top)] + later)
  {
  }

  ghost function Selected(f: Files, scan: Scan, keep: Option<nat>, age: Option<nat>, now: nat): seq<Row> {
    Select(RowsOf(f, Seen(f, scan)), keep, age, now)
  }

  /** A row says of its number what the links, the records and `current` say. */
  ghost predicate SaysOf(f: Files, r: Row) {
    && (r.storePath.Some? <==> r.number in f.links) && (r.storePath.Some? ==> r.storePath.value == f.links[r.number])
    && (r.record.Some? <==> r.number in f.records) && (r.record.Some? ==> r.record.value == f.records[r.number])
    && (r.current <==> f.current == Some(r.number))
  }

  lemma RowsSayWhatIsThere(f: Files, scan: Scan)
    ensures var rows := RowsOf(f, Seen(f, scan));
            && Ascending(rows) && NumbersOf(rows) == Seen(f, scan) && forall r | r in rows :: SaysOf(f, r)
  {
    hide Seen;
    var rows := RowsOf(f, Seen(f, scan));
    RowsOfListsEach(f, Seen(f, scan));
    forall n ensures n in NumbersOf(rows) <==> n in Seen(f, scan) {
      if n in Seen(f, scan) { assert RowOf(f, n) in rows; }
    }
  }

  function Above(numbers: set<nat>, n: nat): set<nat> {
    set k | k in numbers && k > n
  }

  lemma {:induction false} NewerRowsAreAbove(f: Files, numbers: set<nat>, n: nat)
    ensures NewerThan(RowsOf(f, numbers), n) == |Above(numbers, n)|
    decreases |numbers|
  {
    if numbers == {} {
      assert Above(numbers, n) == {};
    } else {
      var top := Highest(numbers);
      NewerRowsAreAbove(f, numbers - {top}, n);
      NewerThanOfPush(RowsOf(f, numbers - {top}), RowOf(f, top), n);
      assert Above(numbers, n) == Above(numbers - {top}, n) + if top > n then {top} else {};
    }
  }

  lemma {:induction false} NewerThanOfPush(rows: seq<Row>, row: Row, n: nat)
    ensures NewerThan(rows + [row], n) == NewerThan(rows, n) + if row.number > n then 1 else 0
  {
    if rows == [] {
      assert rows + [row] == [row];
    } else {
      assert (rows + [row])[1..] == rows[1..] + [row];
      NewerThanOfPush(rows[1..], row, n);
    }
  }

  /** The record of a number prints an instant more than `age` before `now`. */
  ghost predicate HasPassed(f: Files, n: nat, age: nat, now: nat) {
    n in f.records && exists built: nat ::
      built < Rfc3339.END_OF_YEAR_9999 && built + age < now && f.records[n].builtAt == Rfc3339.Print(built)
  }

  /** A prune reaches a number: it is seen and not current, and that many newer ones are seen, or the age
      has passed its build. */
  ghost predicate Reached(f: Files, scan: Scan, keep: Option<nat>, age: Option<nat>, now: nat, n: nat) {
    && n in Seen(f, scan) && f.current != Some(n)
    && ((keep.Some? && age.None? && |Above(Seen(f, scan), n)| >= keep.value)
        || (keep.None? && age.Some? && HasPassed(f, n, age.value, now)))
  }

  /** The selected numbers are exactly the reached ones, and their rows say what is there. */
  lemma SelectedAreTheReached(f: Files, scan: Scan, keep: Option<nat>, age: Option<nat>, now: nat)
    ensures forall r | r in Selected(f, scan, keep, age, now) :: SaysOf(f, r)
    ensures forall n: nat :: n in NumbersOf(Selected(f, scan, keep, age, now)) <==> Reached(f, scan, keep, age, now, n)
  {
    hide Seen, RowsOf, Select, Highest;
    var rows := RowsOf(f, Seen(f, scan));
    RowsOfListsEach(f, Seen(f, scan));
    forall r ensures r in Selected(f, scan, keep, age, now) <==>
                     r == RowOf(f, r.number) && Reached(f, scan, keep, age, now, r.number)
    {
      if r in rows { RowIsReached(f, scan, keep, age, now, r); }
      SelectionIsOfRows(rows, keep, age, now, r);
    }
    forall n: nat ensures n in NumbersOf(Selected(f, scan, keep, age, now)) <==> Reached(f, scan, keep, age, now, n) {
      if Reached(f, scan, keep, age, now, n) { assert RowOf(f, n) in Selected(f, scan, keep, age, now); }
    }
  }

  lemma SelectionIsOfRows(rows: seq<Row>, keep: Option<nat>, age: Option<nat>, now: nat, r: Row)
    ensures r in Select(rows, keep, age, now) ==> r in rows
  {
    if keep.Some? && age.None? {
      var newest := NumbersOf(Newest(rows, keep.value));
      FilterIsExact(rows, (x: Row) => !x.current && x.number !in newest);
    } else if keep.None? && age.Some? {
      var threshold := Threshold(now, age.value);
      FilterIsExact(rows, (x: Row) => !x.current && IsOld(x, threshold));
    }
  }

  lemma RowIsReached(f: Files, scan: Scan, keep: Option<nat>, age: Option<nat>, now: nat, r: Row)
    requires r in RowsOf(f, Seen(f, scan))
    ensures r == RowOf(f, r.number)
    ensures r in Selected(f, scan, keep, age, now) <==> Reached(f, scan, keep, age, now, r.number)
  {
    var rows := RowsOf(f, Seen(f, scan));
    RowsOfListsEach(f, Seen(f, scan));
    if keep.Some? && age.None? {
      KeepRetainsTheNewest(rows, keep.value, now, r);
      NewerRowsAreAbove(f, Seen(f, scan), r.number);
    } else if keep.None? && age.Some? {
      OlderThanReadsTheAge(rows, age.value, now, r);
    }
  }

  /** A selection names only listed rows, and never the one `current` points at. */
  lemma SelectionSparesCurrent(f: Files, scan: Scan, keep: Option<nat>, age: Option<nat>, now: nat)
    ensures forall r | r in Selected(f, scan, keep, age, now) ::
              r.number in Seen(f, scan) && r == RowOf(f, r.number) && f.current != Some(r.number)
  {
    var rows := RowsOf(f, Seen(f, scan));
    RowsOfListsEach(f, Seen(f, scan));
    forall r | r in Select(rows, keep, age, now)
      ensures r in rows && !r.current
    {
      if keep.Some? && age.None? {
        var newest := NumbersOf(Newest(rows, keep.value));
        FilterIsExact(rows, (x: Row) => !x.current && x.number !in newest);
      } else {
        var threshold := Threshold(now, age.value);
        FilterIsExact(rows, (x: Row) => !x.current && IsOld(x, threshold));
      }
    }
  }

  /** `--keep n` with n at least 1 leaves the highest number alone, whatever the scan could read. */
  lemma KeepSparesTheHighest(f: Files, scan: Scan, n: nat, now: nat)
    requires n >= 1 && Numbers(f) != {}
    ensures forall r | r in Selected(f, scan, Some(n), None, now) :: r.number < Highest(Numbers(f))
  {
    var rows := RowsOf(f, Seen(f, scan));
    RowsOfListsEach(f, Seen(f, scan));
    SelectionSparesCurrent(f, scan, Some(n), None, now);
    forall r | r in Selected(f, scan, Some(n), None, now)
      ensures r.number < Highest(Numbers(f))
    {
      assert r.number in Numbers(f);
      KeepRetainsTheNewest(rows, n, now, r);
      if r.number == Highest(Numbers(f)) {
        NoneNewer(rows, r.number);
      }
    }
  }

  lemma LastRowIsTheHighest(f: Files, numbers: set<nat>)
    requires numbers != {}
    ensures var rows := RowsOf(f, numbers);
            rows != [] && Ascending(rows) && rows[|rows| - 1] == RowOf(f, Highest(numbers))
  {
    RowsOfListsEach(f, numbers);
  }

  /** After a prune the next build takes a number that was used before exactly when the prune reached the
      highest one: `current` was elsewhere, and the argument was `--keep 0` or an age it had passed. */
  lemma TheNextBuildReusesExactly(f: Files, scan: Scan, keep: Option<nat>, age: Option<nat>, now: nat,
                                  digest: string -> string)
    requires Consistent(f, digest) && scan.records && Numbers(f) != {}
    ensures var top := Highest(Numbers(f));
            var after := WithoutNumbers(f, NumbersOf(Selected(f, scan, keep, age, now)));
            NextNumber(Seen(after, scan)) <= top <==>
              && top >= 1 && f.current != Some(top)
              && ((age.None? && keep == Some(0))
                  || (keep.None? && age.Some? && HasPassed(f, top, age.value, now)))
  {
    var top, selected := Highest(Numbers(f)), Selected(f, scan, keep, age, now);
    var gone := NumbersOf(selected);
    var after := WithoutNumbers(f, gone);
    forall n | n in f.links ensures n in f.records { assert Labelled(f, digest, n); }
    assert Seen(f, scan) == Numbers(f);
    assert Seen(after, scan) == Numbers(f) - gone;
    LastRowIsTheHighest(f, Numbers(f));
    WhenTheLargestGoes(RowsOf(f, Numbers(f)), keep, age, now);
    SelectedAreTheReached(f, scan, keep, age, now);
    assert Above(Numbers(f), top) == {};
    NextWithout(Numbers(f), gone);
  }

  lemma NextWithout(numbers: set<nat>, gone: set<nat>)
    requires numbers != {}
    ensures NextNumber(numbers - gone) <= Highest(numbers) <==> Highest(numbers) >= 1 && Highest(numbers) in gone
  {
    var top, rest := Highest(numbers), numbers - gone;
    if top !in gone {
      assert top in rest;
      assert Highest(rest) == top;
    } else if rest != {} {
      assert Highest(rest) < top;
    }
  }

  lemma {:induction false} NoneNewer(rows: seq<Row>, number: nat)
    requires forall r | r in rows :: r.number <= number
    ensures NewerThan(rows, number) == 0
  {
    if rows != [] {
      assert rows[0] in rows;
      NoneNewer(rows[1..], number);
    }
  }

  // The exits of `append`.

  function Labelling(f: Files, n: nat, record: Record, lock: string): Files {
    f.(records := f.records[n := record], locks := f.locks[n := lock])
  }

  /** Where `append` can stop: before or after each operation that changes a file, and after as much of
      the taking back as worked. */
  ghost predicate AppendExit(was: Files, f: Files, n: nat, record: Record, lock: string) {
    var labelled, rooted := Labelling(was, n, record, lock), WithNumber(was, n, record, lock);
    || f == was
    || f == was.(locks := was.locks[n := lock])
    || f == was.(locks := was.locks - {n})
    || f == labelled
    || f == was.(records := was.records - {n}, locks := was.locks[n := lock])
    || f == was.(records := was.records[n := record], locks := was.locks - {n})
    || f == was.(records := was.records - {n}, locks := was.locks - {n})
    || f == rooted
    || f == rooted.(current := Some(n))
  }

  lemma LabelledExits(was: Files, n: nat, record: Record, lock: string)
    ensures var labelled := Labelling(was, n, record, lock);
            && labelled.(links := labelled.links[n := record.storePath]) == WithNumber(was, n, record, lock)
            && labelled.records - {n} == was.records - {n}
            && labelled.locks - {n} == was.locks - {n}
  {
  }

  lemma ExitsAgree(was: Files, f: Files, n: nat, record: Record, lock: string)
    requires AppendExit(was, f, n, record, lock)
    ensures AgreeOutside(was, f, {n})
  {
  }

  lemma FreshExitIsConsistent(was: Files, f: Files, n: nat, record: Record, lock: string, digest: string -> string)
    requires Consistent(was, digest) && n !in was.links && record.lockDigest == digest(lock)
    requires AppendExit(was, f, n, record, lock)
    ensures Consistent(f, digest)
  {
    ExitsAgree(was, f, n, record, lock);
    if f.links == was.links && f.current == was.current {
      UnlinkedIsConsistent(was, f, n, digest);
    } else {
      WholeIsConsistent(was, f, n, record, lock, digest);
    }
  }

  /** Every exit of `append` is consistent exactly when the number it takes is not a rooted one: on a
      rooted number, the snapshot it takes back after a failed digest is the older root's. */
  lemma ExitsAreConsistentExactlyOffTheRoots(was: Files, n: nat, record: Record, lock: string,
                                             digest: string -> string)
    requires Consistent(was, digest) && record.lockDigest == digest(lock)
    ensures (forall f | AppendExit(was, f, n, record, lock) :: Consistent(f, digest)) <==> n !in was.links
  {
    if n in was.links {
      var taken := was.(locks := was.locks - {n});
      assert AppendExit(was, taken, n, record, lock);
      assert !Labelled(taken, digest, n);
    } else {
      forall f | AppendExit(was, f, n, record, lock) ensures Consistent(f, digest) {
        FreshExitIsConsistent(was, f, n, record, lock, digest);
      }
    }
  }

  /** The number a build takes is a rooted one exactly when it could read neither directory and the
      profile has a root 1. */
  lemma NextIsRootedExactly(f: Files, scan: Scan, digest: string -> string)
    requires Consistent(f, digest)
    ensures NextNumber(Seen(f, scan)) in f.links <==> !scan.links && !scan.records && 1 in f.links
  {
    forall n | n in f.links ensures n in f.records {
      assert Labelled(f, digest, n);
    }
    assert scan.links || scan.records ==> f.links.Keys <= Seen(f, scan);
  }

  // The verbs.

  datatype Command =
    | Append(record: Record, lock: string, scan: Scan)
    | Activate(target: nat, scan: Scan, existing: set<string>)
    | Rollback(scan: Scan, existing: set<string>)
    | Prune(keep: Option<nat>, age: Option<nat>, now: nat, scan: Scan, booted: Option<string>)

  /** How a verb ended. `Died` is process death between two file operations. */
  datatype Outcome = Done(number: nat) | Failed | Refused | Died

  /** How one file step ended. */
  datatype Step = Landed | Fault | Dead

  /** `activate` and `rollback` accept a number whose root's output still exists. */
  ghost predicate Retained(f: Files, scan: Scan, existing: set<string>, n: nat) {
    n in Seen(f, scan) && n in f.links && f.links[n] in existing
  }

  /** What `rollback` moves to: the highest retained number below `current`. */
  ghost predicate IsPrevious(f: Files, scan: Scan, existing: set<string>, n: nat) {
    && f.current.Some? && n < f.current.value && Retained(f, scan, existing, n)
    && forall k: nat | k < f.current.value && Retained(f, scan, existing, k) :: k <= n
  }

  /** What `activate <n>` may move to, or `rollback` when no number is given. */
  ghost predicate Accepts(f: Files, target: Option<nat>, scan: Scan, existing: set<string>, n: nat) {
    match target
    case Some(t) => n == t && Retained(f, scan, existing, n)
    case None => IsPrevious(f, scan, existing, n)
  }

  /** What a verb may do of what it was asked, however far it got: the build it was given, a move to a number
      it accepts, or the numbers its argument reaches; and refusing takes the verb's own reason. */
  ghost predicate Does(was: Files, f: Files, command: Command, out: Outcome, digest: string -> string) {
    match command
    case Append(seed, lock, scan) =>
      var n, record := NextNumber(Seen(was, scan)), seed.(lockDigest := digest(lock));
      && AppendExit(was, f, n, record, lock) && !out.Refused?
      && (out.Done? ==> out.number == n && f == WithNumber(was, n, record, lock).(current := Some(n)))
    case Activate(target, scan, existing) => Moves(was, f, Some(target), scan, existing, out)
    case Rollback(scan, existing) => Moves(was, f, None, scan, existing, out)
    case Prune(keep, age, now, scan, booted) =>
      && f.current == was.current
      && (forall n: nat | !Reached(was, scan, keep, age, now, n) :: SlotOf(f, n) == SlotOf(was, n))
      && (out.Done? ==> forall n: nat | Reached(was, scan, keep, age, now, n) :: SlotOf(f, n) == Slot(None, None, None))
      && (out.Refused? ==> f == was)
      && (out.Refused? <==> booted.Some? && exists n: nat ::
            Reached(was, scan, keep, age, now, n) && n in was.links && was.links[n] == booted.value)
  }

  ghost predicate Moves(was: Files, f: Files, target: Option<nat>, scan: Scan, existing: set<string>, out: Outcome) {
    && f.(current := was.current) == was
    && (f.current != was.current ==> f.current.Some? && Accepts(was, target, scan, existing, f.current.value))
    && (out.Done? ==> f.current == Some(out.number) && Accepts(was, target, scan, existing, out.number))
    && (out.Refused? ==> f == was)
    && (out.Refused? <==> forall n: nat :: !Accepts(was, target, scan, existing, n))
  }

  // Whole histories.

  /** What the files were between the verbs of a history, each verb doing what it was asked. */
  ghost predicate Ran(states: seq<Files>, commands: seq<Command>, outs: seq<Outcome>, digest: string -> string) {
    && |outs| <= |commands| && |states| == |outs| + 1
    && forall i | 0 <= i < |outs| :: Does(states[i], states[i + 1], commands[i], outs[i], digest)
  }

  lemma RanOn(states: seq<Files>, commands: seq<Command>, outs: seq<Outcome>, f: Files, out: Outcome,
              digest: string -> string)
    requires Ran(states, commands, outs, digest) && |outs| < |commands|
    requires Does(states[|outs|], f, commands[|outs|], out, digest)
    ensures Ran(states + [f], commands, outs + [out], digest)
  {
    hide Does;
  }

  lemma NothingRan(f: Files, commands: seq<Command>, digest: string -> string)
    ensures Ran([f], commands, [], digest)
  {
  }

  /** Every prune of the history is `--keep n` with n at least 1. */
  ghost predicate KeepsNewest(commands: seq<Command>) {
    forall c | c in commands && c.Prune? :: c.keep.Some? && c.keep.value >= 1 && c.age.None?
  }

  /** Every build of the history could read one of the two directories it numbers from. */
  ghost predicate ScansEither(commands: seq<Command>) {
    forall c | c in commands && c.Append? :: c.scan.records || c.scan.links
  }

  /** Every build of the history could read the record directory. */
  ghost predicate ScansRecords(commands: seq<Command>) {
    forall c | c in commands && c.Append? :: c.scan.records
  }

  predicate Built(command: Command, out: Outcome) {
    command.Append? && out.Done?
  }

  /** Every build that succeeded has a number above those of all that succeeded before it. */
  ghost predicate Increasing(commands: seq<Command>, outs: seq<Outcome>)
    requires |outs| <= |commands|
  {
    forall i, j | 0 <= i < j < |outs| && Built(commands[i], outs[i]) && Built(commands[j], outs[j]) ::
      outs[i].number < outs[j].number
  }

  /** No later build can take a number up to `n`. */
  ghost predicate Reaches(f: Files, n: nat) {
    exists k :: k in Numbers(f) && n <= k
  }

  /** The successful builds have increasing numbers, and no later build can take one of them. */
  ghost predicate Numbered(f: Files, commands: seq<Command>, outs: seq<Outcome>) {
    && |outs| <= |commands| && Increasing(commands, outs)
    && forall i | 0 <= i < |outs| && Built(commands[i], outs[i]) :: Reaches(f, outs[i].number)
  }

  lemma NumberedOn(was: Files, f: Files, commands: seq<Command>, outs: seq<Outcome>, out: Outcome)
    requires |outs| < |commands| && Numbered(was, commands, outs)
    requires forall k: nat | Reaches(was, k) :: Reaches(f, k)
    requires Built(commands[|outs|], out) ==>
               Reaches(f, out.number) && forall k: nat | Reaches(was, k) :: k < out.number
    ensures Numbered(f, commands, outs + [out])
  {
    hide Reaches;
  }

  lemma OneOfThem(commands: seq<Command>, i: nat)
    requires i < |commands|
    ensures KeepsNewest(commands) ==> KeepsNewest([commands[i]])
    ensures ScansRecords(commands) ==> ScansRecords([commands[i]])
    ensures ScansEither(commands) ==> ScansEither([commands[i]])
  {
    assert commands[i] in commands;
  }

  /** Every root has a record, so the records alone decide the next number. */
  lemma RecordsDecideTheNumber(f: Files, scan: Scan, digest: string -> string)
    requires Consistent(f, digest) && scan.records
    ensures var n := NextNumber(Seen(f, scan));
            n !in Numbers(f) && forall k: nat | Reaches(f, k) :: k < n
  {
    forall n | n in f.links ensures n in f.records {
      assert Labelled(f, digest, n);
    }
    assert Seen(f, scan) == Numbers(f);
  }

  /** Neither directory readable, concretely: already the first publish leaves root 1 with a record that
      lies about its snapshot. */
  lemma UnreadableDirectoriesRelabel(digest: string -> string, record: Record, before: string, after: string)
    requires digest(before) != digest(after) && record.lockDigest == digest(before)
    ensures var f := WithNumber(Files(map[], map[], map[], None), 1, record, before);
            && Consistent(f, digest)
            && NextNumber(Seen(f, Scan(false, false))) == 1
            && AppendExit(f, f.(locks := f.locks[1 := after]), 1, record, after)
            && !Consistent(f.(locks := f.locks[1 := after]), digest)
  {
    var f := WithNumber(Files(map[], map[], map[], None), 1, record, before);
    assert !Labelled(f.(locks := f.locks[1 := after]), digest, 1);
  }

  /** After a failed registration the number is burned exactly while its record could not be removed. */
  lemma BurnedWhileTheRecordStays(f: Files, g: Files, n: nat)
    requires n == NextNumber(Numbers(f)) && AgreeOutside(f, g, {n}) && g.links == f.links
    ensures NextNumber(Numbers(g)) != n <==> n in g.records
  {
    forall k: nat | k != n ensures k in Numbers(f) <==> k in Numbers(g) {
      AgreeKeepsNumbers(f, g, {n}, k);
    }
    if n in g.records {
      assert n in Numbers(g);
    } else {
      assert Numbers(f) == Numbers(g);
    }
  }

  /** And one exit of `append` frees it: a failed registration with its record and snapshot taken back. */
  lemma AFailedRegistrationFreesTheNumber(f: Files, n: nat, record: Record, lock: string, digest: string -> string)
    requires Consistent(f, digest) && n == NextNumber(Numbers(f))
    ensures var g := f.(records := f.records - {n}, locks := f.locks - {n});
            AppendExit(f, g, n, record, lock) && NextNumber(Numbers(g)) == n
  {
    var g := f.(records := f.records - {n}, locks := f.locks - {n});
    RecordsDecideTheNumber(f, Scan(true, true), digest);
    assert Seen(f, Scan(true, true)) == Numbers(f);
    BurnedWhileTheRecordStays(f, g, n);
  }

  lemma AgreeKeepsNumbers(a: Files, b: Files, changed: set<nat>, k: nat)
    requires AgreeOutside(a, b, changed) && k !in changed
    ensures k in Numbers(a) <==> k in Numbers(b)
  {
    assert SlotOf(a, k) == SlotOf(b, k);
  }

  lemma AppendKeepsReach(a: Files, b: Files, n: nat, k: nat)
    requires AgreeOutside(a, b, {n}) && n !in Numbers(a) && Reaches(a, k)
    ensures Reaches(b, k)
  {
    var top :| top in Numbers(a) && k <= top;
    AgreeKeepsNumbers(a, b, {n}, top);
  }

  lemma LinkedReaches(f: Files, n: nat)
    ensures n in f.links ==> Reaches(f, n)
  {
    assert n in f.links ==> n in Numbers(f);
  }

  lemma SameNumbersReach(a: Files, b: Files)
    requires Numbers(a) == Numbers(b)
    ensures forall k: nat | Reaches(a, k) :: Reaches(b, k)
  {
  }

  lemma KeepPruneKeepsReach(a: Files, b: Files, scan: Scan, keep: nat, now: nat, k: nat)
    requires keep >= 1 && Reaches(a, k)
    requires AgreeOutside(a, b, NumbersOf(Selected(a, scan, Some(keep), None, now)))
    ensures Reaches(b, k)
  {
    hide Selected;
    var top := Highest(Numbers(a));
    KeepSparesTheHighest(a, scan, keep, now);
    AgreeKeepsNumbers(a, b, NumbersOf(Selected(a, scan, Some(keep), None, now)), top);
  }

  /** The refusal's guard, row by row and number by number. */
  lemma BootedIsReached(f: Files, scan: Scan, keep: Option<nat>, age: Option<nat>, now: nat, booted: Option<string>)
    ensures (booted.Some? && exists r :: r in Selected(f, scan, keep, age, now) && r.storePath == booted) <==>
            booted.Some? && exists n: nat ::
              Reached(f, scan, keep, age, now, n) && n in f.links && f.links[n] == booted.value
  {
    hide Selected, Reached;
    SelectedAreTheReached(f, scan, keep, age, now);
    var selected := Selected(f, scan, keep, age, now);
    if booted.Some? {
      if r :| r in selected && r.storePath == booted {
        assert r.number in NumbersOf(selected);
      }
      if n: nat :| Reached(f, scan, keep, age, now, n) && n in f.links && f.links[n] == booted.value {
        assert n in NumbersOf(selected);
        var r :| r in selected && r.number == n;
      }
    }
  }

  lemma WithoutTheReached(f: Files, scan: Scan, keep: Option<nat>, age: Option<nat>, now: nat)
    ensures var after := WithoutNumbers(f, NumbersOf(Selected(f, scan, keep, age, now)));
            forall n: nat :: SlotOf(after, n) == if Reached(f, scan, keep, age, now, n) then Slot(None, None, None)
                                                 else SlotOf(f, n)
  {
    hide Selected, Reached;
    SelectedAreTheReached(f, scan, keep, age, now);
  }

  class Profile {
    var files: Files
    /** File operations left before the process dies. */
    var life: nat
    /** The content digest of a lock snapshot. */
    const digest: string -> string
    /** Whether every file operation works. */
    const healthy: bool

    constructor (digest: string -> string, healthy: bool)
      ensures files == Files(map[], map[], map[], None) && this.digest == digest && this.healthy == healthy
      ensures Consistent(files, digest)
    {
      files, life, this.digest, this.healthy := Files(map[], map[], map[], None), 0, digest, healthy;
    }

    /** The next file operation: the process may die before it, and it may fail. */
    method Attempt() returns (step: Step)
      modifies this`life
      ensures step == Dead <==> old(life) == 0
      ensures step != Dead ==> life == old(life) - 1
      ensures healthy ==> step != Fault
      ensures (step == Dead ==> life == 0) && (step == Fault ==> !healthy)
    {
      if life == 0 { return Dead; }
      life := life - 1;
      var fails: bool := *;
      step := if fails && !healthy then Fault else Landed;
    }

    /** The operations of a staged publish that come before its rename takes effect: stage, write,
        flush and the rename call itself. None of them touches the destination. */
    method Stage(operations: nat) returns (step: Step)
      modifies this`life
      ensures healthy && old(life) >= operations ==> step == Landed && life == old(life) - operations
      ensures (step == Dead ==> life == 0) && (step == Fault ==> !healthy)
    {
      step := Landed;
      for i := 0 to operations
        invariant old(life) >= i ==> life == old(life) - i
        invariant step == Landed
      {
        step := Attempt();
        if step != Landed { return; }
      }
    }

    /** `publish` of a lock snapshot. A failure after the rename still leaves the new snapshot. */
    method PublishLock(n: nat, lock: string) returns (step: Step)
      modifies this`files, this`life
      ensures files == old(files) || files == old(files).(locks := old(files).locks[n := lock])
      ensures step == Landed ==> files.locks == old(files).locks[n := lock]
      ensures healthy && old(life) >= 5 ==> step == Landed && life == old(life) - 5
      ensures (step == Dead ==> life == 0) && (step == Fault ==> !healthy)
    {
      step := Stage(4);
      if step == Landed {
        files := files.(locks := files.locks[n := lock]);
        step := Attempt();
      }
    }

    /** `publish` of a record. */
    method PublishRecord(n: nat, record: Record) returns (step: Step)
      modifies this`files, this`life
      ensures files == old(files) || files == old(files).(records := old(files).records[n := record])
      ensures step == Landed ==> files.records == old(files).records[n := record]
      ensures healthy && old(life) >= 5 ==> step == Landed && life == old(life) - 5
      ensures (step == Dead ==> life == 0) && (step == Fault ==> !healthy)
    {
      step := Stage(4);
      if step == Landed {
        files := files.(records := files.records[n := record]);
        step := Attempt();
      }
    }

    /** The registrar creates the link or does not; the process may also die once it has. */
    method RegisterRoot(n: nat, storePath: string) returns (step: Step)
      modifies this`files, this`life
      ensures step == Landed ==> files == old(files).(links := old(files).links[n := storePath])
      ensures step == Fault ==> files == old(files)
      ensures healthy && old(life) >= 2 ==> step == Landed && life == old(life) - 1
      ensures step == Dead ==> files == old(files) || files == old(files).(links := old(files).links[n := storePath])
      ensures (step == Dead ==> life == 0) && (step == Fault ==> !healthy)
      ensures step == Fault ==> life + 1 == old(life)
    {
      step := Attempt();
      if step == Landed {
        files := files.(links := files.links[n := storePath]);
        if life == 0 { step := Dead; }
      }
    }

    /** Best-effort removal of the snapshot of a number. */
    method DiscardLock(n: nat) returns (step: Step)
      modifies this`files, this`life
      ensures files == old(files) || files == old(files).(locks := old(files).locks - {n})
      ensures step == Landed ==> files.locks == old(files).locks - {n}
      ensures healthy && old(life) >= 1 ==> step == Landed && life == old(life) - 1
      ensures (step == Dead ==> life == 0) && (step == Fault ==> !healthy)
      ensures step != Dead ==> life + 1 == old(life)
    {
      step := Attempt();
      if step == Landed { files := files.(locks := files.locks - {n}); }
    }

    /** Best-effort removal of the record of a number. */
    method DiscardRecord(n: nat) returns (step: Step)
      modifies this`files, this`life
      ensures files == old(files) || files == old(files).(records := old(files).records - {n})
      ensures step == Landed ==> files.records == old(files).records - {n}
      ensures healthy && old(life) >= 1 ==> step == Landed && life == old(life) - 1
      ensures (step == Dead ==> life == 0) && (step == Fault ==> !healthy)
      ensures step != Dead ==> life + 1 == old(life)
    {
      step := Attempt();
      if step == Landed { files := files.(records := files.records - {n}); }
    }

    /** `set_current`: clear the staged name, stage the symlink, rename it over, flush. */
    method SetCurrent(n: nat) returns (step: Step)
      modifies this`files, this`life
      ensures files == old(files) || files == old(files).(current := Some(n))
      ensures step == Landed ==> files == old(files).(current := Some(n))
      ensures healthy && old(life) >= 4 ==> step == Landed
      ensures (step == Dead ==> life == 0) && (step == Fault ==> !healthy)
    {
      step := Attempt();
      if step == Dead { return; }
      step := Stage(2);
      if step == Landed {
        files := files.(current := Some(n));
        step := Attempt();
      }
    }

    /** `next_number` over what the scan could read. */
    method Next(scan: Scan) returns (n: nat)
      ensures n == NextNumber(Seen(files, scan))
    {
      var seen := Seen(files, scan);
      var counted: set<nat> := {};
      n := 0;
      while counted != seen
        invariant counted <= seen
        invariant forall k | k in counted :: k <= n
        invariant counted != {} ==> n in counted
        invariant counted == {} ==> n == 0
        decreases |seen - counted|
      {
        var k :| k in seen - counted;
        assert seen - (counted + {k}) < seen - counted;
        if counted == {} || k > n { n := k; }
        counted := counted + {k};
      }
      n := n + 1;
    }

    /** The first half of `append`: the snapshot, its digest, the record. */
    method Label(n: nat, record: Record, lock: string) returns (step: Step)
      modifies this`files, this`life
      ensures step == Landed ==> files == Labelling(old(files), n, record, lock)
      ensures step != Landed ==> files in {old(files), old(files).(locks := old(files).locks[n := lock]),
                                           old(files).(locks := old(files).locks - {n}),
                                           Labelling(old(files), n, record, lock)}
      ensures healthy && old(life) >= 11 ==> step == Landed && life == old(life) - 11
      ensures (step == Dead ==> life == 0) && (step == Fault ==> !healthy)
    {
      ghost var was := files;
      step := PublishLock(n, lock);
      assert was.locks[n := lock] - {n} == was.locks - {n};
      if step == Landed {
        // Digesting the published snapshot can fail too.
        step := Attempt();
        if step == Fault {
          step := DiscardLock(n);
          if step == Landed { step := Fault; }
        }
      }
      if step == Landed {
        step := PublishRecord(n, record);
      }
    }

    /** The second half of `append`: the root, and taking the first half back when it is not registered. */
    method Root(n: nat, storePath: string) returns (step: Step)
      modifies this`files, this`life
      ensures step == Landed ==> files == old(files).(links := old(files).links[n := storePath])
      ensures step != Landed ==>
                files in {old(files), old(files).(links := old(files).links[n := storePath]),
                          old(files).(records := old(files).records - {n}),
                          old(files).(locks := old(files).locks - {n}),
                          old(files).(records := old(files).records - {n}, locks := old(files).locks - {n})}
      ensures healthy && old(life) >= 2 ==> step == Landed && life == old(life) - 1
      ensures (step == Dead ==> life == 0) && (step == Fault ==> !healthy)
      // A failed registration tries both removals, whatever comes of the first.
      ensures step == Fault ==> life + 3 == old(life)
    {
      step := RegisterRoot(n, storePath);
      if step == Fault {
        step := DiscardRecord(n);
        if step != Dead { step := DiscardLock(n); }
        if step == Landed { step := Fault; }
      }
    }

    /** `append`. The seed record's own digest is replaced by the snapshot's. Whatever dies or fails, it
        stops at one of its exits, and all of them are consistent unless it took a number in use. */
    method Append(seed: Record, lock: string, scan: Scan) returns (out: Outcome)
      requires Consistent(files, digest)
      modifies this`files, this`life
      ensures var n := NextNumber(Seen(old(files), scan));
              var record := seed.(lockDigest := digest(lock));
              && AppendExit(old(files), files, n, record, lock)
              && AgreeOutside(old(files), files, {n})
              && (out.Done? ==> out.number == n
                                && files == WithNumber(old(files), n, record, lock).(current := Some(n)))
              && !out.Refused?
              && (n !in old(files).links ==> Consistent(files, digest))
      ensures healthy && old(life) >= 16 ==> out.Done?
      ensures (out.Died? ==> life == 0) && (out.Failed? ==> !healthy)
    {
      hide Consistent, NextNumber, Seen, AgreeOutside;
      ghost var was := files;
      var n := Next(scan);
      var record := seed.(lockDigest := digest(lock));
      var step := Label(n, record, lock);
      if step == Landed { step := Root(n, record.storePath); }
      ghost var rooted := files;
      if step == Landed { step := SetCurrent(n); }
      LabelledExits(was, n, record, lock);
      assert AppendExit(was, files, n, record, lock);
      ExitsAgree(was, files, n, record, lock);
      if n !in was.links { FreshExitIsConsistent(was, files, n, record, lock, digest); }
      out := if step == Landed then Done(n) else if step == Fault then Failed else Died;
    }

    /** `unlink`: the root first, then its record, then its snapshot. Absence is no fault. */
    method Unlink(n: nat) returns (step: Step)
      requires Consistent(files, digest) && files.current != Some(n)
      modifies this`files, this`life
      ensures Consistent(files, digest)
      ensures AgreeOutside(old(files), files, {n}) && files.current == old(files).current
      ensures files.links.Keys <= old(files).links.Keys && files.records.Keys <= old(files).records.Keys
      ensures step == Landed ==> files == WithoutNumbers(old(files), {n})
      ensures healthy && old(life) >= 3 ==> step == Landed && life == old(life) - 3
      ensures (step == Dead ==> life == 0) && (step == Fault ==> !healthy)
    {
      step := Attempt();
      if step != Landed { return; }
      files := files.(links := files.links - {n});
      step := DiscardRecord(n);
      if step != Landed { return; }
      step := DiscardLock(n);
    }

    /** `list`, oldest first. */
    method List(scan: Scan) returns (rows: seq<Row>)
      ensures rows == RowsOf(files, Seen(files, scan))
      ensures Ascending(rows) && NumbersOf(rows) == Seen(files, scan) && forall r | r in rows :: SaysOf(files, r)
    {
      RowsSayWhatIsThere(files, scan);
      assert RowsOf(files, {}) == [];
      hide RowsOf, RowOf, Highest;
      rows := [];
      var left := Seen(files, scan);
      assert RowsOf(files, left) + rows == RowsOf(files, left);
      while left != {}
        invariant RowsOf(files, Seen(files, scan)) == RowsOf(files, left) + rows
        decreases |left|
      {
        HasHighest(left);
        var top :| top in left && forall k | k in left :: k <= top;
        assert top == Highest(left);
        RowsOfSplit(files, left, rows);
        left, rows := left - {top}, [RowOf(files, top)] + rows;
      }
    }

    method UnlinkAll(rows: seq<Row>) returns (step: Step)
      requires Consistent(files, digest)
      requires forall r | r in rows :: files.current != Some(r.number)
      modifies this`files, this`life
      ensures Consistent(files, digest) && files.current == old(files).current
      ensures AgreeOutside(old(files), files, NumbersOf(rows))
      ensures Numbers(files) <= Numbers(old(files))
      ensures step == Landed ==> files == WithoutNumbers(old(files), NumbersOf(rows))
      ensures healthy && old(life) >= 3 * |rows| ==> step == Landed
      ensures (step == Dead ==> life == 0) && (step == Fault ==> !healthy)
    {
      hide Consistent, AgreeOutside, Numbers;
      ghost var was := files;
      step := Landed;
      assert WithoutNumbers(was, NumbersOf([])) == was;
      for i := 0 to |rows|
        invariant Consistent(files, digest)
        invariant files == WithoutNumbers(was, NumbersOf(rows[..i]))
        invariant step == Landed
        invariant healthy && old(life) >= 3 * |rows| ==> life >= 3 * (|rows| - i)
      {
        assert rows[i] in rows;
        ghost var before := files;
        step := Unlink(rows[i].number);
        assert rows[..i + 1] == rows[..i] + [rows[i]];
        assert NumbersOf(rows[..i + 1]) == NumbersOf(rows[..i]) + {rows[i].number};
        WithoutAgrees(was, before, files, NumbersOf(rows[..i]), rows[i].number, NumbersOf(rows));
        if step != Landed { return; }
        WithoutOneMore(was, NumbersOf(rows[..i]), rows[i].number);
      }
      assert rows[..|rows|] == rows;
      WithoutAgreesOnce(was, NumbersOf(rows));
    }

    /** `prune`: refused whole while the running build is among the selected, else one unlink per row. */
    method Prune(keep: Option<nat>, age: Option<nat>, now: nat, scan: Scan, booted: Option<string>)
      returns (out: Outcome)
      requires Consistent(files, digest)
      modifies this`files, this`life
      ensures Consistent(files, digest) && files.current == old(files).current
      ensures var selected := Selected(old(files), scan, keep, age, now);
              && AgreeOutside(old(files), files, NumbersOf(selected))
              && Numbers(files) <= Numbers(old(files))
              && (out.Refused? <==> booted.Some? && exists n: nat ::
                    Reached(old(files), scan, keep, age, now, n) && n in old(files).links
                    && old(files).links[n] == booted.value)
              && (out.Refused? ==> files == old(files))
              && (forall n: nat | !Reached(old(files), scan, keep, age, now, n) ::
                    SlotOf(files, n) == SlotOf(old(files), n))
              && (out.Done? ==> out.number == |selected| && files == WithoutNumbers(old(files), NumbersOf(selected)))
              && (out.Done? ==> forall n: nat ::
                    SlotOf(files, n) == if Reached(old(files), scan, keep, age, now, n) then Slot(None, None, None)
                                        else SlotOf(old(files), n))
              && (healthy && old(life) >= 3 * |selected| ==> out.Done? || out.Refused?)
      ensures (out.Died? ==> life == 0) && (out.Failed? ==> !healthy)
    {
      hide Consistent, Select, RowsOf, Seen, WithoutNumbers, NumbersOf, Numbers;
      var rows := List(scan);
      var selected := Select(rows, keep, age, now);
      SelectionSparesCurrent(files, scan, keep, age, now);
      SelectedAreTheReached(files, scan, keep, age, now);
      BootedIsReached(files, scan, keep, age, now, booted);
      if booted.Some? && exists r | r in selected :: r.storePath == booted {
        return Refused;
      }
      WithoutTheReached(files, scan, keep, age, now);
      var step := UnlinkAll(selected);
      out := if step == Landed then Done(|selected|) else if step == Fault then Failed else Died;
    }

    /** The number `activate <n>` accepts, or the one `rollback` finds when no number is given. */
    method Target(target: Option<nat>, scan: Scan, existing: set<string>) returns (found: Option<nat>)
      ensures found.Some? ==> Accepts(files, target, scan, existing, found.value)
      ensures found.None? ==> forall n: nat :: !Accepts(files, target, scan, existing, n)
    {
      var rows := List(scan);
      RowsOfListsEach(files, Seen(files, scan));
      hide RowsOf, Seen;
      if target.Some? {
        if exists r | r in rows :: r.number == target.value && r.storePath.Some? && r.storePath.value in existing {
          return target;
        }
        assert RowOf(files, target.value) in rows <==> target.value in Seen(files, scan);
        return None;
      }
      if files.current.None? { return None; }
      var current := files.current.value;
      var i := |rows|;
      while i > 0
        invariant 0 <= i <= |rows|
        invariant forall k | i <= k < |rows| ::
                    !(rows[k].number < current && Retained(files, scan, existing, rows[k].number))
      {
        var row := rows[i - 1];
        assert row in rows;
        if row.number < current && row.storePath.Some? && row.storePath.value in existing {
          forall k: nat | k < current && Retained(files, scan, existing, k) ensures k <= row.number {
            assert RowOf(files, k) in rows;
            var j :| 0 <= j < |rows| && rows[j] == RowOf(files, k);
          }
          return Some(row.number);
        }
        i := i - 1;
      }
      forall k: nat | k < current ensures !Retained(files, scan, existing, k) {
        if k in Seen(files, scan) {
          assert RowOf(files, k) in rows;
        }
      }
      found := None;
    }

    /** `activate` and `rollback`: repoint `current`, nothing else. */
    method Activate(target: Option<nat>, scan: Scan, existing: set<string>) returns (out: Outcome)
      requires Consistent(files, digest)
      modifies this`files, this`life
      ensures Consistent(files, digest)
      ensures Moves(old(files), files, target, scan, existing, out)
      ensures files == old(files) || files == old(files).(current := files.current)
      ensures files.current != old(files).current ==>
                files.current.Some? && Accepts(old(files), target, scan, existing, files.current.value)
      ensures out.Done? ==>
                files.current == Some(out.number) && Accepts(old(files), target, scan, existing, out.number)
      ensures out.Refused? ==> files == old(files)
      ensures out.Refused? <==> forall n: nat :: !Accepts(old(files), target, scan, existing, n)
      ensures healthy && old(life) >= 4 ==> out.Done? || out.Refused?
      ensures (out.Died? ==> life == 0) && (out.Failed? ==> !healthy)
    {
      hide Seen;
      var found := Target(target, scan, existing);
      if found.None? { return Refused; }
      var step := SetCurrent(found.value);
      out := if step == Landed then Done(found.value) else if step == Fault then Failed else Died;
    }

    /** One verb of a history, under the target lock, by a process that may die at any point of it. */
    method Do(command: Command) returns (out: Outcome)
      requires Consistent(files, digest) && ScansEither([command])
      modifies this`files, this`life
      ensures Consistent(files, digest)
      ensures KeepsNewest([command]) && ScansRecords([command]) ==>
                forall k: nat | Reaches(old(files), k) :: Reaches(files, k)
      ensures ScansRecords([command]) && command.Append? && out.Done? ==>
                Reaches(files, out.number) && forall k: nat | Reaches(old(files), k) :: k < out.number
      ensures Does(old(files), files, command, out, digest)
    {
      hide Consistent, Seen, NextNumber, Selected, RowsOf, Select, Reaches, AppendExit;
      ghost var was := files;
      assert command in [command];
      match command
      case Append(record, lock, scan) =>
        NextIsRootedExactly(files, scan, digest);
        if scan.records { RecordsDecideTheNumber(files, scan, digest); }
        out := Append(record, lock, scan);
        ghost var n := NextNumber(Seen(was, scan));
        if scan.records {
          forall k: nat | Reaches(was, k) ensures Reaches(files, k) { AppendKeepsReach(was, files, n, k); }
          if out.Done? { LinkedReaches(files, n); }
        }
      case Activate(target, scan, existing) =>
        out := Activate(Some(target), scan, existing);
        SameNumbersReach(was, files);
      case Rollback(scan, existing) =>
        out := Activate(None, scan, existing);
        SameNumbersReach(was, files);
      case Prune(keep, age, now, scan, booted) =>
        out := Prune(keep, age, now, scan, booted);
        if KeepsNewest([command]) {
          forall k: nat | Reaches(was, k) ensures Reaches(files, k) {
            KeepPruneKeepsReach(was, files, scan, keep.value, now, k);
          }
        }
    }

    /** Any history from an empty profile: every root stays labelled and `current` stays rooted
        whatever dies or fails; and with the records readable and `--keep` prunes only, no build repeats
        or goes below the number of an earlier one. */
    method History(commands: seq<Command>) returns (outs: seq<Outcome>, ghost states: seq<Files>)
      requires files == Files(map[], map[], map[], None) && ScansEither(commands)
      modifies this`files, this`life
      ensures Consistent(files, digest) && |outs| == |commands|
      ensures Ran(states, commands, outs, digest) && states[0] == old(files) && states[|commands|] == files
      ensures KeepsNewest(commands) && ScansRecords(commands) ==> Increasing(commands, outs)
    {
      assert Consistent(files, digest);
      outs, states := [], [files];
      NothingRan(files, commands, digest);
      assert Numbered(files, commands, outs);
      hide Consistent, Reaches, Does, Ran, Numbered, KeepsNewest, ScansRecords, ScansEither;
      for i := 0 to |commands|
        invariant Consistent(files, digest) && |outs| == i
        invariant |states| == i + 1 && states[0] == old(files) && states[i] == files
        invariant Ran(states, commands, outs, digest)
        invariant KeepsNewest(commands) && ScansRecords(commands) ==> Numbered(files, commands, outs)
      {
        var budget: nat := *;
        life := budget;
        OneOfThem(commands, i);
        ghost var was := files;
        var out := Do(commands[i]);
        RanOn(states, commands, outs, files, out, digest);
        if KeepsNewest(commands) && ScansRecords(commands) { NumberedOn(was, files, commands, outs, out); }
        outs, states := outs + [out], states + [files];
      }
      NumberedIsIncreasing(files, commands, outs);
    }
  }

  lemma NumberedIsIncreasing(f: Files, commands: seq<Command>, outs: seq<Outcome>)
    requires |outs| <= |commands|
    ensures Numbered(f, commands, outs) ==> Increasing(commands, outs)
  {
  }

  function Started(first: Record, firstLock: string): Files {
    WithNumber(Files(map[], map[], map[], None), 1, first, firstLock).(current := Some(1))
  }

  lemma FirstTwoNumbers(first: Record, firstLock: string, second: Record, secondLock: string, existing: set<string>)
    requires first.storePath in existing
    ensures var both := Scan(true, true);
            var empty := Files(map[], map[], map[], None);
            var one := Started(first, firstLock);
            var two := WithNumber(one, 2, second, secondLock).(current := Some(2));
            && NextNumber(Seen(empty, both)) == 1 && NextNumber(Seen(one, both)) == 2
            && (forall n: nat :: IsPrevious(two, both, existing, n) <==> n == 1)
  {
    var both := Scan(true, true);
    var one := Started(first, firstLock);
    assert Seen(one, both) == {1};
    var two := WithNumber(one, 2, second, secondLock).(current := Some(2));
    assert Seen(two, both) == {1, 2};
    assert Retained(two, both, existing, 1);
    forall n: nat | IsPrevious(two, both, existing, n) ensures n == 1 {
      assert n in {1, 2} && n < 2;
    }
    forall k: nat | k < 2 && Retained(two, both, existing, k) ensures k <= 1 {
    }
    assert IsPrevious(two, both, existing, 1);
  }

  lemma InOrder(rows: seq<Row>, i: nat, j: nat)
    requires Ascending(rows) && i < j < |rows|
    ensures rows[i].number < rows[j].number && rows[i] in rows && rows[j] in rows
  {
  }

  lemma OneOfAKind(rows: seq<Row>, row: Row)
    requires Ascending(rows) && row in rows && forall r | r in rows :: r == row
    ensures rows == [row]
  {
    if |rows| > 1 {
      InOrder(rows, 0, 1);
      assert false;
    }
  }

  lemma KeepZeroTakesTheSecond(f: Files, now: nat)
    requires f.links.Keys == {1, 2} && f.records.Keys == {1, 2} && f.current == Some(1)
    ensures Selected(f, Scan(true, true), Some(0), None, now) == [RowOf(f, 2)]
  {
    var scan := Scan(true, true);
    var rows := RowsOf(f, Seen(f, scan));
    assert Seen(f, scan) == {1, 2};
    RowsOfListsEach(f, {1, 2});
    forall r ensures r in Selected(f, scan, Some(0), None, now) <==> r in rows && !r.current {
      KeepRetainsTheNewest(rows, 0, now, r);
    }
    var newest := NumbersOf(Newest(rows, 0));
    FilterKeepsOrder(rows, (x: Row) => !x.current && x.number !in newest);
    hide RowsOf, Select;
    var selected := Selected(f, scan, Some(0), None, now);
    assert RowOf(f, 2) in rows && !RowOf(f, 2).current;
    assert forall r | r in selected :: r == RowOf(f, 2);
    OneOfAKind(selected, RowOf(f, 2));
  }

  /** Two builds, a rollback and `prune --keep 0`, with nothing failing: the next build takes the number
      of the second one. */
  method KeepZeroReusesANumber(digest: string -> string, builds: seq<Record>, locks: seq<string>, now: nat)
    returns (second: Outcome, third: Outcome)
    requires |builds| == |locks| == 3
    ensures second == Done(2) && third == Done(2)
  {
    hide Consistent, Seen, NextNumber, Selected, AppendExit, IsPrevious, AgreeOutside, Numbers;
    var both := Scan(true, true);
    var existing := {builds[0].storePath};
    ghost var first := builds[0].(lockDigest := digest(locks[0]));
    ghost var next := builds[1].(lockDigest := digest(locks[1]));
    FirstTwoNumbers(first, locks[0], next, locks[1], existing);
    var p := new Profile(digest, true);
    p.life := 16;
    var out := p.Append(builds[0], locks[0], both);
    OneIsConsistent(first, locks[0], digest);
    p.life := 16;
    second := p.Append(builds[1], locks[1], both);
    ghost var two := p.files;
    TwoIsConsistent(first, locks[0], next, locks[1], digest);
    p.life := 4;
    out := p.Activate(None, both, existing);
    assert Accepts(two, None, both, existing, 1);
    assert p.files == two.(current := Some(1));
    KeepZeroTakesTheSecond(p.files, now);
    p.life := 3;
    out := p.Prune(Some(0), None, now, both, None);
    WithoutTheSecond(first, locks[0], next, locks[1]);
    p.life := 16;
    third := p.Append(builds[2], locks[2], both);
  }

  lemma OneIsConsistent(first: Record, firstLock: string, digest: string -> string)
    requires first.lockDigest == digest(firstLock)
    ensures Consistent(Started(first, firstLock), digest)
  {
  }

  lemma TwoIsConsistent(first: Record, firstLock: string, second: Record, secondLock: string, digest: string -> string)
    requires first.lockDigest == digest(firstLock) && second.lockDigest == digest(secondLock)
    ensures Consistent(WithNumber(Started(first, firstLock), 2, second, secondLock).(current := Some(2)), digest)
  {
  }

  lemma WithoutTheSecond(first: Record, firstLock: string, second: Record, secondLock: string)
    ensures var one := Started(first, firstLock);
            var two := WithNumber(one, 2, second, secondLock).(current := Some(1));
            NumbersOf([RowOf(two, 2)]) == {2} && WithoutNumbers(two, {2}) == one
  {
    var two := WithNumber(Started(first, firstLock), 2, second, secondLock).(current := Some(1));
    assert forall r :: r in [RowOf(two, 2)] <==> r == RowOf(two, 2);
  }
}
