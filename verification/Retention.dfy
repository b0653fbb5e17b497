/** The rows of a generation profile and which of them a retention argument selects for unlinking. */
module Retention {
  import opened Wrappers
  import Rfc3339

  datatype Record = Record(storePath: string, lockDigest: string, manifest: string, backend: string, builtAt: string)

  datatype Row = Row(number: nat, storePath: Option<string>, record: Option<Record>, current: bool)

  /** The order `list` promises. */
  ghost predicate Ascending(rows: seq<Row>) {
    forall i, j | 0 <= i < j < |rows| :: rows[i].number < rows[j].number
  }

  function Filter(rows: seq<Row>, chosen: Row -> bool): seq<Row> {
    if rows == [] then []
    else (if chosen(rows[0]) then [rows[0]] else []) + Filter(rows[1..], chosen)
  }

  lemma {:induction false} FilterIsExact(rows: seq<Row>, chosen: Row -> bool)
    ensures forall r :: r in Filter(rows, chosen) <==> r in rows && chosen(r)
    ensures |Filter(rows, chosen)| <= |rows|
  {
    if rows != [] {
      FilterIsExact(rows[1..], chosen);
      assert rows == [rows[0]] + rows[1..];
    }
  }

  lemma {:induction false} FilterKeepsOrder(rows: seq<Row>, chosen: Row -> bool)
    requires Ascending(rows)
    ensures Ascending(Filter(rows, chosen))
  {
    if rows != [] {
      FilterKeepsOrder(rows[1..], chosen);
      FilterIsExact(rows[1..], chosen);
      forall r | r in rows[1..] ensures rows[0].number < r.number {
        var k :| 0 <= k < |rows| - 1 && rows[1..][k] == r;
        assert rows[k + 1] == r;
      }
    }
  }

  /** The tail of the list: the rows `--keep` counts as newest. */
  function Newest(rows: seq<Row>, keep: nat): seq<Row> {
    if keep >= |rows| then rows else rows[|rows| - keep..]
  }

  function NumbersOf(rows: seq<Row>): set<nat> {
    set r | r in rows :: r.number
  }

  /** A build whose age cannot be read is not old. */
  predicate IsOld(row: Row, threshold: nat) {
    match row.record
    case Some(record) =>
      (match Rfc3339.Parse(record.builtAt)
       case Some(built) => built < threshold
       case None => false)
    case None => false
  }

  function Threshold(now: nat, age: nat): nat {
    if age > now then 0 else now - age
  }

  /** `select`: the generation `current` names is never a candidate. */
  function Select(rows: seq<Row>, keep: Option<nat>, age: Option<nat>, now: nat): seq<Row> {
    match (keep, age)
    case (Some(n), None) =>
      var newest := NumbersOf(Newest(rows, n));
      Filter(rows, (r: Row) => !r.current && r.number !in newest)
    case (None, Some(a)) =>
      var threshold := Threshold(now, a);
      Filter(rows, (r: Row) => !r.current && IsOld(r, threshold))
    case _ => []
  }

  /** How many rows carry a greater number. */
  function NewerThan(rows: seq<Row>, number: nat): nat {
    if rows == [] then 0
    else (if rows[0].number > number then 1 else 0) + NewerThan(rows[1..], number)
  }

  lemma {:induction false} NewerThanIsPlace(rows: seq<Row>, i: nat)
    requires Ascending(rows) && i < |rows|
    ensures NewerThan(rows, rows[i].number) == |rows| - 1 - i
  {
    if i == 0 {
      AllNewer(rows[1..], rows[0].number);
    } else {
      NewerThanIsPlace(rows[1..], i - 1);
      assert rows[1..][i - 1] == rows[i];
    }
  }

  lemma {:induction false} AllNewer(rows: seq<Row>, number: nat)
    requires forall r | r in rows :: r.number > number
    ensures NewerThan(rows, number) == |rows|
  {
    if rows != [] {
      assert rows[0] in rows;
      AllNewer(rows[1..], number);
    }
  }

  /** `--keep n` unlinks exactly the rows that `n` or more rows outnumber, `current` excepted. */
  lemma KeepRetainsTheNewest(rows: seq<Row>, n: nat, now: nat, r: Row)
    requires Ascending(rows)
    ensures r in Select(rows, Some(n), None, now) <==>
      r in rows && !r.current && NewerThan(rows, r.number) >= n
  {
    var newest := NumbersOf(Newest(rows, n));
    FilterIsExact(rows, (r: Row) => !r.current && r.number !in newest);
    if r in rows {
      var i :| 0 <= i < |rows| && rows[i] == r;
      NewerThanIsPlace(rows, i);
      if i >= |rows| - n {
        assert r in Newest(rows, n) by {
          if n < |rows| { assert rows[|rows| - n..][i - (|rows| - n)] == r; }
        }
      } else {
        forall x | x in Newest(rows, n) ensures x.number != r.number {
          var k :| 0 <= k < |Newest(rows, n)| && Newest(rows, n)[k] == x;
          assert rows[|rows| - n + k] == x;
        }
      }
    }
  }

  /** `--older-than` unlinks exactly the non-current rows whose printed build instant is before the threshold. */
  lemma OlderThanReadsTheAge(rows: seq<Row>, age: nat, now: nat, r: Row)
    ensures r in Select(rows, None, Some(age), now) <==>
      r in rows && !r.current && r.record.Some?
      && exists built: nat ::
           built < Rfc3339.END_OF_YEAR_9999 && built + age < now && r.record.value.builtAt == Rfc3339.Print(built)
  {
    hide Rfc3339.Parse, Rfc3339.Print;
    var threshold := Threshold(now, age);
    FilterIsExact(rows, (r: Row) => !r.current && IsOld(r, threshold));
    if r.record.Some? {
      var text := r.record.value.builtAt;
      if IsOld(r, threshold) {
        Rfc3339.PrintOfParse(text);
      }
      forall built: nat | built < Rfc3339.END_OF_YEAR_9999 && built + age < now && text == Rfc3339.Print(built)
        ensures IsOld(r, threshold)
      {
        Rfc3339.ParseOfPrint(built);
      }
    }
  }

  /** The largest number goes exactly when its row is not current and the argument reaches it:
      `--keep 0`, or an age it has passed. `Profile.TheNextBuildReusesExactly` says what that costs. */
  lemma WhenTheLargestGoes(rows: seq<Row>, keep: Option<nat>, age: Option<nat>, now: nat)
    requires Ascending(rows) && rows != []
    ensures var last := rows[|rows| - 1];
            last in Select(rows, keep, age, now) <==>
              !last.current
              && ((age.None? && keep == Some(0))
                  || (keep.None? && age.Some? && IsOld(last, Threshold(now, age.value))))
  {
    hide IsOld;
    var last := rows[|rows| - 1];
    if keep.Some? && age.None? {
      KeepRetainsTheNewest(rows, keep.value, now, last);
      NewerThanIsPlace(rows, |rows| - 1);
    } else if keep.None? && age.Some? {
      var threshold := Threshold(now, age.value);
      FilterIsExact(rows, (r: Row) => !r.current && IsOld(r, threshold));
    }
  }
}
