/** What the runtime records, the kernel and the service manager together say about one target's VM,
    and what `viv` decides from it. Each fact can be missing. */
module Presence {
  import opened Wrappers
  import Decimal

  datatype Presence = Live | Dead | Indeterminate

  datatype State = Absent | Built | Starting | Running | Stopping | Failed

  /** What asking the kernel about a process gave: it is there (or there and someone else's), there is
      no such process, or the question failed. */
  datatype Probe = Exists | NoSuchProcess | ProbeFailed

  const MAX_PID: nat := 0x7fff_ffff

  predicate IsSpace(c: char) {
    c == ' ' || '\t' <= c <= '\r'
  }

  function TrimStart(s: string): string {
    if s != [] && IsSpace(s[0]) then TrimStart(s[1..]) else s
  }

  function TrimEnd(s: string): string {
    if s != [] && IsSpace(s[|s| - 1]) then TrimEnd(s[..|s| - 1]) else s
  }

  /** The text of a pid record as a positive 32-bit number: an optional sign, then decimal digits only. */
  function PidOf(raw: string): Option<nat> {
    var text := TrimEnd(TrimStart(raw));
    var digits := if text != [] && text[0] == '+' then text[1..] else text;
    if digits != [] && Decimal.AllDigits(digits) && 0 < Decimal.Value(digits) <= MAX_PID
    then Some(Decimal.Value(digits))
    else None
  }

  /** `recorded_pid_liveness`. */
  function RecordedPidLiveness(raw: Option<string>, probe: nat -> Probe): Option<bool> {
    if raw.None? || PidOf(raw.value).None? then None
    else
      match probe(PidOf(raw.value).value)
      case Exists => Some(true)
      case NoSuchProcess => Some(false)
      case ProbeFailed => None
  }

  /** Only a record naming a process the kernel says is gone counts as a death. */
  lemma OnlyAGoneProcessIsDead(raw: Option<string>, probe: nat -> Probe)
    ensures RecordedPidLiveness(raw, probe) == Some(false) <==>
            raw.Some? && exists pid :: PidOf(raw.value) == Some(pid) && probe(pid) == NoSuchProcess
  {
  }

  lemma {:induction false} DigitsStay(s: string)
    requires Decimal.AllDigits(s)
    ensures TrimStart(s) == s && TrimEnd(s) == s
  {
  }

  lemma {:induction false} TrimsBefore(before: string, s: string)
    requires forall c | c in before :: c in " \t\n\r\U{0b}\U{0c}"
    requires s != [] && !IsSpace(s[0])
    ensures TrimStart(before + s) == s
  {
    if before == [] {
      assert before + s == s;
    } else {
      assert before[0] in before && (before + s)[1..] == before[1..] + s;
      TrimsBefore(before[1..], s);
    }
  }

  lemma {:induction false} TrimsAfter(s: string, after: string)
    requires forall c | c in after :: c in " \t\n\r\U{0b}\U{0c}"
    requires s != [] && !IsSpace(s[|s| - 1])
    ensures TrimEnd(s + after) == s
  {
    if after == [] {
      assert s + after == s;
    } else {
      var n := |after| - 1;
      assert after[n] in after && (s + after)[..|s| + n] == s + after[..n];
      TrimsAfter(s, after[..n]);
    }
  }

  /** A number between spaces, with or without a plus sign, is read as a pid exactly when it is positive and
      fits 31 bits. */
  lemma PidsExactly(before: string, plus: bool, n: nat, after: string)
    requires forall c | c in before + after :: c in " \t\n\r\U{0b}\U{0c}"
    ensures PidOf(before + ((if plus then "+" else "") + Decimal.Print(n)) + after)
         == if 0 < n <= 2_147_483_647 then Some(n) else None
  {
    Decimal.ValueOfPrint(n);
    var digits := Decimal.Print(n);
    var text := (if plus then "+" else "") + digits;
    hide Decimal.Print, Decimal.Value, TrimStart, TrimEnd;
    assert Decimal.IsDigit(digits[0]) && Decimal.IsDigit(digits[|digits| - 1]);
    assert text[|text| - 1] == digits[|digits| - 1] && (plus ==> text[1..] == digits) && (!plus ==> text == digits);
    assert before + text + after == before + (text + after) && (text + after)[0] == text[0];
    assert forall c | c in before :: c in before + after;
    assert forall c | c in after :: c in before + after;
    TrimsBefore(before, text + after);
    TrimsAfter(text, after);
  }

  /** A record the supervisor wrote is read back as the process it names. */
  lemma WrittenPidIsReadBack(pid: nat, probe: nat -> Probe)
    requires 0 < pid <= MAX_PID
    ensures PidOf(Decimal.Print(pid)) == Some(pid)
    ensures RecordedPidLiveness(Some(Decimal.Print(pid)), probe) == Some(false) <==> probe(pid) == NoSuchProcess
    ensures RecordedPidLiveness(Some(Decimal.Print(pid)), probe) == Some(true) <==> probe(pid) == Exists
  {
    Decimal.ValueOfPrint(pid);
    DigitsStay(Decimal.Print(pid));
    assert Decimal.Print(pid)[0] != '+';
  }

  /** `ownership_of`: `None` for a state name this version does not know. */
  function OwnershipOf(unit: string): Option<bool> {
    if unit in {"active", "reloading", "refreshing", "activating", "deactivating"} then Some(true)
    else if unit in {"inactive", "failed"} then Some(false)
    else None
  }

  /** The states in which a unit holds its VM, those in which it does not, and no other is known. */
  lemma UnitsOwnExactly(unit: string)
    ensures OwnershipOf(unit) == Some(true) <==>
              unit in {"active", "reloading", "refreshing", "activating", "deactivating"}
    ensures OwnershipOf(unit) == Some(false) <==> unit in {"inactive", "failed"}
  {
  }

  /** `presence_of`. */
  function PresenceOf(pid: Option<bool>, unit: Option<bool>): Presence {
    if pid == Some(false) || unit == Some(false) then Dead
    else if unit == Some(true) then Live
    else Indeterminate
  }

  /** A fact is honest about a VM when it is missing, or says of a live VM that it lives. */
  predicate Honest(fact: Option<bool>, live: bool) {
    live ==> fact != Some(false)
  }

  /** Exactly one dishonest source is enough to judge a live VM dead, and no missing one ever is. */
  lemma ALiveVmReadsDeadExactlyWhenAFactLies(pid: Option<bool>, unit: Option<bool>)
    ensures PresenceOf(pid, unit) == Dead <==> !Honest(pid, true) || !Honest(unit, true)
    ensures pid.None? && unit.None? ==> PresenceOf(pid, unit) == Indeterminate
    ensures PresenceOf(pid, unit) == Live ==> unit == Some(true) && pid != Some(false)
  {
  }

  /** `classify`. */
  function Classify(hasRecords: bool, hasBuild: bool, alive: bool, unit: Option<string>): State {
    if !hasRecords then
      if unit == Some("activating") then Starting
      else if unit == Some("deactivating") then Stopping
      else if hasBuild then Built
      else Absent
    else if alive then
      if unit == Some("deactivating") then Stopping
      else if unit == Some("activating") then Starting
      else if unit in {Some("active"), Some("reloading"), Some("refreshing")} then Running
      else Failed
    else
      if unit == Some("activating") then Starting
      else if unit == Some("deactivating") then Stopping
      else Failed
  }

  /** Each state by its facts. Whatever is reported running is judged live by the same two facts, and a unit
      on the move is never hidden. */
  lemma StatesByTheirFacts(hasRecords: bool, hasBuild: bool, pid: Option<bool>, unit: Option<string>)
    ensures var state := Classify(hasRecords, hasBuild, pid == Some(true), unit);
            var up := pid == Some(true) && unit in {Some("active"), Some("reloading"), Some("refreshing")};
            var moving := unit in {Some("activating"), Some("deactivating")};
            && (state == Starting <==> unit == Some("activating"))
            && (state == Stopping <==> unit == Some("deactivating"))
            && (state == Running <==> hasRecords && up)
            && (state == Failed <==> hasRecords && !up && !moving)
            && (state == Built <==> !hasRecords && hasBuild && !moving)
            && (state == Absent <==> !hasRecords && !hasBuild && !moving)
            && (state == Running ==>
                  PresenceOf(pid, if unit.Some? then OwnershipOf(unit.value) else None) == Live)
  {
  }

  // `reusable`.

  /** What reading `boot.json` gave. The fields of a ready one are compared with this invocation's. */
  datatype BootRead =
    | NoBoot | UnreadableBoot | SkewedBoot
    | ReadyBoot(sameSandbox: bool, sameTarget: bool, sameWorkspaces: bool, sameBackend: bool)

  datatype Decision = Reuse | ColdStart | RepairThenColdStart | Refuse

  function ByPresence(presence: Presence, dead: Decision): Decision {
    if presence == Dead then dead else Refuse
  }

  /** `reusable`. `soon` and `late` are the answers of the two pings, should they be sent. */
  function Reusable(socket: bool, boot: BootRead, soon: bool, late: bool, presence: Presence): Decision {
    if !socket then ByPresence(presence, ColdStart)
    else
      match boot
      case SkewedBoot | NoBoot | UnreadableBoot => ByPresence(presence, RepairThenColdStart)
      case ReadyBoot(sandbox, target, workspaces, backend) =>
        if !sandbox || !target then Refuse
        else if !workspaces || !backend then ByPresence(presence, RepairThenColdStart)
        else if soon then Reuse
        else if presence == Live then (if late then Reuse else Refuse)
        else ByPresence(presence, RepairThenColdStart)
  }

  predicate Ours(boot: BootRead) {
    boot.ReadyBoot? && boot.sameSandbox && boot.sameTarget && boot.sameWorkspaces && boot.sameBackend
  }

  /** Every decision of `reusable`, by exactly what it takes. A cold start or a repair takes a dead VM;
      a repair never touches the records of another sandbox or target; reuse takes our own record and an
      answer. */
  lemma DecisionsExactly(socket: bool, boot: BootRead, soon: bool, late: bool, presence: Presence)
    ensures var decision := Reusable(socket, boot, soon, late, presence);
            && (decision == ColdStart <==> !socket && presence == Dead)
            && (decision == RepairThenColdStart <==>
                  socket && presence == Dead && !(Ours(boot) && soon)
                  && (boot.ReadyBoot? ==> boot.sameSandbox && boot.sameTarget))
            && (decision == Reuse <==> socket && Ours(boot) && (soon || (late && presence == Live)))
  {
  }
}
