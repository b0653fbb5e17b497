/** When `viv start --attach` calls the console stream ended. */
module Stream {
  import F = Follower

  /** Quiet polls in a row, with the VM out of its running states, before the stream is over. */
  const STABLE_EOF_POLLS: nat := 3

  /** One turn of the stream: what the poll forwarded, whether the boot had concluded, whether the VM
      read as running, starting or stopping, and whether the caller cancelled. */
  datatype Turn = Turn(forwarded: nat, booted: bool, running: bool, cancelled: bool)

  datatype End = Ended | Detached | Following

  predicate Quiet(t: Turn) {
    t.forwarded == 0 && t.booted && !t.running
  }

  /** The last three turns up to and with `k` were quiet. */
  predicate Stable(turns: seq<Turn>, k: nat)
    requires k < |turns|
  {
    k >= 2 && Quiet(turns[k - 2]) && Quiet(turns[k - 1]) && Quiet(turns[k])
  }

  function QuietRun(turns: seq<Turn>): nat {
    if turns == [] || !Quiet(turns[|turns| - 1]) then 0 else QuietRun(turns[..|turns| - 1]) + 1
  }

  lemma OneMoreTurn(turns: seq<Turn>, k: nat)
    requires k < |turns|
    ensures QuietRun(turns[..k + 1]) == if Quiet(turns[k]) then QuietRun(turns[..k]) + 1 else 0
  {
    assert turns[..k + 1][..k] == turns[..k];
  }

  lemma RunOfThree(turns: seq<Turn>, k: nat)
    requires k < |turns|
    ensures QuietRun(turns[..k + 1]) >= STABLE_EOF_POLLS <==> Stable(turns, k)
  {
    OneMoreTurn(turns, k);
    if k >= 1 { OneMoreTurn(turns, k - 1); }
    if k >= 2 { OneMoreTurn(turns, k - 2); }
  }

  lemma {:induction false} NothingQuietBeforeTheBoot(turns: seq<Turn>)
    requires turns != [] && !turns[|turns| - 1].booted
    ensures QuietRun(turns) == 0
  {
  }

  /** What a turn finds beside its poll: whether the boot had concluded, whether the VM read as running,
      starting or stopping, and whether the caller cancelled. */
  datatype Look = Look(booted: bool, running: bool, cancelled: bool)

  function TurnOf(forwarded: nat, look: Look): Turn {
    Turn(forwarded, look.booted, look.running, look.cancelled)
  }

  /** The one last poll after a stable end, or behind a detach. */
  method LastDrain(follower: F.Follower)
    requires follower.Valid(F.Idle)
    modifies follower
    ensures follower.Valid(F.Idle)
    ensures old(follower.script) == [] ==>
              && F.Pending(follower.Now(F.Idle)) == 0
              && (follower.sink == F.Written(follower.Now(F.Idle)) <==> F.Lost(follower.Now(F.Idle)) == 0)
  {
    hide F.Run, F.Inv, F.Pending, F.Lost, F.Written, F.Concluded;
    var drained := follower.Poll();
    F.Conservation(follower.Now(F.Idle));
  }

  /** The boot concludes once. */
  ghost predicate BootsOnce(looks: seq<Look>) {
    forall i, j | 0 <= i < j < |looks| && looks[i].booted :: looks[j].booted
  }

  ghost predicate Matches(turns: seq<Turn>, looks: seq<Look>) {
    |turns| <= |looks| && forall k | 0 <= k < |turns| :: turns[k] == TurnOf(turns[k].forwarded, looks[k])
  }

  /** None of the first `n` turns ended the stream. */
  ghost predicate GoesOn(turns: seq<Turn>, n: nat)
    requires n <= |turns|
  {
    forall k: nat | k < n :: !Stable(turns, k) && !turns[k].cancelled
  }

  /** The counter after one more turn. A turn before the boot's conclusion leaves it alone. */
  function Counted(quiet: nat, t: Turn): nat {
    if t.forwarded > 0 then 0
    else if !t.booted then quiet
    else if t.running then 0
    else quiet + 1
  }

  lemma OneTurnOn(before: seq<Turn>, t: Turn, looks: seq<Look>)
    requires BootsOnce(looks) && Matches(before, looks) && GoesOn(before, |before|)
    requires |before| < |looks| && t == TurnOf(t.forwarded, looks[|before|])
    ensures var turns := before + [t];
            && Matches(turns, looks) && GoesOn(turns, |before|)
            && Counted(QuietRun(before), t) == QuietRun(turns)
            && (QuietRun(turns) >= STABLE_EOF_POLLS <==> Stable(turns, |before|))
            && (!Stable(turns, |before|) && !t.cancelled ==> GoesOn(turns, |turns|))
  {
    var turns := before + [t];
    EarlierTurnsGoOn(before, t);
    CounterOn(before, t, looks);
    hide QuietRun, Counted, Quiet;
    assert turns[..|before| + 1] == turns;
    RunOfThree(turns, |before|);
  }

  /** A later turn takes nothing back from the earlier ones. */
  lemma EarlierTurnsGoOn(before: seq<Turn>, t: Turn)
    requires GoesOn(before, |before|)
    ensures GoesOn(before + [t], |before|)
  {
    hide Quiet;
    forall k: nat | k < |before| ensures !Stable(before + [t], k) && !(before + [t])[k].cancelled {
      assert !Stable(before, k) && !before[k].cancelled;
    }
  }

  /** The counter is the length of the quiet run, the turns before the boot included. */
  lemma CounterOn(before: seq<Turn>, t: Turn, looks: seq<Look>)
    requires BootsOnce(looks) && Matches(before, looks)
    requires |before| < |looks| && t == TurnOf(t.forwarded, looks[|before|])
    ensures Counted(QuietRun(before), t) == QuietRun(before + [t])
  {
    assert (before + [t])[..|before|] == before;
    if !t.booted && before != [] {
      NotBootedEarlier(before, looks);
      NothingQuietBeforeTheBoot(before);
    }
  }

  lemma NotBootedEarlier(before: seq<Turn>, looks: seq<Look>)
    requires BootsOnce(looks) && Matches(before, looks) && 0 < |before| < |looks| && !looks[|before|].booted
    ensures !before[|before| - 1].booted
  {
    assert !looks[|before| - 1].booted;
  }

  lemma NoTurnYet(looks: seq<Look>)
    ensures Matches([], looks) && QuietRun([]) == 0
  {
  }

  /** `stream`, over the looks it takes. It ends at the first turn by which three in a row were quiet,
      unless an earlier one was cancelled, and either way polls once more. If the writer had nothing left
      to do by that last poll, everything it wrote and that was not lost has been forwarded. */
  method Follow(follower: F.Follower, looks: seq<Look>) returns (end: End, turns: seq<Turn>, ghost silent: bool)
    requires BootsOnce(looks) && follower.Valid(F.Idle)
    modifies follower
    ensures follower.Valid(F.Idle) && Matches(turns, looks)
    ensures end == Following ==> |turns| == |looks| && GoesOn(turns, |turns|)
    ensures end != Following ==> turns != [] && GoesOn(turns, |turns| - 1)
    ensures end == Ended <==> turns != [] && Stable(turns, |turns| - 1)
    ensures end == Detached <==> turns != [] && !Stable(turns, |turns| - 1) && turns[|turns| - 1].cancelled
    ensures old(follower.script) == [] ==> silent
    ensures end != Following && silent ==>
              && F.Pending(follower.Now(F.Idle)) == 0
              && (follower.sink == F.Written(follower.Now(F.Idle)) <==> F.Lost(follower.Now(F.Idle)) == 0)
  {
    hide F.Run, F.Inv, F.Pending, F.Lost, F.Written, F.Concluded, Stable, QuietRun, Matches, BootsOnce;
    var quiet := 0;
    end, turns := Following, [];
    silent := follower.script == [];
    NoTurnYet(looks);
    while |turns| < |looks|
      invariant follower.Valid(F.Idle) && Matches(turns, looks) && |turns| <= |looks|
      invariant GoesOn(turns, |turns|) && quiet == QuietRun(turns) < STABLE_EOF_POLLS
      invariant silent == (follower.script == []) && (old(follower.script) == [] ==> silent)
      invariant end == Following
      decreases |looks| - |turns|
    {
      var look := looks[|turns|];
      var forwarded := follower.Poll();
      silent := follower.script == [];
      OneTurnOn(turns, TurnOf(forwarded, look), looks);
      turns := turns + [TurnOf(forwarded, look)];
      if forwarded > 0 {
        quiet := 0;
      } else if look.booted {
        if look.running {
          quiet := 0;
        } else {
          quiet := quiet + 1;
          if quiet >= STABLE_EOF_POLLS {
            end := Ended;
            LastDrain(follower);
            return;
          }
        }
      }
      if look.cancelled {
        end := Detached;
        LastDrain(follower);
        return;
      }
    }
  }
}
