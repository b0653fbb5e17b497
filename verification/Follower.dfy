/** The console follower against the writer that appends to the capture, rotates it and has it swept:
    every interleaving of their file operations. A generation is one file the capture's path has led
    to; the path leads to the newest one or to nothing. */
module Follower {
  import opened Wrappers

  /** The follower's read buffer. */
  const BUFFER: nat := 65536

  /** The files, oldest first, and where the path leads. */
  datatype World = World(gens: seq<string>, at: Option<nat>)

  /** `Leave` is the rename of a rotation or the sweep's unlink; `Create` is the writer's reopening. */
  datatype Event = Append(bytes: string) | Leave | Create

  predicate Enabled(w: World, e: Event) {
    match e
    case Append(_) => w.at == Some(|w.gens| - 1) && |w.gens| > 0
    case Leave => w.at.Some?
    case Create => w.at.None?
  }

  function Applied(w: World, e: Event): World
    requires Enabled(w, e)
  {
    match e
    case Append(bytes) => w.(gens := w.gens[|w.gens| - 1 := w.gens[|w.gens| - 1] + bytes])
    case Leave => w.(at := None)
    case Create => World(w.gens + [""], Some(|w.gens|))
  }

  /** Where `poll` stands between two file operations. */
  datatype Place = Idle | Opening | Reading | Checking

  /** `base[k]` and `mark[k]` say how much of generation `k` lay before the follower began and how
      far it has read since. */
  datatype State = State(world: World, place: Place, open: Option<nat>, sink: string,
                         base: seq<nat>, mark: seq<nat>)

  /** What the generations hold between two marks, in writing order. */
  function Pieces(gens: seq<string>, from: seq<nat>, to: seq<nat>): string
    requires |from| == |to| == |gens|
    requires forall k | 0 <= k < |gens| :: from[k] <= to[k] <= |gens[k]|
  {
    if gens == [] then ""
    else
      var n := |gens| - 1;
      Pieces(gens[..n], from[..n], to[..n]) + gens[n][from[n]..to[n]]
  }

  function Lengths(gens: seq<string>): seq<nat> {
    seq(|gens|, k requires 0 <= k < |gens| => |gens[k]|)
  }

  /** The follower has yet to open this generation, or reads it, or has moved on; it has read nothing
      of any newer one. */
  ghost predicate Inv(s: State) {
    var n := |s.world.gens|;
    && |s.base| == |s.mark| == n
    && (forall k | 0 <= k < n :: s.base[k] <= s.mark[k] <= |s.world.gens[k]|)
    && (s.world.at.Some? ==> s.world.at.value == n - 1)
    && (s.open.Some? ==> s.open.value < n)
    && (s.open.Some? ==> forall k | s.open.value < k < n :: s.mark[k] == 0)
    && (s.open.None? && s.world.at.Some? ==> s.mark[n - 1] == 0)
    && (s.place in {Reading, Checking} ==> s.open.Some?)
    && (s.place == Opening ==> s.open.None?)
    && s.sink == Pieces(s.world.gens, s.base, s.mark)
  }

  /** `resuming`: what exists already is skipped, and an existing capture is held open at its end. */
  function Resumed(w: World): State {
    State(w, Idle, w.at, "", Lengths(w.gens), Lengths(w.gens))
  }

  function Owed(s: State, k: nat): int
    requires k < |s.world.gens| && k < |s.mark|
  {
    |s.world.gens[k]| - s.mark[k]
  }

  // The steps.

  ghost predicate WriterStep(a: State, e: Event, b: State) {
    && Enabled(a.world, e)
    && b == a.(world := Applied(a.world, e),
               base := if e.Create? then a.base + [0] else a.base,
               mark := if e.Create? then a.mark + [0] else a.mark)
  }

  ghost predicate ReadStep(a: State, count: nat, b: State)
    requires Inv(a) && a.place == Reading
  {
    var g := a.open.value;
    && count <= 65_536 && count <= Owed(a, g)
    && b == a.(sink := a.sink + a.world.gens[g][a.mark[g]..a.mark[g] + count],
               mark := a.mark[g := a.mark[g] + count],
               place := if count == 0 then Checking else Reading)
    && (count == 0 <==> Owed(a, g) == 0)
  }

  ghost predicate FollowerStep(a: State, b: State)
    requires Inv(a)
  {
    match a.place
    case Idle => b == a.(place := if a.open.None? then Opening else Reading)
    case Opening =>
      if a.world.at.Some? then b == a.(open := a.world.at, place := Reading) else b == a.(place := Idle)
    case Reading => exists count: nat :: ReadStep(a, count, b)
    case Checking =>
      if a.world.at == a.open then b == a.(place := Idle)
      else b == a.(open := None, place := if a.world.at.Some? then Opening else Idle)
  }

  ghost predicate Next(a: State, b: State)
    requires Inv(a)
  {
    FollowerStep(a, b) || exists e :: WriterStep(a, e, b)
  }

  lemma {:induction false} PiecesSame(gens: seq<string>, more: seq<string>, from: seq<nat>, to: seq<nat>)
    requires |from| == |to| == |gens| == |more|
    requires forall k | 0 <= k < |gens| :: from[k] <= to[k] <= |gens[k]|
    requires forall k | 0 <= k < |gens| :: gens[k] <= more[k]
    ensures Pieces(gens, from, to) == Pieces(more, from, to)
  {
    if gens != [] {
      var n := |gens| - 1;
      PiecesSame(gens[..n], more[..n], from[..n], to[..n]);
      assert gens[n][from[n]..to[n]] == more[n][from[n]..to[n]];
    }
  }

  /** Reading on in a generation appends to the sink, when nothing of a newer one was read. */
  lemma {:induction false} PiecesGrow(gens: seq<string>, from: seq<nat>, to: seq<nat>, g: nat, count: nat)
    requires |from| == |to| == |gens| && g < |gens|
    requires forall k | 0 <= k < |gens| :: from[k] <= to[k] <= |gens[k]|
    requires forall k | g < k < |gens| :: to[k] == 0
    requires to[g] + count <= |gens[g]|
    ensures Pieces(gens, from, to[g := to[g] + count])
            == Pieces(gens, from, to) + gens[g][to[g]..to[g] + count]
  {
    hide Pieces;
    var n := |gens| - 1;
    var on := to[g := to[g] + count];
    if g == n {
      assert on[..n] == to[..n];
      LastPieceGrows(gens, from, to, on);
    } else {
      PiecesGrow(gens[..n], from[..n], to[..n], g, count);
      UnreadPieceAddsNothing(gens, from, to);
      UnreadPieceAddsNothing(gens, from, on);
      assert on[..n] == to[..n][g := to[..n][g] + count];
    }
  }

  lemma LastPieceGrows(gens: seq<string>, from: seq<nat>, to: seq<nat>, on: seq<nat>)
    requires |from| == |to| == |on| == |gens| > 0
    requires forall k | 0 <= k < |gens| :: from[k] <= to[k] <= on[k] <= |gens[k]|
    requires on[..|gens| - 1] == to[..|gens| - 1]
    ensures var n := |gens| - 1; Pieces(gens, from, on) == Pieces(gens, from, to) + gens[n][to[n]..on[n]]
  {
    var n := |gens| - 1;
    LastPiece(gens, from, to);
    LastPiece(gens, from, on);
    hide Pieces;
    ReadOn(Pieces(gens[..n], from[..n], to[..n]), gens[n], from[n], to[n], on[n]);
  }

  lemma ReadOn(sink: string, text: string, from: nat, to: nat, on: nat)
    requires from <= to <= on <= |text|
    ensures sink + text[from..on] == sink + text[from..to] + text[to..on]
  {
    assert text[from..on] == text[from..to] + text[to..on];
  }

  lemma LastPiece(gens: seq<string>, from: seq<nat>, to: seq<nat>)
    requires |from| == |to| == |gens| > 0
    requires forall k | 0 <= k < |gens| :: from[k] <= to[k] <= |gens[k]|
    ensures var n := |gens| - 1;
            Pieces(gens, from, to) == Pieces(gens[..n], from[..n], to[..n]) + gens[n][from[n]..to[n]]
  {
  }

  lemma UnreadPieceAddsNothing(gens: seq<string>, from: seq<nat>, to: seq<nat>)
    requires |from| == |to| == |gens| > 0
    requires forall k | 0 <= k < |gens| :: from[k] <= to[k] <= |gens[k]|
    requires to[|to| - 1] == 0
    ensures var n := |gens| - 1; Pieces(gens, from, to) == Pieces(gens[..n], from[..n], to[..n])
  {
  }

  lemma PiecesOfNew(gens: seq<string>, from: seq<nat>, to: seq<nat>)
    requires |from| == |to| == |gens|
    requires forall k | 0 <= k < |gens| :: from[k] <= to[k] <= |gens[k]|
    ensures Pieces(gens + [""], from + [0], to + [0]) == Pieces(gens, from, to)
  {
    var n := |gens|;
    assert (gens + [""])[..n] == gens && (from + [0])[..n] == from && (to + [0])[..n] == to;
  }

  lemma {:induction false} NothingBetween(gens: seq<string>, at: seq<nat>)
    requires |at| == |gens| && forall k | 0 <= k < |gens| :: at[k] <= |gens[k]|
    ensures Pieces(gens, at, at) == ""
  {
    if gens != [] {
      var n := |gens| - 1;
      NothingBetween(gens[..n], at[..n]);
    }
  }

  lemma ResumedIsInv(w: World)
    requires w.at.Some? ==> w.at.value == |w.gens| - 1
    ensures Inv(Resumed(w))
  {
    NothingBetween(w.gens, Lengths(w.gens));
  }

  lemma WriterKeepsInv(a: State, e: Event, b: State)
    requires Inv(a) && WriterStep(a, e, b)
    ensures Inv(b)
  {
    match e
    case Append(bytes) => AppendKeepsInv(a, bytes, b);
    case Create =>
      hide Pieces;
      PiecesOfNew(a.world.gens, a.base, a.mark);
    case Leave =>
      hide Pieces;
  }

  lemma AppendKeepsInv(a: State, bytes: string, b: State)
    requires Inv(a) && WriterStep(a, Append(bytes), b)
    ensures Inv(b)
  {
    hide Pieces;
    var n := |a.world.gens| - 1;
    assert forall k | 0 <= k <= n :: b.world.gens[k] == if k == n then a.world.gens[n] + bytes else a.world.gens[k];
    PiecesSame(a.world.gens, b.world.gens, a.base, a.mark);
  }

  lemma ReadKeepsInv(a: State, count: nat, b: State)
    requires Inv(a) && a.place == Reading && ReadStep(a, count, b)
    ensures Inv(b)
  {
    hide Pieces;
    var g := a.open.value;
    PiecesGrow(a.world.gens, a.base, a.mark, g, count);
    assert forall k | 0 <= k < |b.mark| :: b.mark[k] == if k == g then a.mark[g] + count else a.mark[k];
  }

  lemma FollowerKeepsInv(a: State, b: State)
    requires Inv(a) && FollowerStep(a, b)
    ensures Inv(b)
  {
    hide Pieces;
    if a.place == Reading {
      var count: nat :| ReadStep(a, count, b);
      ReadKeepsInv(a, count, b);
    }
  }

  /** The sink is, at every point of every interleaving, one contiguous range of each generation, in
      writing order. */
  lemma NextKeepsInv(a: State, b: State)
    requires Inv(a) && Next(a, b)
    ensures Inv(b)
  {
    if FollowerStep(a, b) {
      FollowerKeepsInv(a, b);
    } else {
      var e :| WriterStep(a, e, b);
      WriterKeepsInv(a, e, b);
    }
  }

  // What is lost.

  /** A generation the follower holds or can still reach by the path. */
  predicate Reachable(s: State, k: nat) {
    s.open == Some(k) || s.world.at == Some(k)
  }

  /** Unread bytes of the first `n` generations, in those it can or cannot still reach. */
  function Unread(s: State, n: nat, reachable: bool): int
    requires n <= |s.world.gens| && n <= |s.mark|
  {
    if n == 0 then 0
    else Unread(s, n - 1, reachable) + if Reachable(s, n - 1) == reachable then Owed(s, n - 1) else 0
  }

  ghost function Lost(s: State): int
    requires Inv(s)
  {
    Unread(s, |s.world.gens|, false)
  }

  ghost function Pending(s: State): int
    requires Inv(s)
  {
    Unread(s, |s.world.gens|, true)
  }

  /** Everything written since the follower began. */
  ghost function Written(s: State): string
    requires Inv(s)
  {
    Pieces(s.world.gens, s.base, Lengths(s.world.gens))
  }

  lemma {:induction false} Conserved(gens: seq<string>, from: seq<nat>, to: seq<nat>, s: State)
    requires |from| == |to| == |gens| <= |s.world.gens| && |gens| <= |s.mark|
    requires forall k | 0 <= k < |gens| :: from[k] <= to[k] <= |gens[k]|
    requires gens == s.world.gens[..|gens|] && to == s.mark[..|gens|]
    ensures |Pieces(gens, from, Lengths(gens))|
            == |Pieces(gens, from, to)| + Unread(s, |gens|, false) + Unread(s, |gens|, true)
  {
    if gens != [] {
      var n := |gens| - 1;
      Conserved(gens[..n], from[..n], to[..n], s);
      assert Lengths(gens)[..n] == Lengths(gens[..n]);
    }
  }

  lemma {:induction false} UnreadIsNatural(s: State, n: nat, reachable: bool)
    requires n <= |s.world.gens| && n <= |s.mark|
    requires forall k | 0 <= k < n :: s.mark[k] <= |s.world.gens[k]|
    ensures Unread(s, n, reachable) >= 0
    ensures Unread(s, n, reachable) == 0 <==>
            forall k: nat | k < n && Reachable(s, k) == reachable :: Owed(s, k) == 0
  {
    if n > 0 { UnreadIsNatural(s, n - 1, reachable); }
  }

  /** Every byte written is in the sink, lost, or pending; the sink is the whole of it exactly when
      none is lost and none is pending. */
  lemma Conservation(s: State)
    requires Inv(s)
    ensures Lost(s) >= 0 && Pending(s) >= 0
    ensures |Written(s)| == |s.sink| + Lost(s) + Pending(s)
    ensures s.sink == Written(s) <==> Lost(s) == 0 && Pending(s) == 0
  {
    var n := |s.world.gens|;
    assert s.world.gens[..n] == s.world.gens && s.mark[..n] == s.mark;
    Conserved(s.world.gens, s.base, s.mark, s);
    UnreadIsNatural(s, n, false);
    UnreadIsNatural(s, n, true);
    if Lost(s) == 0 && Pending(s) == 0 {
      forall k: nat | k < n ensures s.mark[k] == |s.world.gens[k]| {
        assert Reachable(s, k) || !Reachable(s, k);
        assert Owed(s, k) == 0;
      }
      assert s.mark == Lengths(s.world.gens);
    }
  }

  /** The two ways to lose bytes: letting go of an open generation that was appended to since its last
      zero-length read, and losing the path to a generation that is not the open one while it holds
      anything. */
  ghost predicate Losing(a: State, b: State)
    requires Inv(a)
  {
    || (a.open.Some? && b.open.None? && Owed(a, a.open.value) > 0)
    || (a.world.at.Some? && b.world.at.None? && a.world.at != a.open && Owed(a, a.world.at.value) > 0)
  }

  lemma {:induction false} UnreadChanges(a: State, b: State, n: nat, g: nat)
    requires n <= |a.world.gens| <= |b.world.gens| && n <= |a.mark| && n <= |b.mark|
    requires forall k: nat | k < n && k != g :: Reachable(a, k) == Reachable(b, k)
    requires forall k: nat | k < n && !Reachable(b, k) :: Owed(a, k) == Owed(b, k)
    requires g < n ==> Reachable(a, g)
    ensures Unread(b, n, false) == Unread(a, n, false) + if g < n && !Reachable(b, g) then Owed(b, g) else 0
  {
    if n > 0 { UnreadChanges(a, b, n - 1, g); }
  }

  lemma WriterLosses(a: State, e: Event, b: State)
    requires Inv(a) && WriterStep(a, e, b)
    ensures Inv(b) && Lost(b) >= Lost(a)
    ensures Lost(b) > Lost(a) <==> Losing(a, b)
  {
    WriterKeepsInv(a, e, b);
    match e
    case Append(bytes) => AppendLosesNothing(a, bytes, b);
    case Leave => LeaveLosses(a, b);
    case Create => CreateLosesNothing(a, b);
  }

  lemma AppendLosesNothing(a: State, bytes: string, b: State)
    requires Inv(a) && Inv(b) && WriterStep(a, Append(bytes), b)
    ensures Lost(b) == Lost(a) && !Losing(a, b)
  {
    hide Pieces;
    var n := |a.world.gens|;
    assert forall k | 0 <= k < n - 1 :: b.world.gens[k] == a.world.gens[k];
    UnreadChanges(a, b, n, n);
  }

  lemma LeaveLosses(a: State, b: State)
    requires Inv(a) && Inv(b) && WriterStep(a, Leave, b)
    ensures Lost(b) >= Lost(a) && (Lost(b) > Lost(a) <==> Losing(a, b))
  {
    hide Pieces;
    UnreadChanges(a, b, |a.world.gens|, a.world.at.value);
  }

  lemma CreateLosesNothing(a: State, b: State)
    requires Inv(a) && Inv(b) && WriterStep(a, Create, b)
    ensures Lost(b) == Lost(a) && !Losing(a, b)
  {
    hide Pieces;
    var n := |a.world.gens|;
    assert forall k | 0 <= k < n :: b.world.gens[k] == a.world.gens[k] && b.mark[k] == a.mark[k];
    UnreadChanges(a, b, n, n);
    assert Reachable(b, n);
    assert Unread(b, n + 1, false) == Unread(b, n, false);
  }

  lemma FollowerLosses(a: State, b: State)
    requires Inv(a) && FollowerStep(a, b)
    ensures Inv(b) && Lost(b) >= Lost(a)
    ensures Lost(b) > Lost(a) <==> Losing(a, b)
  {
    FollowerKeepsInv(a, b);
    hide Pieces;
    var n := |a.world.gens|;
    if a.place == Reading {
      var count: nat :| ReadStep(a, count, b);
      UnreadChanges(a, b, n, n);
    } else {
      UnreadChanges(a, b, n, if a.open.Some? && b.open.None? then a.open.value else n);
    }
  }

  /** Loss is permanent, and only a losing step adds to it. */
  lemma LossGrowsExactlyAtLosingSteps(a: State, b: State)
    requires Inv(a) && Next(a, b)
    ensures Inv(b) && Lost(b) >= Lost(a)
    ensures Lost(b) > Lost(a) <==> Losing(a, b)
  {
    if FollowerStep(a, b) {
      FollowerLosses(a, b);
    } else {
      var e :| WriterStep(a, e, b);
      WriterLosses(a, e, b);
    }
  }

  lemma LostIsNatural(s: State)
    requires Inv(s)
    ensures Lost(s) >= 0
  {
    UnreadIsNatural(s, |s.world.gens|, false);
  }

  /** A run: every state leads to the next. */
  ghost predicate Run(states: seq<State>) {
    var n := |states| - 1;
    if n <= 0 then n == 0 && Inv(states[0])
    else Run(states[..n]) && Inv(states[n - 1]) && Next(states[n - 1], states[n])
  }

  ghost predicate NoLosingStep(states: seq<State>)
    requires Run(states)
  {
    var n := |states| - 1;
    n == 0 || (NoLosingStep(states[..n]) && !Losing(states[n - 1], states[n]))
  }

  lemma {:induction false} RunKeepsInv(states: seq<State>)
    requires Run(states)
    ensures states != [] && Inv(states[|states| - 1])
  {
    var n := |states| - 1;
    if n > 0 {
      NextKeepsInv(states[n - 1], states[n]);
    }
  }

  lemma NothingIsLostAtTheStart(w: World)
    requires Inv(Resumed(w))
    ensures Lost(Resumed(w)) == 0
  {
    UnreadIsNatural(Resumed(w), |w.gens|, false);
  }

  /** Over any run from `resuming`, nothing is lost exactly when no step of it is a losing one. */
  lemma {:induction false} NothingIsLostExactlyWithoutLosingSteps(w: World, states: seq<State>)
    requires Run(states) && states[0] == Resumed(w)
    ensures Inv(states[|states| - 1])
    ensures Lost(states[|states| - 1]) == 0 <==> NoLosingStep(states)
  {
    hide Next, Inv, Lost, Losing, Resumed;
    RunKeepsInv(states);
    var n := |states| - 1;
    if n == 0 {
      NothingIsLostAtTheStart(w);
    } else {
      assert states[..n][n - 1] == states[n - 1];
      NothingIsLostExactlyWithoutLosingSteps(w, states[..n]);
      LossGrowsExactlyAtLosingSteps(states[n - 1], states[n]);
      LostIsNatural(states[n - 1]);
    }
  }

  // The same in terms of what happened.

  /** This step appends something to the generation the follower holds open. */
  ghost predicate AppendsToOpen(a: State, b: State) {
    exists text :: text != "" && WriterStep(a, Append(text), b) && a.world.at == a.open
  }

  /** This step is the identity check that lets the open generation go. */
  ghost predicate LetsGo(a: State, b: State) {
    a.place == Checking && a.open.Some? && b.open.None?
  }

  /** This step takes from the path a generation that holds something and is not the open one. */
  ghost predicate LeavesUnopened(a: State, b: State) {
    exists g: nat :: g < |a.world.gens| && a.world.at == Some(g) && a.world.gens[g] != "" && a.open != Some(g)
                     && WriterStep(a, Leave, b)
  }

  /** The run has stood at its last identity check since a zero-length read, and since that read something
      was appended to the open generation. */
  ghost predicate AppendedSinceZeroRead(states: seq<State>)
    requires Run(states)
  {
    var n := |states| - 1;
    && n > 0 && states[n - 1].place == Checking && states[n].place == Checking
    && (AppendsToOpen(states[n - 1], states[n]) || AppendedSinceZeroRead(states[..n]))
  }

  /** No append to the open generation fell between its last zero-length read and the check that let it
      go, and no generation that held anything left the path without being the open one. */
  ghost predicate NothingSlips(states: seq<State>)
    requires Run(states)
  {
    var n := |states| - 1;
    n == 0 || (&& NothingSlips(states[..n])
               && !(LetsGo(states[n - 1], states[n]) && AppendedSinceZeroRead(states[..n]))
               && !LeavesUnopened(states[n - 1], states[n]))
  }

  lemma OwedGrowsByAppends(a: State, b: State)
    requires Inv(a) && Next(a, b) && a.place == Checking && b.place == Checking
    ensures Inv(b) && a.open == b.open && a.open.value < |a.world.gens|
    ensures Owed(b, b.open.value) >= Owed(a, a.open.value)
    ensures Owed(b, b.open.value) > Owed(a, a.open.value) <==> AppendsToOpen(a, b)
  {
    assert !FollowerStep(a, b);
    var e :| WriterStep(a, e, b);
    WriterOwes(a, e, b);
  }

  lemma WriterOwes(a: State, e: Event, b: State)
    requires Inv(a) && WriterStep(a, e, b) && a.open.Some?
    ensures Inv(b) && a.open == b.open && a.open.value < |a.world.gens|
    ensures Owed(b, b.open.value) >= Owed(a, a.open.value)
    ensures Owed(b, b.open.value) > Owed(a, a.open.value) <==> AppendsToOpen(a, b)
  {
    WriterKeepsInv(a, e, b);
    hide Pieces;
    match e
    case Append(bytes) =>
      if bytes != "" && a.world.at == a.open { assert AppendsToOpen(a, b); }
    case Leave =>
    case Create =>
  }

  lemma ZeroReadOwesNothing(a: State, b: State)
    requires Inv(a) && Next(a, b) && a.place != Checking && b.place == Checking
    ensures Inv(b) && Owed(b, b.open.value) == 0
  {
    NextKeepsInv(a, b);
    hide Pieces;
    if FollowerStep(a, b) {
      var count: nat :| ReadStep(a, count, b);
    }
  }

  /** At an identity check the open generation owes bytes exactly when something was appended to it since
      its last zero-length read. */
  lemma {:induction false} OwedMeansAppended(w: World, states: seq<State>)
    requires Run(states) && states[0] == Resumed(w)
    ensures var last := states[|states| - 1];
            && Inv(last)
            && (last.place == Checking ==> (Owed(last, last.open.value) > 0 <==> AppendedSinceZeroRead(states)))
  {
    hide Next, Pieces, AppendsToOpen;
    RunKeepsInv(states);
    var n := |states| - 1;
    if n > 0 && states[n].place == Checking {
      assert states[..n][n - 1] == states[n - 1];
      if states[n - 1].place == Checking {
        OwedMeansAppended(w, states[..n]);
        OwedGrowsByAppends(states[n - 1], states[n]);
      } else {
        ZeroReadOwesNothing(states[n - 1], states[n]);
      }
    }
  }

  lemma LosingIsSlipping(a: State, b: State)
    requires Inv(a) && Next(a, b)
    ensures LetsGo(a, b) <==> a.open.Some? && b.open.None?
    ensures LeavesUnopened(a, b) <==>
              a.world.at.Some? && b.world.at.None? && a.world.at != a.open && Owed(a, a.world.at.value) > 0
  {
    hide Pieces;
    if a.world.at.Some? && b.world.at.None? {
      assert WriterStep(a, Leave, b);
    }
  }

  /** Over any run from `resuming`, nothing is lost exactly when nothing slips. */
  lemma {:induction false} NothingIsLostExactlyWhenNothingSlips(w: World, states: seq<State>)
    requires Run(states) && states[0] == Resumed(w)
    ensures Inv(states[|states| - 1])
    ensures NoLosingStep(states) <==> NothingSlips(states)
    ensures Lost(states[|states| - 1]) == 0 <==> NothingSlips(states)
  {
    hide Next, Inv, LeavesUnopened, AppendedSinceZeroRead, Lost, Resumed;
    NothingIsLostExactlyWithoutLosingSteps(w, states);
    var n := |states| - 1;
    if n > 0 {
      assert states[..n][n - 1] == states[n - 1];
      NothingIsLostExactlyWhenNothingSlips(w, states[..n]);
      OwedMeansAppended(w, states[..n]);
      LosingIsSlipping(states[n - 1], states[n]);
      SlippingStep(w, states);
    }
  }

  /** A step is a losing one exactly when something slips at it. */
  lemma SlippingStep(w: World, states: seq<State>)
    requires Run(states) && |states| > 1 && states[0] == Resumed(w)
    ensures var n := |states| - 1;
            Losing(states[n - 1], states[n]) <==>
              || (LetsGo(states[n - 1], states[n]) && AppendedSinceZeroRead(states[..n]))
              || LeavesUnopened(states[n - 1], states[n])
  {
    hide Next, LeavesUnopened, AppendedSinceZeroRead, Lost, Resumed, Pieces;
    var n := |states| - 1;
    assert states[..n][n - 1] == states[n - 1];
    OwedMeansAppended(w, states[..n]);
    LosingIsSlipping(states[n - 1], states[n]);
  }

  /** When the last identity check of a poll finds its generation drained, nothing is pending: the sink
      is exactly what was written and not lost. */
  lemma AQuietPollIsComplete(a: State, b: State)
    requires Inv(a) && a.place == Checking && FollowerStep(a, b) && b.place == Idle
    requires Owed(a, a.open.value) == 0
    ensures Inv(b) && Pending(b) == 0
    ensures Lost(b) == 0 ==> b.sink == Written(b)
  {
    NextKeepsInv(a, b);
    UnreadIsNatural(b, |b.world.gens|, true);
    Conservation(b);
  }

  // Two ways the loss happens although every read was drained.

  lemma RunExtends(states: seq<State>, s: State)
    requires Run(states) && Inv(states[|states| - 1]) && Next(states[|states| - 1], s)
    ensures Run(states + [s]) && Inv(s)
    ensures NoLosingStep(states + [s]) <==> NoLosingStep(states) && !Losing(states[|states| - 1], s)
  {
    NextKeepsInv(states[|states| - 1], s);
    hide Next, Inv, Losing;
    assert (states + [s])[..|states|] == states;
  }

  lemma AppendStep(a: State, text: string)
    requires Inv(a) && Enabled(a.world, Append(text))
    ensures Next(a, a.(world := Applied(a.world, Append(text))))
  {
    assert WriterStep(a, Append(text), a.(world := Applied(a.world, Append(text))));
  }

  lemma LeaveStep(a: State)
    requires Inv(a) && a.world.at.Some?
    ensures Next(a, a.(world := a.world.(at := None)))
  {
    assert WriterStep(a, Leave, a.(world := a.world.(at := None)));
  }

  lemma CreateStep(a: State)
    requires Inv(a) && a.world.at.None?
    ensures var grown := World(a.world.gens + [""], Some(|a.world.gens|));
            Next(a, a.(world := grown, base := a.base + [0], mark := a.mark + [0]))
  {
    assert WriterStep(a, Create, a.(world := Applied(a.world, Create), base := a.base + [0], mark := a.mark + [0]));
  }

  /** Some run from `resuming` ends in `s`. */
  ghost predicate Reaches(w: World, s: State) {
    exists states :: Run(states) && states[0] == Resumed(w) && states[|states| - 1] == s
  }

  lemma ReachesNext(w: World, a: State, b: State)
    requires Reaches(w, a) && Inv(a) && Next(a, b)
    ensures Reaches(w, b) && Inv(b)
  {
    hide Next, Inv;
    var states :| Run(states) && states[0] == Resumed(w) && states[|states| - 1] == a;
    RunExtends(states, b);
    assert (states + [b])[0] == Resumed(w);
  }

  lemma ReachesResumed(w: World)
    requires w.at.Some? ==> w.at.value == |w.gens| - 1
    ensures Reaches(w, Resumed(w)) && Inv(Resumed(w))
  {
    ResumedIsInv(w);
    assert Run([Resumed(w)]);
  }

  lemma Begin(a: State)
    requires Inv(a) && a.place == Idle && a.open.Some?
    ensures Next(a, a.(place := Reading))
  {
  }

  lemma ReadNothing(a: State)
    requires Inv(a) && a.place == Reading && Owed(a, a.open.value) == 0
    ensures Next(a, a.(place := Checking))
  {
    assert ReadStep(a, 0, a.(place := Checking));
  }

  lemma LetGo(a: State)
    requires Inv(a) && a.place == Checking && a.world.at != a.open
    ensures Next(a, a.(open := None, place := if a.world.at.Some? then Opening else Idle))
  {
  }

  /** Such a point is reached whenever a capture exists. */
  lemma ADrainedPointIsReached(w: World)
    requires w.at.Some? && w.at.value == |w.gens| - 1
    ensures var drained := Resumed(w).(place := Checking);
            Reaches(w, drained) && Inv(drained) && Owed(drained, |w.gens| - 1) == 0
  {
    hide Reaches, Next, Pieces;
    ReachesResumed(w);
    Begin(Resumed(w));
    ReachesNext(w, Resumed(w), Resumed(w).(place := Reading));
    ReadNothing(Resumed(w).(place := Reading));
    ReachesNext(w, Resumed(w).(place := Reading), Resumed(w).(place := Checking));
  }

  /** From any point where the follower has just drained the newest generation, an append before the
      stat that finds the path gone is lost. */
  lemma AnAppendBeforeTheStatIsLost(w: World, drained: State, text: string) returns (last: State)
    requires Reaches(w, drained) && Inv(drained) && text != ""
    requires drained.place == Checking && drained.open == drained.world.at && Owed(drained, drained.open.value) == 0
    ensures Reaches(w, last) && Inv(last) && last.place == Idle && Lost(last) > Lost(drained)
  {
    hide Reaches, Next, Lost, Pieces;
    AppendStep(drained, text);
    var appended := drained.(world := Applied(drained.world, Append(text)));
    ReachesNext(w, drained, appended);
    LossGrowsExactlyAtLosingSteps(drained, appended);
    LeaveStep(appended);
    var left := appended.(world := appended.world.(at := None));
    ReachesNext(w, appended, left);
    LossGrowsExactlyAtLosingSteps(appended, left);
    LetGo(left);
    last := left.(open := None, place := Idle);
    ReachesNext(w, left, last);
    LossGrowsExactlyAtLosingSteps(left, last);
  }

  /** One rotation after each of two identity checks is enough to lose a whole generation, although
      each check finds a drained one: the newer is rotated away between the stat that saw it and the
      open that follows. At most one rotation between two checks is therefore not enough. */
  lemma ARotationBeforeTheOpenIsLost(w: World, drained: State, text: string) returns (last: State)
    requires Reaches(w, drained) && Inv(drained) && text != ""
    requires drained.place == Checking && drained.open == drained.world.at && Owed(drained, drained.open.value) == 0
    ensures Reaches(w, last) && Inv(last) && last.place == Opening && Lost(last) > Lost(drained)
    ensures |last.world.gens| == |drained.world.gens| + 1
  {
    hide Reaches, Next, Pieces, Lost;
    LeaveStep(drained);
    var left := drained.(world := drained.world.(at := None));
    ReachesNext(w, drained, left);
    LossGrowsExactlyAtLosingSteps(drained, left);
    CreateStep(left);
    var created := left.(world := World(left.world.gens + [""], Some(|left.world.gens|)),
                         base := left.base + [0], mark := left.mark + [0]);
    ReachesNext(w, left, created);
    LossGrowsExactlyAtLosingSteps(left, created);
    LetGo(created);
    var opening := created.(open := None, place := Opening);
    ReachesNext(w, created, opening);
    LossGrowsExactlyAtLosingSteps(created, opening);
    AppendStep(opening, text);
    var appended := opening.(world := Applied(opening.world, Append(text)));
    ReachesNext(w, opening, appended);
    LossGrowsExactlyAtLosingSteps(opening, appended);
    LeaveStep(appended);
    last := appended.(world := appended.world.(at := None));
    ReachesNext(w, appended, last);
    LossGrowsExactlyAtLosingSteps(appended, last);
  }

  /** A poll ends where the path leads nowhere, or where the stat after a drained generation finds that
      generation or nothing at its path. */
  ghost predicate Concluded(trace: seq<State>) {
    var n := |trace| - 1;
    && n >= 1 && Inv(trace[n - 1]) && FollowerStep(trace[n - 1], trace[n])
    && trace[n - 1].place in {Opening, Checking} && trace[n].place == Idle
  }

  /** An open generation and how far into it the descriptor stands. */
  datatype Opened = Opened(gen: nat, offset: nat)

  /** One follow of the console capture, beside a writer that does what is left of `script` whenever
      the follower is between two file operations. */
  class Follower {
    var world: World
    var script: seq<Event>
    var open: Option<Opened>
    var sink: string
    ghost var base: seq<nat>
    ghost var mark: seq<nat>
    ghost var trace: seq<State>

    ghost function Now(place: Place): State
      reads this
    {
      State(world, place, if open.Some? then Some(open.value.gen) else None, sink, base, mark)
    }

    /** What was done so far is a run of the steps above that ends here. */
    ghost predicate Valid(place: Place)
      reads this
    {
      && trace != [] && Run(trace) && trace[|trace| - 1] == Now(place) && Inv(Now(place))
      && (open.Some? ==> open.value.offset == mark[open.value.gen])
    }

    /** `resuming`. */
    constructor (world: World, script: seq<Event>)
      requires world.at.Some? ==> world.at.value == |world.gens| - 1
      ensures Valid(Idle) && trace == [Resumed(world)] && this.world == world && this.script == script
    {
      this.world, this.script, sink := world, script, "";
      open := if world.at.Some? then Some(Opened(world.at.value, |world.gens[world.at.value]|)) else None;
      base, mark, trace := Lengths(world.gens), Lengths(world.gens), [Resumed(world)];
      new;
      ResumedIsInv(world);
    }

    ghost method Log(after: Place)
      requires Run(trace) && Inv(trace[|trace| - 1]) && Next(trace[|trace| - 1], Now(after))
      requires open.Some? && open.value.gen < |mark| ==> open.value.offset == mark[open.value.gen]
      modifies this`trace
      ensures trace == old(trace) + [Now(after)] && Valid(after)
    {
      hide Next;
      RunExtends(trace, Now(after));
      trace := trace + [Now(after)];
      hide Run;
    }

    /** The writer does some of what is left of its script; an event that cannot happen yet waits. */
    method Writer(ghost place: Place)
      requires Valid(place)
      modifies this`world, this`script, this`base, this`mark, this`trace
      ensures Valid(place) && old(trace) <= trace
      ensures |script| <= |old(script)| && |world.gens| + |script| <= |old(world).gens| + |old(script)|
      ensures |world.gens| >= |old(world).gens|
      ensures |script| == |old(script)| ==> world == old(world) && mark == old(mark)
      ensures world.at.Some? && world.at != old(world).at ==> |world.gens| > |old(world).gens|
    {
      hide Next, Run, Pieces;
      var more: bool := *;
      while more && script != [] && Enabled(world, script[0])
        invariant Valid(place) && old(trace) <= trace
        invariant |script| <= |old(script)| && |world.gens| + |script| <= |old(world).gens| + |old(script)|
        invariant |world.gens| >= |old(world).gens|
        invariant world.at.Some? && world.at != old(world).at ==> |world.gens| > |old(world).gens|
        invariant |script| < |old(script)| || (script == old(script) && world == old(world) && mark == old(mark))
        decreases |script|
      {
        var e := script[0];
        ghost var before := Now(place);
        world, script := Applied(world, e), script[1..];
        if e.Create? { base, mark := base + [0], mark + [0]; }
        WriterNext(before, e, Now(place));
        Log(place);
        more := *;
      }
    }

    /** One read of at most a buffer's worth; it returns nothing exactly at the end of the file. */
    method Read() returns (count: nat)
      requires Valid(Reading)
      modifies this`open, this`sink, this`mark, this`trace
      ensures Valid(if count == 0 then Checking else Reading) && old(trace) <= trace
      ensures open.Some? && open.value.gen == old(open).value.gen && |sink| == |old(sink)| + count
      ensures old(sink) <= sink
      ensures mark == old(mark)[open.value.gen := old(mark)[open.value.gen] + count]
      ensures count == 0 <==> |world.gens[open.value.gen]| == old(mark)[open.value.gen]
    {
      hide Next, Run, Pieces;
      var held := open.value;
      var text := world.gens[held.gen];
      var left := |text| - held.offset;
      count := if left < BUFFER then left else BUFFER;
      var short: nat := *;
      if 0 < short < count { count := short; }
      ghost var before := Now(Reading);
      sink := sink + text[held.offset..held.offset + count];
      open := Some(Opened(held.gen, held.offset + count));
      mark := mark[held.gen := mark[held.gen] + count];
      ReadNext(before, count, Now(if count == 0 then Checking else Reading));
      Log(if count == 0 then Checking else Reading);
    }

    /** The read loop: forward until a read returns nothing. */
    method Drain(before: nat) returns (forwarded: nat)
      requires Valid(Reading)
      modifies this
      ensures Valid(Checking) && old(trace) <= trace && old(sink) <= sink
      ensures |world.gens[open.value.gen]| == mark[open.value.gen]
      ensures old(script) == [] ==> script == [] && world == old(world)
      ensures forwarded == before + |sink| - |old(sink)|
      ensures open.Some? && open.value.gen == old(open).value.gen
      ensures |world.gens| + |script| <= |old(world).gens| + |old(script)|
    {
      hide Next, Run, Pieces;
      forwarded := before;
      ghost var gen := open.value.gen;
      var count: nat := 1;
      while count > 0
        invariant Valid(if count == 0 then Checking else Reading)
        invariant old(trace) <= trace && old(sink) <= sink
        invariant forwarded == before + |sink| - |old(sink)|
        invariant open.Some? && open.value.gen == gen < |world.gens|
        invariant count == 0 ==> |world.gens[gen]| == mark[gen]
        invariant old(script) == [] ==> script == [] && world == old(world)
        invariant |world.gens| + |script| <= |old(world).gens| + |old(script)|
        decreases |script|, |world.gens[gen]| - mark[gen], count
      {
        Writer(Reading);
        count := Read();
        forwarded := forwarded + count;
      }
    }

    /** Open whatever the path leads to. */
    method OpenPath() returns (found: bool)
      requires Valid(Opening)
      modifies this
      ensures Valid(if found then Reading else Idle) && old(trace) <= trace && sink == old(sink)
      ensures |world.gens| >= |old(world).gens|
      ensures |world.gens| + |script| <= |old(world).gens| + |old(script)|
      ensures found ==> open.Some? && open.value.gen == |world.gens| - 1
      ensures found && old(world).at.None? ==> |world.gens| > |old(world).gens|
      ensures old(script) == [] ==> script == [] && world == old(world)
      ensures !found ==> Concluded(trace) && Pending(Now(Idle)) == 0
    {
      hide Next, Run, Pieces;
      Writer(Opening);
      found := world.at.Some?;
      ghost var opening := Now(Opening);
      if found { open := Some(Opened(world.at.value, 0)); }
      FollowerNext(opening, Now(if found then Reading else Idle));
      Log(if found then Reading else Idle);
      assert trace[|trace| - 2] == opening;
      if !found { NothingReachable(Now(Idle)); }
    }

    /** The identity check on a drained generation: whether to open the newer one. */
    method Check() returns (again: bool)
      requires Valid(Checking)
      modifies this
      ensures Valid(if again then Opening else Idle) && old(trace) <= trace && sink == old(sink)
      ensures |world.gens| + |script| <= |old(world).gens| + |old(script)|
      ensures old(script) == [] ==> script == [] && world == old(world)
      ensures !again ==> Concluded(trace)
      ensures !again && old(script) == [] && |old(world).gens[old(open).value.gen]| == old(mark)[old(open).value.gen]
              ==> Pending(Now(Idle)) == 0
      ensures again ==> old(open).Some? && world.at.Some? && old(open).value.gen < |world.gens| - 1
    {
      hide Next, Run, Pieces;
      Writer(Checking);
      ghost var checking := Now(Checking);
      var same := world.at == Some(open.value.gen);
      if !same { open := None; }
      again := !same && world.at.Some?;
      FollowerNext(checking, Now(if again then Opening else Idle));
      Log(if again then Opening else Idle);
      assert trace[|trace| - 2] == checking;
      if !again && Owed(checking, checking.open.value) == 0 { AQuietPollIsComplete(checking, Now(Idle)); }
    }

    /** `poll`. Whatever the writer does meanwhile, it is a run of the steps above; it terminates with
        every byte it forwarded appended to the sink. */
    method Poll() returns (forwarded: nat)
      requires Valid(Idle)
      modifies this
      ensures Valid(Idle) && old(trace) <= trace
      ensures old(sink) <= sink && forwarded == |sink| - |old(sink)|
      ensures Concluded(trace)
      ensures old(script) == [] ==> script == [] && Pending(Now(Idle)) == 0
    {
      hide Next, Run, Inv;
      forwarded := 0;
      var opening := open.None?;
      ghost var done: nat := 0;
      BeginPoll();
      while true
        invariant Valid(if opening then Opening else Reading)
        invariant old(trace) <= trace && old(sink) <= sink && forwarded == |sink| - |old(sink)|
        invariant old(script) == [] ==> script == []
        invariant opening ==> done <= |world.gens| && (world.at.Some? ==> done < |world.gens|)
        invariant !opening ==> open.Some? && done <= open.value.gen < |world.gens|
        decreases |script| + |world.gens| - done
      {
        if opening {
          var found := OpenPath();
          if !found { return; }
        }
        ghost var gen := open.value.gen;
        forwarded := Drain(forwarded);
        opening := Check();
        if !opening { return; }
        done := gen + 1;
      }
    }

    method BeginPoll()
      requires Valid(Idle)
      modifies this`trace
      ensures Valid(if open.None? then Opening else Reading) && old(trace) <= trace
      ensures open.Some? ==> open.value.gen < |world.gens|
      ensures world.at.Some? ==> |world.gens| > 0
    {
      hide Next, Run, Pieces;
      FollowerNext(Now(Idle), Now(if open.None? then Opening else Reading));
      Log(if open.None? then Opening else Reading);
    }
  }

  lemma NothingReachable(s: State)
    requires Inv(s) && s.open.None? && s.world.at.None?
    ensures Pending(s) == 0
  {
    UnreadIsNatural(s, |s.world.gens|, true);
  }

  lemma WriterNext(a: State, e: Event, b: State)
    requires Inv(a) && WriterStep(a, e, b)
    ensures Next(a, b)
  {
  }

  lemma ReadNext(a: State, count: nat, b: State)
    requires Inv(a) && a.place == Reading && ReadStep(a, count, b)
    ensures Next(a, b)
  {
  }

  lemma FollowerNext(a: State, b: State)
    requires Inv(a) && FollowerStep(a, b)
    ensures Next(a, b)
  {
  }
}
