/** The union of the flake inputs that a composition's artifacts declare. */
module Inputs {
  import opened Wrappers

  datatype Source = Source(url: string, flake: bool)

  datatype Declarer = Declarer(kind: string, name: string, path: string)

  /** One artifact's parsed declarations: a name at most once. */
  datatype Artifact = Artifact(declarer: Declarer, declared: map<string, Source>)

  /** One input of the union, with every artifact that declared it. */
  datatype Input = Input(source: Source, declarers: seq<Declarer>)

  datatype Conflict = Conflict(name: string, first: Declarer, second: Declarer)

  /** No name is declared with two different sources. */
  ghost predicate Agree(artifacts: seq<Artifact>) {
    forall a, b, name | a in artifacts && b in artifacts && name in a.declared && name in b.declared ::
      a.declared[name] == b.declared[name]
  }

  function Names(artifacts: seq<Artifact>): set<string> {
    set a, name | a in artifacts && name in a.declared :: name
  }

  /** Who declares a name, in the order the artifacts come. */
  function Declaring(artifacts: seq<Artifact>, name: string): seq<Declarer> {
    if artifacts == [] then []
    else
      var last := artifacts[|artifacts| - 1];
      Declaring(artifacts[..|artifacts| - 1], name) + if name in last.declared then [last.declarer] else []
  }

  /** The union a reader expects: each declared name with the source everybody gave it and each of its
      declarers once. */
  ghost predicate IsUnion(union: map<string, Input>, artifacts: seq<Artifact>) {
    && union.Keys == Names(artifacts)
    && (forall a, name | a in artifacts && name in a.declared ::
          name in union && union[name].source == a.declared[name])
    && (forall name | name in union :: union[name].declarers == Declaring(artifacts, name))
  }

  function Merged(union: map<string, Input>, a: Artifact): map<string, Input> {
    map name | name in union.Keys + a.declared.Keys ::
      if name !in a.declared then union[name]
      else if name in union then Input(union[name].source, union[name].declarers + [a.declarer])
      else Input(a.declared[name], [a.declarer])
  }

  predicate Compatible(union: map<string, Input>, a: Artifact) {
    forall name | name in union && name in a.declared :: union[name].source == a.declared[name]
  }

  predicate Attributed(union: map<string, Input>) {
    forall name | name in union :: union[name].declarers != []
  }

  lemma DeclaringOfPush(artifacts: seq<Artifact>, a: Artifact, name: string)
    ensures Declaring(artifacts + [a], name)
            == Declaring(artifacts, name) + if name in a.declared then [a.declarer] else []
  {
    assert (artifacts + [a])[..|artifacts|] == artifacts;
  }

  lemma {:induction false} DeclaringSomeone(artifacts: seq<Artifact>, name: string)
    ensures Declaring(artifacts, name) != [] <==> name in Names(artifacts)
  {
    if artifacts != [] {
      var n := |artifacts| - 1;
      DeclaringSomeone(artifacts[..n], name);
      assert artifacts == artifacts[..n] + [artifacts[n]];
      assert forall a :: a in artifacts <==> a in artifacts[..n] || a == artifacts[n];
    }
  }

  lemma AgreeWithOneMore(union: map<string, Input>, artifacts: seq<Artifact>, a: Artifact)
    requires IsUnion(union, artifacts)
    ensures Agree(artifacts) && Compatible(union, a) <==> Agree(artifacts + [a])
  {
    var more := artifacts + [a];
    assert forall x :: x in more <==> x in artifacts || x == a;
    if Agree(more) {
      forall name | name in union && name in a.declared ensures union[name].source == a.declared[name] {
        assert name in Names(artifacts);
        var b :| b in artifacts && name in b.declared;
      }
    }
  }

  lemma MergedDeclarers(union: map<string, Input>, artifacts: seq<Artifact>, a: Artifact, name: string)
    requires union.Keys == Names(artifacts)
    requires name in union ==> union[name].declarers == Declaring(artifacts, name)
    requires name in union || name in a.declared
    ensures Merged(union, a)[name].declarers == Declaring(artifacts + [a], name)
  {
    DeclaringOfPush(artifacts, a, name);
    DeclaringSomeone(artifacts, name);
  }

  lemma MergedNames(union: map<string, Input>, artifacts: seq<Artifact>, a: Artifact)
    requires union.Keys == Names(artifacts)
    ensures Merged(union, a).Keys == Names(artifacts + [a])
  {
    var more := artifacts + [a];
    assert forall x :: x in more <==> x in artifacts || x == a;
    forall name ensures name in Names(more) <==> name in Names(artifacts) || name in a.declared {
      if name in Names(artifacts) {
        var b :| b in artifacts && name in b.declared;
        assert b in more;
      } else if name in a.declared {
        assert a in more;
      }
    }
  }

  lemma MergedSources(union: map<string, Input>, artifacts: seq<Artifact>, a: Artifact, b: Artifact, name: string)
    requires IsUnion(union, artifacts) && Compatible(union, a) && b in artifacts + [a] && name in b.declared
    ensures name in Merged(union, a) && Merged(union, a)[name].source == b.declared[name]
  {
    assert b in artifacts || b == a;
  }

  /** One more artifact. */
  lemma MergedIsUnion(union: map<string, Input>, artifacts: seq<Artifact>, a: Artifact)
    requires IsUnion(union, artifacts) && Compatible(union, a)
    ensures IsUnion(Merged(union, a), artifacts + [a])
  {
    MergedNames(union, artifacts, a);
    forall b, name | b in artifacts + [a] && name in b.declared
      ensures name in Merged(union, a) && Merged(union, a)[name].source == b.declared[name]
    {
      MergedSources(union, artifacts, a, b, name);
    }
    forall name | name in Merged(union, a)
      ensures Merged(union, a)[name].declarers == Declaring(artifacts + [a], name)
    {
      MergedDeclarers(union, artifacts, a, name);
    }
    hide Merged, Declaring, Names;
  }

  /** The part of an artifact that was looked at. */
  function Part(a: Artifact, done: set<string>): Artifact {
    Artifact(a.declarer, map name | name in a.declared && name in done :: a.declared[name])
  }

  function Placed(union: map<string, Input>, a: Artifact, name: string): Input
    requires name in a.declared
  {
    if name in union then Input(union[name].source, union[name].declarers + [a.declarer])
    else Input(a.declared[name], [a.declarer])
  }

  lemma MergedOne(union: map<string, Input>, a: Artifact, done: set<string>, name: string)
    requires name in a.declared && name !in done
    ensures Merged(union, Part(a, done + {name})) == Merged(union, Part(a, done))[name := Placed(union, a, name)]
    ensures name in Merged(union, Part(a, done)) <==> name in union
    ensures name in union ==> Merged(union, Part(a, done))[name] == union[name]
  {
  }

  lemma MergedEnds(union: map<string, Input>, a: Artifact)
    ensures Merged(union, Part(a, {})) == union
    ensures Part(a, a.declared.Keys) == a
  {
  }

  /** The union while it is being built. */
  class InputUnion {
    var inputs: map<string, Input>

    constructor ()
      ensures inputs == map[]
    {
      inputs := map[];
    }

    /** `merge_inputs`. It fails exactly on an incompatible declaration, and names one with the first
        artifact that declared it and the one that disagrees. */
    method Merge(a: Artifact) returns (conflict: Option<Conflict>)
      requires Attributed(inputs)
      modifies this
      ensures Attributed(inputs)
      ensures conflict.None? <==> Compatible(old(inputs), a)
      ensures conflict.None? ==> inputs == Merged(old(inputs), a)
      ensures conflict.Some? ==>
                var name := conflict.value.name;
                && name in old(inputs) && name in a.declared && old(inputs)[name].source != a.declared[name]
                && conflict.value.first == old(inputs)[name].declarers[0] && conflict.value.second == a.declarer
    {
      hide Merged, Part;
      ghost var was := inputs;
      var done: set<string> := {};
      MergedEnds(was, a);
      while done != a.declared.Keys
        invariant done <= a.declared.Keys && Attributed(inputs)
        invariant inputs == Merged(was, Part(a, done))
        invariant forall name | name in was && name in done :: was[name].source == a.declared[name]
        decreases |a.declared.Keys - done|
      {
        var name :| name in a.declared.Keys - done;
        MergedOne(was, a, done, name);
        if name in inputs {
          var existing := inputs[name];
          if existing.source != a.declared[name] {
            return Some(Conflict(name, existing.declarers[0], a.declarer));
          }
          inputs := inputs[name := Input(existing.source, existing.declarers + [a.declarer])];
        } else {
          inputs := inputs[name := Input(a.declared[name], [a.declarer])];
        }
        assert a.declared.Keys - (done + {name}) < a.declared.Keys - done;
        done := done + {name};
      }
      conflict := None;
    }

    /** The inputs loop of `resolve`: it succeeds exactly when no name has two sources, with the union. */
    method Resolve(artifacts: seq<Artifact>) returns (conflict: Option<Conflict>)
      requires inputs == map[]
      modifies this
      ensures conflict.None? <==> Agree(artifacts)
      ensures conflict.None? ==> IsUnion(inputs, artifacts)
      ensures conflict.Some? ==>
                exists a, b | a in artifacts && b in artifacts ::
                  var name := conflict.value.name;
                  && name in a.declared && name in b.declared && a.declared[name] != b.declared[name]
                  && conflict.value.second == b.declarer
    {
      hide Merged, Agree;
      assert Agree([]) by { NobodyDisagrees(); }
      for k := 0 to |artifacts|
        invariant Attributed(inputs) && IsUnion(inputs, artifacts[..k]) && Agree(artifacts[..k])
      {
        var before, a := artifacts[..k], artifacts[k];
        assert artifacts[..k + 1] == before + [a];
        AgreeWithOneMore(inputs, before, a);
        if Compatible(inputs, a) { MergedIsUnion(inputs, before, a); }
        ghost var was := inputs;
        conflict := Merge(a);
        if conflict.Some? {
          var name := conflict.value.name;
          assert name in Names(before);
          ghost var first :| first in before && name in first.declared;
          assert first in artifacts && a in artifacts;
          FewerAgree(artifacts, k + 1);
          return;
        }
      }
      assert artifacts[..|artifacts|] == artifacts;
      conflict := None;
    }
  }

  lemma NobodyDisagrees()
    ensures Agree([])
  {
  }

  lemma FewerAgree(artifacts: seq<Artifact>, k: nat)
    requires k <= |artifacts|
    ensures Agree(artifacts) ==> Agree(artifacts[..k])
  {
  }

  // The order of the artifacts.

  lemma {:induction false} DeclaringOfBoth(a: seq<Artifact>, b: seq<Artifact>, name: string)
    ensures Declaring(a + b, name) == Declaring(a, name) + Declaring(b, name)
  {
    if b == [] {
      assert a + b == a;
    } else {
      hide Declaring;
      var n := |b| - 1;
      DeclaringOfBoth(a, b[..n], name);
      assert b == b[..n] + [b[n]];
      assert a + b == (a + b[..n]) + [b[n]];
      DeclaringOfPush(a + b[..n], b[n], name);
      DeclaringOfPush(b[..n], b[n], name);
    }
  }

  lemma DeclaringAround(before: seq<Artifact>, a: Artifact, after: seq<Artifact>, name: string)
    ensures multiset(Declaring(before + ([a] + after), name))
            == multiset(Declaring(before + after, name) + if name in a.declared then [a.declarer] else [])
  {
    DeclaringOfBoth(before, after, name);
    DeclaringOfBoth(before, [a] + after, name);
    DeclaringOfBoth([a], after, name);
    DeclaringOfPush([], a, name);
    assert [] + [a] == [a];
  }

  lemma SplitAt(b: seq<Artifact>, i: nat)
    requires i < |b|
    ensures b == b[..i] + ([b[i]] + b[i + 1..])
    ensures multiset(b[..i] + b[i + 1..]) == multiset(b) - multiset{b[i]}
  {
    var x, y := b[..i], b[i + 1..];
    assert b == x + ([b[i]] + y);
    assert multiset(b) == multiset(x) + (multiset{b[i]} + multiset(y));
  }

  /** Everybody who declares a name is kept once, in whatever order the artifacts come. */
  lemma {:induction false} DeclarersArePermuted(a: seq<Artifact>, b: seq<Artifact>, name: string)
    requires multiset(a) == multiset(b)
    ensures multiset(Declaring(a, name)) == multiset(Declaring(b, name))
    decreases |a|
  {
    assert |a| == |multiset(a)| == |multiset(b)| == |b|;
    if a == [] {
      assert b == [];
    } else {
      hide Declaring;
      var n := |a| - 1;
      var last := a[n];
      assert last in multiset(b);
      var i :| 0 <= i < |b| && b[i] == last;
      SplitAt(a, n);
      SplitAt(b, i);
      assert a[n + 1..] == [] && a[..n] + [] == a[..n];
      DeclarersArePermuted(a[..n], b[..i] + b[i + 1..], name);
      DeclaringAround(a[..n], last, [], name);
      DeclaringAround(b[..i], last, b[i + 1..], name);
      assert a[..n] + ([last] + []) == a;
    }
  }

  /** Any order of the artifacts succeeds or fails alike, and gives the same names with the same sources
      and the same declarers. */
  lemma OrderDoesNotMatter(a: seq<Artifact>, b: seq<Artifact>, ua: map<string, Input>, ub: map<string, Input>)
    requires multiset(a) == multiset(b)
    ensures Agree(a) <==> Agree(b)
    ensures IsUnion(ua, a) && IsUnion(ub, b) ==>
              && ua.Keys == ub.Keys
              && forall name | name in ua ::
                   ua[name].source == ub[name].source && multiset(ua[name].declarers) == multiset(ub[name].declarers)
  {
    forall x ensures x in a <==> x in b {
      assert x in a <==> x in multiset(a);
      assert x in b <==> x in multiset(b);
    }
    if IsUnion(ua, a) && IsUnion(ub, b) {
      assert Names(a) == Names(b);
      forall name | name in ua
        ensures ua[name].source == ub[name].source && multiset(ua[name].declarers) == multiset(ub[name].declarers)
      {
        DeclarersArePermuted(a, b, name);
        assert name in Names(a);
        var x :| x in a && name in x.declared;
      }
    }
  }
}
