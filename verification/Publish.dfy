/** Staged publication of one small file, and the swap of the `current` symlink, against power loss.
    A crash keeps, for each name on its own, any entry the name has had since the directory was last
    flushed, and keeps the bytes of a file only once that file was flushed. */
module Publish {
  import opened Wrappers
  import Decimal

  /** How many staging names are tried. */
  const MAX_TEMP_ATTEMPTS: nat := 64

  function UniqueName(stem: string, pid: nat, id: nat): string {
    "." + (stem + (".vivarium-" + (Decimal.Print(pid) + ("-" + (Decimal.Print(id) + ".new")))))
  }

  function StagedPointer(pid: nat): string {
    ".current.vivarium-" + Decimal.Print(pid) + ".new"
  }

  predicate EndsWith(s: string, suffix: string) {
    |suffix| <= |s| && s[|s| - |suffix|..] == suffix
  }

  lemma NotARecord(name: string)
    requires |name| >= 5 && name[|name| - 1] != 'n'
    ensures !EndsWith(name, ".json")
  {
    assert name[|name| - 5..][4] == name[|name| - 1];
  }

  /** A staging name is never its destination, never a name a scan of the records reads, and differs
      from the name of every other id. */
  lemma StagingNamesAreApart(stem: string, pid: nat, id: nat, other: nat)
    ensures UniqueName(stem, pid, id) != stem
    ensures !EndsWith(UniqueName(stem, pid, id), ".json")
    ensures UniqueName(stem, pid, id) == UniqueName(stem, pid, other) ==> id == other
  {
    var name, second := UniqueName(stem, pid, id), UniqueName(stem, pid, other);
    assert |name| > |stem|;
    assert name[|name| - 1] == 'w';
    NotARecord(name);
    if name == second {
      var head := "." + (stem + (".vivarium-" + (Decimal.Print(pid) + "-")));
      assert name == head + (Decimal.Print(id) + ".new");
      assert second == head + (Decimal.Print(other) + ".new");
      assert name[|head|..] == Decimal.Print(id) + ".new";
      assert second[|head|..] == Decimal.Print(other) + ".new";
      var a, b := Decimal.Print(id), Decimal.Print(other);
      assert (a + ".new")[..|a|] == a && (b + ".new")[..|b|] == b;
      Decimal.ValueOfPrint(id);
      Decimal.ValueOfPrint(other);
    }
  }

  const CURRENT := "current"

  datatype Step = Landed | Fault | Dead

  datatype Published = Ok | Exhausted | Failed | Died

  /** A directory and the files its names lead to; files are numbered below `next`. */
  datatype Disk = Disk(entries: map<string, nat>, lasting: map<string, set<Option<nat>>>,
                       bytes: map<nat, string>, flushed: set<nat>, next: nat)

  function EntryOf(d: Disk, name: string): Option<nat> {
    if name in d.entries then Some(d.entries[name]) else None
  }

  /** What a name may lead to after power loss. */
  function AfterCrash(d: Disk, name: string): set<Option<nat>> {
    if name in d.lasting then d.lasting[name] else {None}
  }

  ghost predicate Valid(d: Disk) {
    && (forall i | i in d.bytes :: i < d.next)
    && d.flushed <= d.bytes.Keys
    && (forall name: string :: EntryOf(d, name) in AfterCrash(d, name))
    && (forall name: string, e | e in AfterCrash(d, name) :: e.Some? ==> e.value in d.bytes)
  }

  /** The bytes an entry leads to while the machine stays up. */
  function TextOf(d: Disk, e: Option<nat>): Option<string> {
    if e.Some? && e.value in d.bytes then Some(d.bytes[e.value]) else None
  }

  function TextAt(d: Disk, name: string): Option<string> {
    TextOf(d, EntryOf(d, name))
  }

  /** Whatever power loss leaves of the name is one of `texts`, whole. */
  ghost predicate Survives(d: Disk, name: string, texts: set<Option<string>>) {
    forall e | e in AfterCrash(d, name) :: (e.Some? ==> e.value in d.flushed) && TextOf(d, e) in texts
  }

  /** `b` is what is found after power loss in `a`: each name kept one of its entries, flushed files
      kept their bytes, and nothing is said about the others. */
  ghost predicate IsCrashOf(a: Disk, b: Disk) {
    && Valid(b)
    && (forall name: string :: EntryOf(b, name) in AfterCrash(a, name))
    && (forall name: string :: AfterCrash(b, name) == {EntryOf(b, name)})
    && (forall i | i in a.flushed && i in a.bytes :: i in b.flushed && i in b.bytes && b.bytes[i] == a.bytes[i])
  }

  /** What `Survives` says is what a reader finds after power loss, and the next publish can start from it. */
  lemma CrashReadsWhole(a: Disk, b: Disk, name: string, texts: set<Option<string>>)
    requires Valid(a) && Survives(a, name, texts) && IsCrashOf(a, b)
    ensures TextAt(b, name) in texts && Survives(b, name, texts)
  {
    var e := EntryOf(b, name);
    assert e in AfterCrash(a, name);
    assert TextOf(b, e) == TextOf(a, e);
  }

  // The operations, one at a time.

  function Created(d: Disk, name: string): Disk {
    Disk(d.entries[name := d.next], d.lasting[name := AfterCrash(d, name) + {Some(d.next)}],
         d.bytes[d.next := ""], d.flushed, d.next + 1)
  }

  function Written(d: Disk, i: nat, text: string): Disk {
    d.(bytes := d.bytes[i := text])
  }

  function Flushed(d: Disk, i: nat): Disk {
    d.(flushed := d.flushed + {i})
  }

  /** A symlink's text goes to disk together with the link itself. */
  function Linked(d: Disk, name: string, text: string): Disk {
    Flushed(Written(Created(d, name), d.next, text), d.next)
  }

  function Renamed(d: Disk, from: string, to: string): Disk
    requires from in d.entries
  {
    d.(entries := (d.entries - {from})[to := d.entries[from]],
       lasting := d.lasting[from := AfterCrash(d, from) + {None}][to := AfterCrash(d, to) + {Some(d.entries[from])}])
  }

  function Removed(d: Disk, name: string): Disk {
    d.(entries := d.entries - {name}, lasting := d.lasting[name := AfterCrash(d, name) + {None}])
  }

  function DirectoryFlushed(d: Disk): Disk {
    d.(lasting := map name | name in d.entries :: {Some(d.entries[name])})
  }

  /** No reader of `name`, now or after power loss, can find anything in `b` it could not find in `a`. */
  ghost predicate Untouched(a: Disk, b: Disk, name: string) {
    && EntryOf(a, name) == EntryOf(b, name)
    && AfterCrash(b, name) <= AfterCrash(a, name)
    && forall e | e in AfterCrash(b, name) ::
         TextOf(a, e) == TextOf(b, e) && (e.Some? && e.value in a.flushed ==> e.value in b.flushed)
  }

  ghost predicate OthersUntouched(a: Disk, b: Disk, names: set<string>) {
    forall name: string | name !in names :: Untouched(a, b, name)
  }

  lemma OthersTransitively(a: Disk, b: Disk, c: Disk, first: set<string>, second: set<string>,
                           names: set<string>)
    requires OthersUntouched(a, b, first) && OthersUntouched(b, c, second) && first + second <= names
    ensures OthersUntouched(a, c, names)
  {
    forall name: string | name !in names ensures Untouched(a, c, name) {
      assert Untouched(a, b, name) && Untouched(b, c, name);
    }
  }

  lemma OthersReflexive(d: Disk, names: set<string>)
    ensures OthersUntouched(d, d, names)
  {
  }

  /** The staged file exists and no other name leads to it, now or after power loss. */
  ghost predicate Private(d: Disk, temporary: string, i: nat) {
    && i in d.bytes && i !in d.flushed
    && (forall name: string | name != temporary :: Some(i) !in AfterCrash(d, name))
  }

  lemma AfterCreate(d: Disk, name: string)
    requires Valid(d) && name !in d.entries
    ensures Valid(Created(d, name)) && Private(Created(d, name), name, d.next)
    ensures OthersUntouched(d, Created(d, name), {name})
  {
    forall other: string | other != name
      ensures AfterCrash(Created(d, name), other) == AfterCrash(d, other)
    {
    }
    assert AfterCrash(Created(d, name), name) == AfterCrash(d, name) + {Some(d.next)};
  }

  lemma AfterWrite(d: Disk, name: string, i: nat, text: string)
    requires Valid(d) && Private(d, name, i)
    ensures Valid(Written(d, i, text)) && Private(Written(d, i, text), name, i)
    ensures OthersUntouched(d, Written(d, i, text), {name})
  {
    forall other: string ensures AfterCrash(Written(d, i, text), other) == AfterCrash(d, other) {
    }
  }

  lemma AfterFlush(d: Disk, name: string, i: nat)
    requires Valid(d) && i in d.bytes
    ensures Valid(Flushed(d, i))
    ensures OthersUntouched(d, Flushed(d, i), {})
  {
    forall other: string ensures AfterCrash(Flushed(d, i), other) == AfterCrash(d, other) {
    }
  }

  lemma AfterLink(d: Disk, name: string, text: string)
    requires Valid(d) && name !in d.entries
    ensures var after := Linked(d, name, text);
            && Valid(after) && name in after.entries && after.entries[name] in after.flushed
            && TextAt(after, name) == Some(text)
    ensures OthersUntouched(d, Linked(d, name, text), {name})
  {
    var i := d.next;
    var written := Written(Created(d, name), i, text);
    AfterCreate(d, name);
    AfterWrite(Created(d, name), name, i, text);
    AfterFlush(written, name, i);
    OthersTransitively(d, Created(d, name), written, {name}, {name}, {name});
    OthersTransitively(d, written, Flushed(written, i), {name}, {}, {name});
  }

  lemma AfterRename(d: Disk, from: string, to: string, texts: set<Option<string>>)
    requires Valid(d) && from in d.entries && from != to
    requires d.entries[from] in d.flushed && Survives(d, to, texts)
    ensures var text := TextAt(d, from);
            && Valid(Renamed(d, from, to))
            && Survives(Renamed(d, from, to), to, texts + {text})
            && TextAt(Renamed(d, from, to), to) == text
    ensures OthersUntouched(d, Renamed(d, from, to), {from, to})
  {
    var after := Renamed(d, from, to);
    assert EntryOf(d, from) in AfterCrash(d, from);
    forall other: string | other != from && other != to
      ensures AfterCrash(after, other) == AfterCrash(d, other) && EntryOf(after, other) == EntryOf(d, other)
    {
    }
    assert AfterCrash(after, from) == AfterCrash(d, from) + {None};
    assert AfterCrash(after, to) == AfterCrash(d, to) + {EntryOf(d, from)};
  }

  /** The flush before the rename is what the guarantee hangs on. */
  lemma RenameIsSafeExactlyWhenFlushed(d: Disk, from: string, to: string, texts: set<Option<string>>)
    requires Valid(d) && from in d.entries && from != to && Survives(d, to, texts)
    ensures Survives(Renamed(d, from, to), to, texts + {TextAt(d, from)}) <==> d.entries[from] in d.flushed
  {
    assert AfterCrash(Renamed(d, from, to), to) == AfterCrash(d, to) + {EntryOf(d, from)};
    if d.entries[from] in d.flushed { AfterRename(d, from, to, texts); }
  }

  lemma AfterRemove(d: Disk, name: string)
    requires Valid(d)
    ensures Valid(Removed(d, name))
    ensures OthersUntouched(d, Removed(d, name), {name})
  {
    forall other: string | other != name
      ensures AfterCrash(Removed(d, name), other) == AfterCrash(d, other)
    {
    }
  }

  lemma AfterDirectoryFlush(d: Disk, name: string)
    requires Valid(d)
    ensures Valid(DirectoryFlushed(d))
    ensures OthersUntouched(d, DirectoryFlushed(d), {})
    ensures EntryOf(d, name).Some? && EntryOf(d, name).value in d.flushed ==>
              Survives(DirectoryFlushed(d), name, {TextAt(d, name)})
  {
    forall other: string
      ensures AfterCrash(DirectoryFlushed(d), other) == {EntryOf(d, other)}
      ensures EntryOf(d, other) in AfterCrash(d, other)
    {
    }
  }

  lemma UntouchedSurvives(a: Disk, b: Disk, names: set<string>, name: string, texts: set<Option<string>>)
    requires Valid(a) && Valid(b) && OthersUntouched(a, b, names) && name !in names
    ensures Survives(a, name, texts) ==> Survives(b, name, texts)
    ensures TextAt(a, name) == TextAt(b, name)
  {
    assert Untouched(a, b, name);
    assert EntryOf(a, name) in AfterCrash(a, name) && EntryOf(b, name) in AfterCrash(b, name);
  }

  lemma SurvivesMore(d: Disk, name: string, texts: set<Option<string>>, more: set<Option<string>>)
    requires Survives(d, name, texts)
    ensures Survives(d, name, texts + more) && Survives(d, name, more + texts)
  {
  }

  class Directory {
    var disk: Disk
    const pid: nat
    /** The process-wide staging counter. */
    var nextId: nat
    /** Operations left before the process dies or the machine loses power. */
    var life: nat
    /** Whether every operation the system is asked for works. */
    const healthy: bool

    constructor (disk: Disk, pid: nat, nextId: nat, life: nat, healthy: bool)
      ensures this.disk == disk && this.pid == pid && this.nextId == nextId
      ensures this.life == life && this.healthy == healthy
    {
      this.disk, this.pid, this.nextId, this.life, this.healthy := disk, pid, nextId, life, healthy;
    }

    /** The next operation: the process may be dead by then, and it may fail. */
    method Attempt() returns (step: Step)
      modifies this`life
      ensures step == Dead <==> old(life) == 0
      ensures step != Dead ==> life == old(life) - 1
      ensures healthy ==> step != Fault
      ensures (step == Dead ==> life == 0) && (step == Fault ==> !healthy)
    {
      if life == 0 { return Dead; }
      life := life - 1;
      var fails: bool := *;
      step := if fails && !healthy then Fault else Landed;
    }

    /** `create_temp_file`. It runs out only when every name it tried was taken. */
    method CreateTemp(stem: string) returns (step: Step, exhausted: bool, name: string)
      requires Valid(disk)
      modifies this`disk, this`life, this`nextId
      ensures step == Landed ==> name != stem && name !in old(disk).entries && disk == Created(old(disk), name)
      ensures step != Landed ==> disk == old(disk)
      ensures healthy && old(life) >= 64 ==>
                (step == Landed || exhausted) && life + 64 >= old(life)
      ensures exhausted ==> step == Fault && nextId == old(nextId) + 64
                            && forall id: nat | old(nextId) <= id < nextId :: UniqueName(stem, pid, id) in disk.entries
      ensures (step == Dead ==> life == 0) && (step == Fault ==> !healthy || exhausted)
    {
      exhausted, name := false, stem;
      for attempt := 0 to MAX_TEMP_ATTEMPTS
        invariant disk == old(disk) && nextId == old(nextId) + attempt
        invariant old(life) >= attempt ==> life == old(life) - attempt
        invariant forall id: nat | old(nextId) <= id < nextId :: UniqueName(stem, pid, id) in disk.entries
      {
        name := UniqueName(stem, pid, nextId);
        StagingNamesAreApart(stem, pid, nextId, nextId);
        nextId := nextId + 1;
        step := Attempt();
        if step == Dead { return; }
        if name !in disk.entries {
          if step == Landed { disk := Created(disk, name); }
          return;
        }
      }
      step, exhausted := Fault, true;
    }

    /** Write and flush the staged file. */
    method Fill(temporary: string, text: string) returns (step: Step)
      requires Valid(disk) && temporary in disk.entries && Private(disk, temporary, disk.entries[temporary])
      modifies this`disk, this`life
      ensures Valid(disk) && disk.entries == old(disk).entries
      ensures OthersUntouched(old(disk), disk, {temporary})
      ensures step == Landed ==> disk.entries[temporary] in disk.flushed && TextAt(disk, temporary) == Some(text)
      ensures healthy && old(life) >= 2 ==> step == Landed && life == old(life) - 2
      ensures (step == Dead ==> life == 0) && (step == Fault ==> !healthy)
    {
      hide Valid, Private, OthersUntouched;
      ghost var was := disk;
      var i := disk.entries[temporary];
      step := Attempt();
      if step == Dead {
        OthersReflexive(disk, {temporary});
        return;
      }
      var torn: string := *;
      var landed := if step == Landed then text else torn;
      AfterWrite(disk, temporary, i, landed);
      disk := Written(disk, i, landed);
      if step == Landed {
        step := Attempt();
        if step == Landed {
          AfterFlush(disk, temporary, i);
          OthersTransitively(was, disk, Flushed(disk, i), {temporary}, {}, {temporary});
          disk := Flushed(disk, i);
        }
      }
    }

    /** Rename the staged file over the destination and flush the directory; a staged file that could
        not be published is removed. */
    method Replace(temporary: string, destination: string, ghost texts: set<Option<string>>) returns (step: Step)
      requires Valid(disk) && temporary != destination
      requires temporary in disk.entries && disk.entries[temporary] in disk.flushed
      requires Survives(disk, destination, texts)
      modifies this`disk, this`life
      ensures Valid(disk) && OthersUntouched(old(disk), disk, {temporary, destination})
      ensures Survives(disk, destination, texts + {TextAt(old(disk), temporary)})
      ensures TextAt(disk, destination) in {TextAt(old(disk), destination), TextAt(old(disk), temporary)}
      ensures step == Landed ==> Survives(disk, destination, {TextAt(old(disk), temporary)})
                                 && TextAt(disk, destination) == TextAt(old(disk), temporary)
      ensures healthy && old(life) >= 2 ==> step == Landed
      ensures (step == Dead ==> life == 0) && (step == Fault ==> !healthy)
    {
      hide Valid, Survives, OthersUntouched;
      ghost var was := disk;
      step := Attempt();
      if step != Landed {
        OthersReflexive(disk, {temporary, destination});
        SurvivesMore(disk, destination, texts, {TextAt(disk, temporary)});
        return;
      }
      AfterRename(disk, temporary, destination, texts);
      disk := Renamed(disk, temporary, destination);
      step := Attempt();
      if step == Landed {
        ghost var renamed := disk;
        AfterDirectoryFlush(disk, destination);
        disk := DirectoryFlushed(disk);
        OthersTransitively(was, renamed, disk, {temporary, destination}, {}, {temporary, destination});
        SurvivesMore(disk, destination, {TextAt(was, temporary)}, texts);
      }
    }

    /** Remove a staged name, if that works. */
    method Discard(temporary: string) returns (step: Step)
      requires Valid(disk)
      modifies this`disk, this`life
      ensures Valid(disk) && OthersUntouched(old(disk), disk, {temporary})
      ensures if step == Landed then disk == Removed(old(disk), temporary) else disk == old(disk)
      ensures healthy && old(life) >= 1 ==> step == Landed && life == old(life) - 1
      ensures (step == Dead ==> life == 0) && (step == Fault ==> !healthy)
    {
      hide Valid, OthersUntouched;
      OthersReflexive(disk, {temporary});
      step := Attempt();
      if step == Landed {
        AfterRemove(disk, temporary);
        disk := Removed(disk, temporary);
      }
    }

    /** `publish`: stage, write, flush, rename, flush the directory; the staged file is removed on a
        failure. Whichever operation is the last one carried out, the destination is one whole text,
        and every other file that was there is left alone. */
    method Publish(destination: string, text: string, ghost texts: set<Option<string>>) returns (out: Published)
      requires Valid(disk) && Survives(disk, destination, texts)
      modifies this`disk, this`life, this`nextId
      ensures Valid(disk)
      ensures Survives(disk, destination, texts + {Some(text)})
      ensures TextAt(disk, destination) in {TextAt(old(disk), destination), Some(text)}
      ensures out == Published.Ok ==>
                Survives(disk, destination, {Some(text)}) && TextAt(disk, destination) == Some(text)
      ensures forall name | name in old(disk).entries && name != destination :: Untouched(old(disk), disk, name)
      ensures healthy && old(life) >= 68 ==> out in {Published.Ok, Exhausted}
      ensures out == Exhausted ==> disk == old(disk) && nextId == old(nextId) + 64
                                   && forall id: nat | old(nextId) <= id < nextId ::
                                        UniqueName(destination, pid, id) in disk.entries
      ensures (out == Died ==> life == 0) && (out == Published.Failed ==> !healthy)
    {
      hide Valid, Private, Untouched, Survives;
      ghost var was := disk;
      var step, exhausted, temporary := CreateTemp(destination);
      if step != Landed {
        SurvivesMore(disk, destination, texts, {Some(text)});
        OthersReflexive(disk, {});
        return if exhausted then Exhausted else if step == Dead then Died else Failed;
      }
      AfterCreate(was, temporary);
      ghost var created := disk;
      step := Fill(temporary, text);
      OthersTransitively(was, created, disk, {temporary}, {temporary}, {temporary});
      UntouchedSurvives(was, disk, {temporary}, destination, texts);
      SurvivesMore(disk, destination, texts, {Some(text)});
      ghost var filled := disk;
      if step == Landed {
        step := Replace(temporary, destination, texts);
        OthersTransitively(was, filled, disk, {temporary}, {temporary, destination}, {temporary, destination});
      }
      if step == Fault {
        ghost var replaced := disk;
        var removal := Discard(temporary);
        if removal == Dead { step := Dead; }
        UntouchedSurvives(replaced, disk, {temporary}, destination, texts + {Some(text)});
        OthersTransitively(was, replaced, disk, {temporary, destination}, {temporary}, {temporary, destination});
      }
      out := if step == Landed then Published.Ok else if step == Dead then Died else Failed;
    }

    /** `set_current`: clear the staged name, link it to the target, rename it over, flush. The staged
        name is removed only when the rename fails. */
    method SwapPointer(target: string, ghost targets: set<Option<string>>) returns (out: Published)
      requires Valid(disk) && Survives(disk, "current", targets)
      modifies this`disk, this`life
      ensures Valid(disk)
      ensures Survives(disk, "current", targets + {Some(target)})
      ensures TextAt(disk, "current") in {TextAt(old(disk), "current"), Some(target)}
      ensures out == Published.Ok ==>
                Survives(disk, "current", {Some(target)}) && TextAt(disk, "current") == Some(target)
      ensures OthersUntouched(old(disk), disk, {".current.vivarium-" + Decimal.Print(pid) + ".new", "current"})
      ensures healthy && old(life) >= 4 ==> out == Published.Ok
      ensures out == Died ==> life == 0
    {
      hide Valid, Untouched, Survives, OthersUntouched, AfterCrash;
      ghost var was := disk;
      var staged := StagedPointer(pid);
      ghost var names := {staged, CURRENT};
      var step := Discard(staged);
      UntouchedSurvives(was, disk, {staged}, CURRENT, targets);
      SurvivesMore(disk, CURRENT, targets, {Some(target)});
      OthersReflexive(disk, names);
      OthersTransitively(was, disk, disk, {staged}, names, names);
      if step == Dead { return Died; }
      ghost var cleared := disk;
      step := Attempt();
      if step == Dead { return Died; }
      if step == Fault || staged in disk.entries { return Failed; }
      AfterLink(disk, staged, target);
      disk := Linked(disk, staged, target);
      ghost var linked := disk;
      UntouchedSurvives(cleared, linked, {staged}, CURRENT, targets);
      OthersTransitively(was, cleared, linked, names, {staged}, names);
      step := Replace(staged, CURRENT, targets);
      ghost var replaced := disk;
      OthersTransitively(was, linked, replaced, names, names, names);
      if step == Fault && staged in disk.entries {
        var removal := Discard(staged);
        if removal == Dead { step := Dead; }
        UntouchedSurvives(replaced, disk, {staged}, CURRENT, targets + {Some(target)});
        OthersTransitively(was, replaced, disk, names, {staged}, names);
      }
      out := if step == Landed then Published.Ok else if step == Dead then Died else Failed;
    }

    /** Any sequence of publishes to one destination, each by a process that may die anywhere in it. */
    method History(destination: string, texts: seq<string>, ghost first: set<Option<string>>)
      returns (outs: seq<Published>)
      requires Valid(disk) && Survives(disk, destination, first)
      modifies this`disk, this`life, this`nextId
      ensures Valid(disk) && |outs| == |texts|
      ensures Survives(disk, destination, Remaining(first, texts, outs))
    {
      hide Valid, Survives;
      outs := [];
      for k := 0 to |texts|
        invariant Valid(disk) && |outs| == k
        invariant Survives(disk, destination, Remaining(first, texts[..k], outs))
      {
        var budget: nat := *;
        life := budget;
        var out := Publish(destination, texts[k], Remaining(first, texts[..k], outs));
        assert texts[..k + 1] == texts[..k] + [texts[k]];
        assert (outs + [out])[..k] == outs;
        outs := outs + [out];
      }
      assert texts[..|texts|] == texts;
    }
  }

  /** What power loss can leave after a sequence of publishes: the last one that returned, or an
      attempt made since. */
  ghost function Remaining(first: set<Option<string>>, texts: seq<string>, outs: seq<Published>): set<Option<string>>
    requires |texts| == |outs|
  {
    var k := |texts| - 1;
    if k < 0 then first
    else if outs[k] == Published.Ok then {Some(texts[k])}
    else Remaining(first, texts[..k], outs[..k]) + {Some(texts[k])}
  }
}
