/** A project's volumes: which there are, what they occupy, and which of them a prune may remove. */
module Volumes {
  import opened Wrappers

  const DEFAULT_VOLUME := "default"
  const DEFAULT_VOLUME_MOUNT := "/home/vivarium"
  const STORE_VOLUME := "store"
  const STORE_VOLUME_MOUNT := "/nix/.rw-store"
  const BLOCK: nat := 512
  const GIB: nat := 0x4000_0000

  predicate Reserved(name: string) { name == DEFAULT_VOLUME || name == STORE_VOLUME }

  /** A volume as the record of the last start remembers it. */
  datatype Remembered = Remembered(name: string, mount: string, declaredBy: string, kind: string, sizeGib: Option<nat>)

  /** A volume as the manifest declares it now. */
  datatype Leaf = Leaf(name: string, mount: string, sizeGib: Option<nat>)

  datatype Composition = Composition(image: string, pieces: seq<string>, extends_: Option<string>)

  /** Everything but the images: the record, the manifest and the name of its layer. */
  datatype Declarations = Declarations(recorded: Composition, volumes: seq<Remembered>,
                                       current: Composition, leaves: seq<Leaf>, layer: string)

  datatype Stat = Stat(blocks: nat, length: nat)

  /** An image file. A name that is not UTF-8 has no stem; a file can refuse to be looked at. */
  datatype Image = Image(stem: Option<string>, stat: Option<Stat>)

  datatype Origin = Undeclared | Declared(layer: Option<string>) | Orphan

  datatype Row = Row(name: string, mount: Option<string>, origin: Origin, image: Option<Image>,
                     occupied: nat, ceiling: Option<nat>)

  function FindRemembered(volumes: seq<Remembered>, name: string): Option<Remembered> {
    if volumes == [] then None
    else if volumes[0].name == name then Some(volumes[0])
    else FindRemembered(volumes[1..], name)
  }

  function FindLeaf(leaves: seq<Leaf>, name: string): Option<Leaf> {
    if leaves == [] then None
    else if leaves[0].name == name then Some(leaves[0])
    else FindLeaf(leaves[1..], name)
  }

  /** `Record::live`: what the manifest declares now, and what another layer declared while the
      composition it was recorded under is the current one. */
  function Live(d: Declarations): set<string> {
    (set leaf | leaf in d.leaves :: leaf.name)
    + (if d.recorded == d.current then set v | v in d.volumes && v.kind != "manifest" :: v.name else {})
  }

  function ImageOf(images: seq<Image>, name: string): Option<Image> {
    if images == [] then None
    else
      var last := images[|images| - 1];
      if last.stem == Some(name) then Some(last) else ImageOf(images[..|images| - 1], name)
  }

  /** No two files of one directory have the same name. */
  ghost predicate DistinctStems(images: seq<Image>) {
    forall i, j | 0 <= i < j < |images| && images[i].stem.Some? :: images[i].stem != images[j].stem
  }

  function Allocated(image: Image): nat {
    if image.stat.Some? then image.stat.value.blocks * BLOCK else 0
  }

  function MountOf(d: Declarations, name: string): Option<string> {
    var known := FindRemembered(d.volumes, name);
    if name == DEFAULT_VOLUME then Some(DEFAULT_VOLUME_MOUNT)
    else if name == STORE_VOLUME then Some(STORE_VOLUME_MOUNT)
    else if known.Some? then Some(known.value.mount)
    else if name in Live(d) && FindLeaf(d.leaves, name).Some? then Some(FindLeaf(d.leaves, name).value.mount)
    else None
  }

  function OriginOf(d: Declarations, name: string): Origin {
    var known := FindRemembered(d.volumes, name);
    if Reserved(name) then Undeclared
    else if name !in Live(d) then Orphan
    else Declared(if known.Some? then Some(known.value.declaredBy)
                  else if FindLeaf(d.leaves, name).Some? then Some(d.layer)
                  else None)
  }

  function Ceiling(d: Declarations, name: string): Option<nat> {
    var known, leaf := FindRemembered(d.volumes, name), FindLeaf(d.leaves, name);
    if Reserved(name) || name !in Live(d) then None
    else if known.Some? && known.value.sizeGib.Some? then Some(known.value.sizeGib.value * GIB)
    else if leaf.Some? && leaf.value.sizeGib.Some? then Some(leaf.value.sizeGib.value * GIB)
    else None
  }

  /** The one row a name has. */
  function RowOf(d: Declarations, images: seq<Image>, name: string): Row {
    var image := ImageOf(images, name);
    Row(name, MountOf(d, name), OriginOf(d, name), image,
        if image.Some? then Allocated(image.value) else 0,
        if image.Some? && image.value.stat.Some? then Some(image.value.stat.value.length) else Ceiling(d, name))
  }

  function NamesOf(rows: seq<Row>): set<string> { set r | r in rows :: r.name }

  function Stems(images: seq<Image>): set<string> {
    set image | image in images && image.stem.Some? :: image.stem.value
  }

  ghost predicate UniqueNames(rows: seq<Row>) {
    forall i, j | 0 <= i < j < |rows| :: rows[i].name != rows[j].name
  }

  /** What `enumerate` promises of its rows: one row per name, and the row each name has. */
  ghost predicate IsEnumeration(rows: seq<Row>, d: Declarations, images: seq<Image>) {
    && UniqueNames(rows)
    && NamesOf(rows) == {DEFAULT_VOLUME, STORE_VOLUME} + Live(d) + Stems(images)
    && (forall r | r in rows :: r == RowOf(d, images, r.name))
  }

  /** The orphans are exactly the images nothing reserves or declares. */
  lemma OrphansAreWhatNothingDeclares(rows: seq<Row>, d: Declarations, images: seq<Image>, name: string)
    requires IsEnumeration(rows, d, images)
    ensures (exists r :: r in rows && r.name == name && r.origin == Orphan) <==>
            name in Stems(images) && !Reserved(name) && name !in Live(d)
  {
    if name in NamesOf(rows) {
      var row :| row in rows && row.name == name;
      assert row.origin == Orphan <==> !Reserved(name) && name !in Live(d);
      forall r | r in rows && r.name == name ensures r == row {
      }
    }
  }

  /** The remembered volume a name finds is the first of that name, and so is the leaf. */
  ghost predicate FirstRemembered(d: Declarations, i: nat, name: string) {
    i < |d.volumes| && d.volumes[i].name == name && forall k | 0 <= k < i :: d.volumes[k].name != name
  }

  ghost predicate FirstLeaf(d: Declarations, i: nat, name: string) {
    i < |d.leaves| && d.leaves[i].name == name && forall k | 0 <= k < i :: d.leaves[k].name != name
  }

  lemma {:induction false} RememberedIsTheFirst(volumes: seq<Remembered>, name: string)
    ensures FindRemembered(volumes, name).None? <==> forall k | 0 <= k < |volumes| :: volumes[k].name != name
    ensures forall i: nat | i < |volumes| && volumes[i].name == name
                            && (forall k | 0 <= k < i :: volumes[k].name != name) ::
              FindRemembered(volumes, name) == Some(volumes[i])
  {
    if volumes != [] {
      RememberedIsTheFirst(volumes[1..], name);
      assert forall k: nat | 0 < k < |volumes| :: volumes[k] == volumes[1..][k - 1];
    }
  }

  lemma {:induction false} LeafIsTheFirst(leaves: seq<Leaf>, name: string)
    ensures FindLeaf(leaves, name).None? <==> forall k | 0 <= k < |leaves| :: leaves[k].name != name
    ensures forall i: nat | i < |leaves| && leaves[i].name == name
                            && (forall k | 0 <= k < i :: leaves[k].name != name) ::
              FindLeaf(leaves, name) == Some(leaves[i])
  {
    if leaves != [] {
      LeafIsTheFirst(leaves[1..], name);
      assert forall k: nat | 0 < k < |leaves| :: leaves[k] == leaves[1..][k - 1];
    }
  }

  /** What nothing declares: no leaf has the name, and no layer but the manifest is remembered to have
      declared it, or the memory is of another composition. */
  ghost predicate Unclaimed(d: Declarations, name: string) {
    && (forall leaf | leaf in d.leaves :: leaf.name != name)
    && (d.recorded == d.current ==> forall v | v in d.volumes && v.name == name :: v.kind == "manifest")
  }

  lemma LiveIsClaimed(d: Declarations, name: string)
    ensures name in Live(d) <==> !Unclaimed(d, name)
  {
  }

  /** The columns of a row. The two reserved volumes have theirs. Any other has its mount and layer from the
      first record that remembers it, else from the leaf that declares it. */
  lemma RowsSayWhoDeclares(rows: seq<Row>, d: Declarations, images: seq<Image>, r: Row)
    requires IsEnumeration(rows, d, images) && r in rows
    ensures r.name == "default" ==> r.mount == Some("/home/vivarium") && r.origin == Undeclared
    ensures r.name == "store" ==> r.mount == Some("/nix/.rw-store") && r.origin == Undeclared
    ensures r.name !in {"default", "store"} ==>
              && (r.origin == Orphan <==> Unclaimed(d, r.name)) && r.origin != Undeclared
              && (forall i: nat | FirstRemembered(d, i, r.name) ::
                    r.mount == Some(d.volumes[i].mount)
                    && (r.origin.Declared? ==> r.origin.layer == Some(d.volumes[i].declaredBy)))
              && ((forall v | v in d.volumes :: v.name != r.name) ==>
                    (Unclaimed(d, r.name) ==> r.mount == None)
                    && forall j: nat | FirstLeaf(d, j, r.name) ::
                         r.mount == Some(d.leaves[j].mount) && r.origin == Declared(Some(d.layer)))
  {
    hide Live;
    LiveIsClaimed(d, r.name);
    RememberedIsTheFirst(d.volumes, r.name);
    LeafIsTheFirst(d.leaves, r.name);
  }

  /** And its sizes: what its image occupies and how long it is. */
  lemma RowsSayWhatIsThere(rows: seq<Row>, d: Declarations, images: seq<Image>, r: Row)
    requires IsEnumeration(rows, d, images) && r in rows && DistinctStems(images)
    ensures r.name !in Stems(images) ==> r.image == None && r.occupied == 0
    ensures forall image | image in images && image.stem == Some(r.name) ::
              r.image == Some(image)
              && (image.stat.Some? ==> r.occupied == image.stat.value.blocks * 512
                                       && r.ceiling == Some(image.stat.value.length))
  {
    hide Live, MountOf, OriginOf, Ceiling;
    ImageOfIsTheImage(images, r.name);
    forall image | image in images && image.stem == Some(r.name) ensures ImageOf(images, r.name) == Some(image) {
      var i :| 0 <= i < |images| && images[i] == image;
      var found := ImageOf(images, r.name).value;
      var j :| 0 <= j < |images| && images[j] == found;
      assert i == j;
    }
  }

  /** Or with no image the ceiling declared: the remembered one, else the leaf's. */
  lemma RowsSayTheCeiling(rows: seq<Row>, d: Declarations, images: seq<Image>, r: Row)
    requires IsEnumeration(rows, d, images) && r in rows && r.name !in Stems(images)
    ensures r.name in {"default", "store"} || Unclaimed(d, r.name) ==> r.ceiling == None
    ensures r.name !in {"default", "store"} && !Unclaimed(d, r.name) ==>
              && (forall i: nat | FirstRemembered(d, i, r.name) && d.volumes[i].sizeGib.Some? ::
                    r.ceiling == Some(d.volumes[i].sizeGib.value * 1_073_741_824))
              && ((forall i: nat | FirstRemembered(d, i, r.name) :: d.volumes[i].sizeGib.None?) ==>
                    forall j: nat | FirstLeaf(d, j, r.name) ::
                      r.ceiling == if d.leaves[j].sizeGib.Some?
                                   then Some(d.leaves[j].sizeGib.value * 1_073_741_824) else None)
  {
    hide Live, MountOf, OriginOf, Unclaimed, FirstRemembered;
    LiveIsClaimed(d, r.name);
    ImageOfIsTheImage(images, r.name);
    RememberedHasAFirst(d, r.name);
    LeafIsTheFirst(d.leaves, r.name);
  }

  lemma RememberedHasAFirst(d: Declarations, name: string)
    ensures forall i: nat | FirstRemembered(d, i, name) :: FindRemembered(d.volumes, name) == Some(d.volumes[i])
    ensures FindRemembered(d.volumes, name).Some? ==> exists i: nat :: FirstRemembered(d, i, name)
  {
    RememberedIsTheFirst(d.volumes, name);
    if FindRemembered(d.volumes, name).Some? {
      var k: nat :| k < |d.volumes| && d.volumes[k].name == name;
      var i := FirstAtMost(d, k, name);
    }
  }

  lemma {:induction false} FirstAtMost(d: Declarations, k: nat, name: string) returns (i: nat)
    requires k < |d.volumes| && d.volumes[k].name == name
    ensures FirstRemembered(d, i, name)
  {
    if j: nat :| j < k && d.volumes[j].name == name {
      i := FirstAtMost(d, j, name);
    } else {
      i := k;
    }
  }

  function SumOccupied(rows: seq<Row>): nat {
    if rows == [] then 0 else SumOccupied(rows[..|rows| - 1]) + rows[|rows| - 1].occupied
  }

  /** The bytes the images occupy; `named` leaves out the files whose name is not UTF-8. */
  function SumImages(images: seq<Image>, named: bool): nat {
    if images == [] then 0
    else
      var last := images[|images| - 1];
      SumImages(images[..|images| - 1], named) + if named && last.stem.None? then 0 else Allocated(last)
  }

  /** Their apparent sizes. */
  function SumLengths(images: seq<Image>): nat {
    if images == [] then 0
    else
      var last := images[|images| - 1];
      SumLengths(images[..|images| - 1]) + if last.stat.Some? then last.stat.value.length else 0
  }

  lemma {:induction false} SumOfUpdate(rows: seq<Row>, i: nat, row: Row)
    requires i < |rows|
    ensures SumOccupied(rows[i := row]) == SumOccupied(rows) - rows[i].occupied + row.occupied
  {
    var n := |rows| - 1;
    if i < n {
      SumOfUpdate(rows[..n], i, row);
      assert rows[i := row][..n] == rows[..n][i := row];
    } else {
      assert rows[i := row][..n] == rows[..n];
    }
  }

  lemma SumOfPush(rows: seq<Row>, row: Row)
    ensures SumOccupied(rows + [row]) == SumOccupied(rows) + row.occupied
  {
    assert (rows + [row])[..|rows|] == rows;
  }

  lemma {:induction false} ImageOfIsTheImage(images: seq<Image>, name: string)
    ensures ImageOf(images, name).Some? <==> name in Stems(images)
    ensures ImageOf(images, name).Some? ==>
              ImageOf(images, name).value in images && ImageOf(images, name).value.stem == Some(name)
  {
    if images != [] {
      var n := |images| - 1;
      ImageOfIsTheImage(images[..n], name);
      assert images == images[..n] + [images[n]];
    }
  }

  /** The sums are of what each file occupies and of how long it is, whatever their order. */
  lemma {:induction false} TotalsAdd(a: seq<Image>, b: seq<Image>, named: bool)
    ensures SumImages(a + b, named) == SumImages(a, named) + SumImages(b, named)
    ensures SumLengths(a + b) == SumLengths(a) + SumLengths(b)
    decreases |b|
  {
    if b == [] {
      assert a + b == a;
    } else {
      var n := |b| - 1;
      TotalsAdd(a, b[..n], named);
      assert (a + b)[..|a| + n] == a + b[..n];
    }
  }

  lemma TotalsOfOne(image: Image)
    requires image.stat.Some?
    ensures SumImages([image], false) == image.stat.value.blocks * 512
    ensures SumImages([image], true) == if image.stem.Some? then image.stat.value.blocks * 512 else 0
    ensures SumLengths([image]) == image.stat.value.length
  {
    assert [image][..0] == [];
  }

  // The three arms.

  /** `disk_totals`: both sums, or the first file that will not be looked at. */
  method DiskTotals(images: seq<Image>) returns (r: Option<(nat, nat)>)
    ensures r.Some? <==> forall image | image in images :: image.stat.Some?
    ensures r.Some? ==> r.value == (SumImages(images, false), SumLengths(images))
  {
    var occupied: nat, apparent: nat := 0, 0;
    for k := 0 to |images|
      invariant occupied == SumImages(images[..k], false) && apparent == SumLengths(images[..k])
      invariant forall image | image in images[..k] :: image.stat.Some?
    {
      assert images[..k + 1] == images[..k] + [images[k]];
      assert images[..k + 1][..k] == images[..k];
      if images[k].stat.None? { return None; }
      occupied := occupied + images[k].stat.value.blocks * BLOCK;
      apparent := apparent + images[k].stat.value.length;
    }
    assert images[..|images|] == images;
    r := Some((occupied, apparent));
  }

  method HasRow(rows: seq<Row>, name: string) returns (found: Option<nat>)
    ensures found.Some? ==> found.value < |rows| && rows[found.value].name == name
    ensures found.None? <==> name !in NamesOf(rows)
  {
    for i := 0 to |rows|
      invariant forall j | 0 <= j < i :: rows[j].name != name
    {
      if rows[i].name == name { return Some(i); }
    }
    found := None;
  }

  /** The rows so far, with only the images looked at so far. */
  ghost predicate SoFar(rows: seq<Row>, d: Declarations, images: seq<Image>) {
    && UniqueNames(rows)
    && (forall r | r in rows :: r == RowOf(d, images, r.name))
    && SumOccupied(rows) == SumImages(images, true)
  }

  /** A row pushed for a name that had none. */
  lemma PushKeepsUnique(rows: seq<Row>, row: Row)
    requires UniqueNames(rows) && row.name !in NamesOf(rows)
    ensures UniqueNames(rows + [row]) && NamesOf(rows + [row]) == NamesOf(rows) + {row.name}
  {
    var more := rows + [row];
    forall i, j | 0 <= i < j < |more| ensures more[i].name != more[j].name {
      assert rows[i] in rows;
    }
    forall name ensures name in NamesOf(more) <==> name in NamesOf(rows) + {row.name} {
      assert row in more;
      assert forall r | r in rows :: r in more;
    }
  }

  /** One more image changes the row of its own name only. */
  lemma OtherRowsStay(d: Declarations, images: seq<Image>, image: Image, name: string)
    requires image.stem != Some(name)
    ensures RowOf(d, images + [image], name) == RowOf(d, images, name)
  {
    assert (images + [image])[..|images|] == images;
  }

  /** Arm 1: the two that exist without being declared. */
  method Reserve(d: Declarations) returns (rows: seq<Row>)
    ensures SoFar(rows, d, []) && NamesOf(rows) == {DEFAULT_VOLUME, STORE_VOLUME}
  {
    var home := Row(DEFAULT_VOLUME, Some(DEFAULT_VOLUME_MOUNT), Undeclared, None, 0, None);
    var store := Row(STORE_VOLUME, Some(STORE_VOLUME_MOUNT), Undeclared, None, 0, None);
    assert home == RowOf(d, [], DEFAULT_VOLUME) && store == RowOf(d, [], STORE_VOLUME);
    hide RowOf;
    SumOfPush([], home);
    SumOfPush([home], store);
    hide SumOccupied;
    assert [] + [home] == [home] && [home] + [store] == [home, store];
    assert SumOccupied([home, store]) == SumOccupied([]);
    assert SumOccupied([]) == 0 && SumImages([], true) == 0 by { NothingOccupiesNothing(); }
    rows := [home, store];
  }

  lemma NothingOccupiesNothing()
    ensures SumOccupied([]) == 0 && SumImages([], true) == 0
  {
  }

  /** Arms 1 and 2: the reserved pair, then whatever a current layer declares. */
  method Declare(d: Declarations) returns (rows: seq<Row>)
    ensures SoFar(rows, d, []) && NamesOf(rows) == {DEFAULT_VOLUME, STORE_VOLUME} + Live(d)
  {
    hide RowOf, SoFar, NamesOf, OriginOf, Live;
    rows := Reserve(d);
    var live := Live(d);
    ghost var done: set<string> := {};
    while live != {}
      invariant SoFar(rows, d, []) && live + done == Live(d)
      invariant NamesOf(rows) == {DEFAULT_VOLUME, STORE_VOLUME} + done
      decreases |live|
    {
      var name :| name in live;
      live := live - {name};
      done := done + {name};
      var found := HasRow(rows, name);
      if found.None? {
        var row := DeclaredRow(d, name);
        PushDeclared(rows, d, row);
        rows := rows + [row];
      }
    }
  }

  lemma PushDeclared(rows: seq<Row>, d: Declarations, row: Row)
    requires SoFar(rows, d, []) && row.name !in NamesOf(rows)
    requires row == RowOf(d, [], row.name) && row.occupied == 0
    ensures SoFar(rows + [row], d, []) && NamesOf(rows + [row]) == NamesOf(rows) + {row.name}
  {
    hide RowOf;
    PushKeepsUnique(rows, row);
    SumOfPush(rows, row);
  }

  method DeclaredRow(d: Declarations, name: string) returns (row: Row)
    requires name in Live(d) && !Reserved(name)
    ensures row == RowOf(d, [], name) && row.name == name && row.occupied == 0
  {
    var declaration := FindRemembered(d.volumes, name);
    var leaf := FindLeaf(d.leaves, name);
    var size := if declaration.Some? && declaration.value.sizeGib.Some? then declaration.value.sizeGib
                else if leaf.Some? then leaf.value.sizeGib else None;
    row := Row(name,
               if declaration.Some? then Some(declaration.value.mount)
               else if leaf.Some? then Some(leaf.value.mount) else None,
               Declared(if declaration.Some? then Some(declaration.value.declaredBy)
                        else if leaf.Some? then Some(d.layer) else None),
               None, 0,
               if size.Some? then Some(size.value * GIB) else None);
  }

  /** Arm 3 for one image: fill in the row of its name, or push an orphan's. */
  method Place(rows: seq<Row>, d: Declarations, ghost images: seq<Image>, image: Image) returns (placed: seq<Row>)
    requires SoFar(rows, d, images) && DistinctStems(images + [image])
    requires {DEFAULT_VOLUME, STORE_VOLUME} + Live(d) <= NamesOf(rows)
    requires image.stem.Some? && image.stat.Some?
    ensures SoFar(placed, d, images + [image]) && NamesOf(placed) == NamesOf(rows) + {image.stem.value}
  {
    var name := image.stem.value;
    var occupied, length := image.stat.value.blocks * BLOCK, image.stat.value.length;
    ghost var more := images + [image];
    assert more[..|images|] == images;
    assert ImageOf(more, name) == Some(image);
    NotSeenYet(images, image);
    forall r | r in rows && r.name != name ensures r == RowOf(d, more, r.name) {
      OtherRowsStay(d, images, image, r.name);
    }
    var found := HasRow(rows, name);
    if found.Some? {
      var i := found.value;
      var row := rows[i].(image := Some(image), occupied := occupied, ceiling := Some(length));
      assert rows[i] in rows;
      assert row == RowOf(d, more, name);
      placed := rows[i := row];
      SumOfUpdate(rows, i, row);
      UpdateKeepsUnique(rows, i, row);
    } else {
      var row := OrphanRow(d, image);
      RowOfOrphan(d, more, image, row);
      placed := rows + [row];
      SumOfPush(rows, row);
      PushKeepsUnique(rows, row);
    }
  }

  method OrphanRow(d: Declarations, image: Image) returns (row: Row)
    requires image.stem.Some? && image.stat.Some?
    ensures row == Row(image.stem.value,
                       (var known := FindRemembered(d.volumes, image.stem.value);
                        if known.Some? then Some(known.value.mount) else None),
                       Orphan, Some(image), Allocated(image), Some(image.stat.value.length))
  {
    var known := FindRemembered(d.volumes, image.stem.value);
    row := Row(image.stem.value, if known.Some? then Some(known.value.mount) else None, Orphan,
               Some(image), image.stat.value.blocks * BLOCK, Some(image.stat.value.length));
  }

  lemma RowOfOrphan(d: Declarations, images: seq<Image>, image: Image, row: Row)
    requires image.stem.Some? && image.stat.Some? && ImageOf(images, image.stem.value) == Some(image)
    requires !Reserved(image.stem.value) && image.stem.value !in Live(d)
    requires row.name == image.stem.value && row.origin == Orphan && row.image == Some(image)
    requires row.occupied == Allocated(image) && row.ceiling == Some(image.stat.value.length)
    requires row.mount == (var known := FindRemembered(d.volumes, row.name);
                           if known.Some? then Some(known.value.mount) else None)
    ensures row == RowOf(d, images, row.name)
  {
  }

  /** Names are distinct, so the row of this image has none yet. */
  lemma NotSeenYet(images: seq<Image>, image: Image)
    requires DistinctStems(images + [image]) && image.stem.Some?
    ensures ImageOf(images, image.stem.value).None?
  {
    ImageOfIsTheImage(images, image.stem.value);
    var more := images + [image];
    forall i | 0 <= i < |images| ensures images[i].stem != image.stem {
      assert more[i] == images[i] && more[|images|] == image;
    }
  }

  lemma UpdateKeepsUnique(rows: seq<Row>, i: nat, row: Row)
    requires UniqueNames(rows) && i < |rows| && row.name == rows[i].name
    ensures UniqueNames(rows[i := row]) && NamesOf(rows[i := row]) == NamesOf(rows)
    ensures forall r | r in rows[i := row] :: r == row || (r in rows && r.name != row.name)
  {
    var more := rows[i := row];
    assert forall j | 0 <= j < |rows| :: more[j].name == rows[j].name;
    forall name | name in NamesOf(rows) ensures name in NamesOf(more) {
      var j :| 0 <= j < |rows| && rows[j].name == name;
      assert more[j] in more;
    }
    forall name | name in NamesOf(more) ensures name in NamesOf(rows) {
      var j :| 0 <= j < |more| && more[j].name == name;
      assert rows[j] in rows;
    }
    forall r | r in more ensures r == row || (r in rows && r.name != row.name) {
      var j :| 0 <= j < |more| && more[j] == r;
      assert j != i ==> rows[j] in rows && rows[j].name != rows[i].name;
    }
  }

  lemma UnnamedImageChangesNothing(rows: seq<Row>, d: Declarations, images: seq<Image>, image: Image)
    requires SoFar(rows, d, images) && image.stem.None?
    ensures SoFar(rows, d, images + [image])
  {
    assert (images + [image])[..|images|] == images;
    forall r | r in rows ensures r == RowOf(d, images + [image], r.name) {
      OtherRowsStay(d, images, image, r.name);
    }
  }

  /** `enumerate`. It fails exactly when a named image cannot be looked at; otherwise the rows are the
      enumeration, and what they occupy is what the named images do. */
  method Enumerate(d: Declarations, images: seq<Image>) returns (r: Option<seq<Row>>)
    requires DistinctStems(images)
    ensures r.Some? <==> forall image | image in images && image.stem.Some? :: image.stat.Some?
    ensures r.Some? ==> IsEnumeration(r.value, d, images) && SumOccupied(r.value) == SumImages(images, true)
  {
    hide RowOf, Live, SumOccupied, SumImages;
    var rows := Declare(d);
    assert images[..0] == [];
    for k := 0 to |images|
      invariant SoFar(rows, d, images[..k])
      invariant NamesOf(rows) == {DEFAULT_VOLUME, STORE_VOLUME} + Live(d) + Stems(images[..k])
      invariant forall image | image in images[..k] && image.stem.Some? :: image.stat.Some?
    {
      var image := images[k];
      assert images[..k + 1] == images[..k] + [image];
      StemsOfPush(images[..k], image);
      if image.stem.Some? {
        if image.stat.None? {
          assert image in images;
          return None;
        }
        rows := Place(rows, d, images[..k], image);
      } else {
        UnnamedImageChangesNothing(rows, d, images[..k], image);
      }
    }
    assert images[..|images|] == images;
    r := Some(rows);
  }

  lemma StemsOfPush(images: seq<Image>, image: Image)
    ensures Stems(images + [image]) == Stems(images) + if image.stem.Some? then {image.stem.value} else {}
  {
    assert forall other :: other in images + [image] <==> other in images || other == image;
  }

  /** The two sums differ by exactly what the files with unreadable names occupy. */
  lemma {:induction false} TotalsAgreeUpToUnnamed(images: seq<Image>)
    ensures SumImages(images, true) <= SumImages(images, false)
    ensures SumImages(images, true) == SumImages(images, false) <==>
            forall image | image in images && image.stem.None? :: Allocated(image) == 0
  {
    if images != [] {
      var n := |images| - 1;
      TotalsAgreeUpToUnnamed(images[..n]);
      assert images == images[..n] + [images[n]];
      assert forall image :: image in images <==> image in images[..n] || image == images[n];
    }
  }

  /** What `volume list` shows joins with what `status` reports exactly when no file whose name is not
      UTF-8 occupies anything. */
  lemma ListJoinsWithStatus(rows: seq<Row>, images: seq<Image>)
    requires SumOccupied(rows) == SumImages(images, true)
    ensures SumOccupied(rows) == SumImages(images, false) <==>
            forall image | image in images && image.stem.None? :: Allocated(image) == 0
  {
    TotalsAgreeUpToUnnamed(images);
  }

  // The prune.

  function Orphans(rows: seq<Row>): seq<Row> {
    if rows == [] then []
    else Orphans(rows[..|rows| - 1]) + if rows[|rows| - 1].origin == Orphan then [rows[|rows| - 1]] else []
  }

  lemma {:induction false} OrphansExactly(rows: seq<Row>, r: Row)
    ensures r in Orphans(rows) <==> r in rows && r.origin == Orphan
  {
    if rows != [] {
      OrphansExactly(rows[..|rows| - 1], r);
      assert rows == rows[..|rows| - 1] + [rows[|rows| - 1]];
    }
  }

  lemma {:induction false} OrphansAreUnique(rows: seq<Row>)
    requires UniqueNames(rows)
    ensures UniqueNames(Orphans(rows))
  {
    if rows != [] {
      var n := |rows| - 1;
      OrphansAreUnique(rows[..n]);
      forall r | r in Orphans(rows[..n]) ensures r.name != rows[n].name {
        OrphansExactly(rows[..n], r);
        var i :| 0 <= i < n && rows[i] == r;
      }
      assert forall i | 0 <= i < |Orphans(rows[..n])| :: Orphans(rows[..n])[i] in Orphans(rows[..n]);
    }
  }

  /** The directory without the images of some names. */
  function Without(images: seq<Image>, names: set<string>): seq<Image> {
    if images == [] then []
    else
      var last := images[|images| - 1];
      Without(images[..|images| - 1], names)
      + if last.stem.Some? && last.stem.value in names then [] else [last]
  }

  lemma {:induction false} WithoutExactly(images: seq<Image>, names: set<string>)
    ensures forall image :: image in Without(images, names) <==>
              image in images && !(image.stem.Some? && image.stem.value in names)
    ensures Stems(Without(images, names)) == Stems(images) - names
  {
    if images != [] {
      var n := |images| - 1;
      WithoutExactly(images[..n], names);
      assert images == images[..n] + [images[n]];
    }
  }

  lemma {:induction false} ImageOfWithout(images: seq<Image>, names: set<string>, name: string)
    requires name !in names
    ensures ImageOf(Without(images, names), name) == ImageOf(images, name)
  {
    if images != [] {
      var n := |images| - 1;
      ImageOfWithout(images[..n], names, name);
      var rest := Without(images[..n], names);
      assert (rest + [images[n]])[..|rest|] == rest && rest + [] == rest;
    }
  }

  lemma {:induction false} WithoutTwice(images: seq<Image>, a: set<string>, b: set<string>)
    ensures Without(Without(images, a), b) == Without(images, a + b)
  {
    if images != [] {
      var n := |images| - 1;
      WithoutTwice(images[..n], a, b);
      var rest, last := Without(images[..n], a), images[n];
      assert (rest + [last])[..|rest|] == rest;
      if last.stem.Some? && last.stem.value in a {
        assert rest + [] == rest;
      }
    }
  }

  lemma {:induction false} WithoutNobody(images: seq<Image>)
    ensures Without(images, {}) == images
  {
    if images != [] {
      WithoutNobody(images[..|images| - 1]);
      assert images == images[..|images| - 1] + [images[|images| - 1]];
    }
  }

  /** A project's volume directory. */
  class Directory {
    var images: seq<Image>
    /** Whether the system removes what it is asked to. */
    const obliging: bool

    constructor (images: seq<Image>, obliging: bool)
      ensures this.images == images && this.obliging == obliging
    {
      this.images, this.obliging := images, obliging;
    }

    /** Unlink one image; a file that is gone already, or will not go, is a failure. */
    method Remove(name: string) returns (ok: bool)
      modifies this
      ensures obliging && name in Stems(old(images)) ==> ok
      ensures ok ==> name in Stems(old(images)) && images == Without(old(images), {name})
      ensures !ok ==> images == old(images)
    {
      var refused: bool := *;
      if (refused && !obliging) || name !in Stems(images) { return false; }
      images := Without(images, {name});
      ok := true;
    }

    /** `prune` of the orphans of a survey. `reclaimed` is what it reports, nothing when it fails. */
    method Prune(rows: seq<Row>, dryRun: bool, approved: bool) returns (reclaimed: Option<nat>)
      modifies this
      ensures dryRun || !approved ==> images == old(images)
      ensures dryRun ==> reclaimed == Some(SumOccupied(Orphans(rows)))
      ensures !dryRun && !approved ==> reclaimed == Some(0)
      ensures !dryRun && approved && reclaimed.Some? ==>
                && images == Without(old(images), NamesOf(Orphans(rows)))
                && reclaimed.value == SumOccupied(Orphans(rows))
                && NamesOf(Orphans(rows)) <= Stems(old(images))
      ensures obliging && UniqueNames(rows) && NamesOf(Orphans(rows)) <= Stems(old(images)) ==> reclaimed.Some?
      ensures exists gone | gone <= NamesOf(Orphans(rows)) :: images == Without(old(images), gone)
    {
      var candidates := Orphans(rows);
      WithoutNobody(images);
      assert {} <= NamesOf(candidates);
      assert NamesOf([]) == {} && SumOccupied([]) == 0;
      var previewed := Occupied(candidates);
      if candidates == [] || dryRun {
        return Some(if dryRun then previewed else 0);
      }
      if !approved { return Some(0); }
      reclaimed := RemoveAll(candidates);
      if UniqueNames(rows) { OrphansAreUnique(rows); }
    }

    /** The removal loop; it stops at the first image that will not go. */
    method RemoveAll(candidates: seq<Row>) returns (reclaimed: Option<nat>)
      modifies this
      ensures reclaimed.Some? ==>
                && images == Without(old(images), NamesOf(candidates))
                && reclaimed.value == SumOccupied(candidates)
                && NamesOf(candidates) <= Stems(old(images))
      ensures obliging && UniqueNames(candidates) && NamesOf(candidates) <= Stems(old(images)) ==> reclaimed.Some?
      ensures exists gone | gone <= NamesOf(candidates) :: images == Without(old(images), gone)
    {
      WithoutNobody(images);
      assert NamesOf([]) == {} && SumOccupied([]) == 0;
      hide Without, SumOccupied, Stems, NamesOf, UniqueNames;
      var total: nat := 0;
      assert candidates[..0] == [];
      for k := 0 to |candidates|
        invariant images == Without(old(images), NamesOf(candidates[..k]))
        invariant total == SumOccupied(candidates[..k])
        invariant NamesOf(candidates[..k]) <= Stems(old(images))
      {
        WithoutExactly(old(images), NamesOf(candidates[..k]));
        UpTo(candidates, k);
        var ok := Remove(candidates[k].name);
        if !ok { return None; }
        WithoutTwice(old(images), NamesOf(candidates[..k]), {candidates[k].name});
        total := total + candidates[k].occupied;
      }
      assert candidates[..|candidates|] == candidates;
      reclaimed := Some(total);
    }
  }

  lemma UpTo(rows: seq<Row>, k: nat)
    requires k < |rows|
    ensures NamesOf(rows[..k]) <= NamesOf(rows) && rows[k].name in NamesOf(rows)
    ensures NamesOf(rows[..k + 1]) == NamesOf(rows[..k]) + {rows[k].name}
    ensures UniqueNames(rows) ==> rows[k].name !in NamesOf(rows[..k])
    ensures SumOccupied(rows[..k + 1]) == SumOccupied(rows[..k]) + rows[k].occupied
  {
    hide SumOccupied;
    SumOfPush(rows[..k], rows[k]);
    assert rows[..k + 1] == rows[..k] + [rows[k]];
    assert forall r :: r in rows[..k] + [rows[k]] <==> r in rows[..k] || r == rows[k];
    forall r | r in rows[..k] ensures r in rows && (UniqueNames(rows) ==> r.name != rows[k].name) {
      var i :| 0 <= i < k && rows[i] == r;
    }
  }

  method Occupied(rows: seq<Row>) returns (sum: nat)
    ensures sum == SumOccupied(rows)
  {
    sum := 0;
    for k := 0 to |rows|
      invariant sum == SumOccupied(rows[..k])
    {
      assert rows[..k + 1] == rows[..k] + [rows[k]];
      SumOfPush(rows[..k], rows[k]);
      sum := sum + rows[k].occupied;
    }
    assert rows[..|rows|] == rows;
  }

  /** Enumerated again after a prune of its own orphans: no orphan is left and every other row is the
      one it was. */
  lemma PruneLeavesNoOrphan(before: seq<Row>, after: seq<Row>, d: Declarations, images: seq<Image>)
    requires IsEnumeration(before, d, images)
    requires IsEnumeration(after, d, Without(images, NamesOf(Orphans(before))))
    ensures Orphans(after) == []
    ensures forall r :: r in after <==> r in before && r.origin != Orphan
  {
    var gone := NamesOf(Orphans(before));
    var left := Without(images, gone);
    WithoutExactly(images, gone);
    forall r ensures r in Orphans(before) <==> r in before && r.origin == Orphan { OrphansExactly(before, r); }
    forall name ensures name in gone <==> name in Stems(images) && !Reserved(name) && name !in Live(d) {
      OrphansAreWhatNothingDeclares(before, d, images, name);
    }
    hide RowOf;
    forall r | r in after ensures r in before && r.origin != Orphan {
      SurvivingRow(after, before, d, left, images, r, gone);
    }
    forall r | r in before && r.origin != Orphan ensures r in after {
      assert r.name !in gone by { if r.name in gone { RowOrigin(d, images, r); } }
      ImageOfWithout(images, gone, r.name);
      RowsAgree(d, left, images, r.name);
      assert r.name in NamesOf(after);
    }
    if Orphans(after) != [] {
      OrphansExactly(after, Orphans(after)[0]);
    }
  }

  lemma RowOrigin(d: Declarations, images: seq<Image>, r: Row)
    requires r == RowOf(d, images, r.name)
    ensures r.origin == Orphan <==> !Reserved(r.name) && r.name !in Live(d)
  {
  }

  lemma RowsAgree(d: Declarations, a: seq<Image>, b: seq<Image>, name: string)
    requires ImageOf(a, name) == ImageOf(b, name)
    ensures RowOf(d, a, name) == RowOf(d, b, name)
  {
  }

  lemma SurvivingRow(after: seq<Row>, before: seq<Row>, d: Declarations, left: seq<Image>, images: seq<Image>,
                     r: Row, gone: set<string>)
    requires IsEnumeration(before, d, images) && IsEnumeration(after, d, left) && left == Without(images, gone)
    requires forall name :: name in gone <==> name in Stems(images) && !Reserved(name) && name !in Live(d)
    requires r in after
    ensures r in before && r.origin != Orphan
  {
    hide RowOf;
    WithoutExactly(images, gone);
    assert r.name in NamesOf(after);
    assert r.name !in gone && r.name in NamesOf(before);
    ImageOfWithout(images, gone, r.name);
    RowsAgree(d, left, images, r.name);
    RowOrigin(d, left, r);
  }

  lemma OrphanNames(rows: seq<Row>, d: Declarations, images: seq<Image>)
    requires IsEnumeration(rows, d, images)
    ensures NamesOf(Orphans(rows)) == set name | name in Stems(images) && !Reserved(name) && name !in Live(d)
  {
    forall r ensures r in Orphans(rows) <==> r in rows && r.origin == Orphan { OrphansExactly(rows, r); }
    forall name ensures name in NamesOf(Orphans(rows)) <==>
                        name in Stems(images) && !Reserved(name) && name !in Live(d)
    {
      OrphansAreWhatNothingDeclares(rows, d, images, name);
    }
  }

  /** A declared volume whose image was there and is there no more. */
  ghost predicate LosesAnImage(before: seq<Image>, after: seq<Image>, now: Declarations) {
    exists name :: name in Live(now) && name in Stems(before) && name !in Stems(after)
  }

  /** The survey before the lock and the prune under it, with the declarations having become `now` in
      between. A prune that succeeds takes the image of a volume that is declared by then exactly when an
      unreserved image nothing declared at the survey has come to be declared. */
  method SurveyThenPrune(directory: Directory, surveyed: Declarations, now: Declarations)
    returns (reclaimed: Option<nat>)
    requires DistinctStems(directory.images)
    modifies directory
    ensures reclaimed.Some? ==>
              (LosesAnImage(old(directory.images), directory.images, now) <==>
               exists name :: name in Live(now) - Live(surveyed)
                              && name in Stems(old(directory.images)) && !Reserved(name))
    ensures reclaimed.None? && LosesAnImage(old(directory.images), directory.images, now) ==>
              exists name :: name in Live(now) - Live(surveyed)
                             && name in Stems(old(directory.images)) && !Reserved(name)
    ensures directory.obliging && (forall image | image in old(directory.images) :: image.stat.Some?) ==>
              reclaimed.Some?
    ensures forall name | name in Stems(old(directory.images)) && name !in Stems(directory.images) ::
              && name != "default" && name != "store"
              && (forall leaf | leaf in surveyed.leaves :: leaf.name != name)
              && (surveyed.recorded == surveyed.current ==>
                    forall v | v in surveyed.volumes && v.name == name :: v.kind == "manifest")
    ensures reclaimed.Some? ==>
              forall name | name in Stems(directory.images) ::
                || name == "default" || name == "store" || (exists leaf | leaf in surveyed.leaves :: leaf.name == name)
                || (surveyed.recorded == surveyed.current
                    && exists v | v in surveyed.volumes && v.name == name :: v.kind != "manifest")
  {
    hide Live, Without, SumOccupied, SumImages;
    forall name ensures name in Live(surveyed) <==> !Unclaimed(surveyed, name) { LiveIsClaimed(surveyed, name); }
    ghost var before := directory.images;
    var rows := Enumerate(surveyed, directory.images);
    if rows.None? { return None; }
    OrphanNames(rows.value, surveyed, before);
    reclaimed := directory.Prune(rows.value, false, true);
    ghost var gone :| gone <= NamesOf(Orphans(rows.value)) && directory.images == Without(before, gone);
    WithoutExactly(before, gone);
    if reclaimed.Some? { WithoutExactly(before, NamesOf(Orphans(rows.value))); }
  }

  /** Concretely: an image left from earlier, surveyed while nothing declares it and declared again before
      the removal. */
  lemma AStaleSurveyTakesADeclaredImage(rows: seq<Row>)
    requires IsEnumeration(rows, StaleSurvey([]), [LeftOver()])
    ensures LosesAnImage([LeftOver()], Without([LeftOver()], NamesOf(Orphans(rows))),
                         StaleSurvey([Leaf("cache", "/cache", None)]))
  {
    var images, now := [LeftOver()], StaleSurvey([Leaf("cache", "/cache", None)]);
    OrphanNames(rows, StaleSurvey([]), images);
    WithoutExactly(images, NamesOf(Orphans(rows)));
    assert LeftOver() in images && now.leaves[0] in now.leaves;
    assert "cache" in Live(now) && "cache" in Stems(images);
    assert "cache" !in Live(StaleSurvey([])) && !Reserved("cache");
  }

  function LeftOver(): Image { Image(Some("cache"), Some(Stat(8, 4096))) }

  function StaleSurvey(leaves: seq<Leaf>): Declarations {
    var composition := Composition("base", [], None);
    Declarations(composition, [], composition, leaves, "project")
  }
}
