/** The manifest rendered as the personal leaf of the merge, and a reader that recovers what it declares. */
module NixLeaf {
  import opened Wrappers
  import Decimal
  import opened NixStrings

  datatype Mount = Mount(source: string, target: string, readonly: bool)
  datatype Volume = Volume(name: string, mount: string, sizeGib: Option<nat>)
  datatype Resources = Resources(memMib: Option<nat>, vcpu: Option<nat>)
  datatype DefaultVolume = DefaultVolume(sizeGib: Option<nat>, persist: seq<string>)
  datatype EgressMode = Open | Allowlist
  datatype Egress = Egress(mode: Option<EgressMode>, allow: seq<string>)

  /** The tables of a manifest that reach Nix. `env` lists the entries in key order. */
  datatype Manifest = Manifest(
    env: seq<(string, string)>,
    mounts: seq<Mount>,
    resources: Option<Resources>,
    volumes: seq<Volume>,
    volume: Option<DefaultVolume>,
    egress: Option<Egress>)

  // ---- One row of any list the leaf holds ----

  datatype Kind = EnvRows | MountRows | VolumeRows | Strings

  datatype Row =
    | EnvRow(key: string, content: string)
    | MountRow(mount: Mount)
    | VolumeRow(volume: Volume)
    | StringRow(text: string)

  function KindOf(row: Row): Kind {
    match row
    case EnvRow(_, _) => EnvRows
    case MountRow(_) => MountRows
    case VolumeRow(_) => VolumeRows
    case StringRow(_) => Strings
  }

  function Quote(value: string): string {
    NixString(value) + "\""
  }

  /** `render_optional_u32`. */
  function OptionalNumber(name: string, value: Option<nat>): string {
    match value
    case Some(n) => " " + name + " = " + Decimal.Print(n) + ";"
    case None => ""
  }

  function RenderRow(row: Row): string {
    match row
    case EnvRow(key, content) => " \"" + Quote(key) + " = \"" + Quote(content) + ";"
    case MountRow(Mount(source, target, readonly)) =>
      " { source = \"" + Quote(source) + "; target = \"" + Quote(target)
      + "; readonly = " + (if readonly then "true" else "false") + "; }"
    case VolumeRow(Volume(name, mount, size)) =>
      " { name = \"" + Quote(name) + "; mount = \"" + Quote(mount) + ";" + OptionalNumber("size_gib", size) + " }"
    case StringRow(text) => " \"" + Quote(text)
  }

  function RenderRows(rows: seq<Row>): string {
    if rows == [] then "" else RenderRow(rows[0]) + RenderRows(rows[1..])
  }

  function Close(kind: Kind): string {
    match kind
    case EnvRows => " };\n"
    case MountRows => " ];\n"
    case VolumeRows => " ];\n"
    case Strings => " ];"
  }

  // ---- The leaf ----

  function EnvRowsOf(env: seq<(string, string)>): seq<Row> {
    seq(|env|, i requires 0 <= i < |env| => EnvRow(env[i].0, env[i].1))
  }

  /** A declared workspace mounts at the path the host holds it at. */
  function IdentityMount(path: string): Mount {
    Mount(path, path, false)
  }

  function Mounts(m: Manifest, workspaces: seq<string>): seq<Mount> {
    m.mounts + seq(|workspaces|, i requires 0 <= i < |workspaces| => IdentityMount(workspaces[i]))
  }

  function MountRowsOf(mounts: seq<Mount>): seq<Row> {
    seq(|mounts|, i requires 0 <= i < |mounts| => MountRow(mounts[i]))
  }

  function VolumeRowsOf(volumes: seq<Volume>): seq<Row> {
    seq(|volumes|, i requires 0 <= i < |volumes| => VolumeRow(volumes[i]))
  }

  function StringRowsOf(texts: seq<string>): seq<Row> {
    seq(|texts|, i requires 0 <= i < |texts| => StringRow(texts[i]))
  }

  /** A list section appears only when it has a row. */
  function ListSection(head: string, rows: seq<Row>, close: string): string {
    if rows == [] then "" else head + RenderRows(rows) + close
  }

  function ResourcesSection(resources: Option<Resources>): string {
    match resources
    case Some(r) =>
      if r.memMib == None && r.vcpu == None then ""
      else "    resources = {" + OptionalNumber("mem_mib", r.memMib) + OptionalNumber("vcpu", r.vcpu) + " };\n"
    case None => ""
  }

  function VolumeSection(volume: Option<DefaultVolume>): string {
    match volume
    case Some(v) =>
      "    volume = {" + OptionalNumber("size_gib", v.sizeGib)
      + ListSection(" persist = [", StringRowsOf(v.persist), " ];") + " };\n"
    case None => ""
  }

  function ModeText(mode: Option<EgressMode>): string {
    match mode
    case Some(Open) => " mode = \"open\";"
    case Some(Allowlist) => " mode = \"allowlist\";"
    case None => ""
  }

  function EgressSection(egress: Option<Egress>): string {
    match egress
    case Some(e) =>
      "  sandbox.egress = {" + ModeText(e.mode) + ListSection(" allow = [", StringRowsOf(e.allow), " ];") + " };\n"
    case None => ""
  }

  function Body(m: Manifest, workspaces: seq<string>): string {
    ListSection("    env = {", EnvRowsOf(m.env), " };\n")
    + (ListSection("    mounts = [", MountRowsOf(Mounts(m, workspaces)), " ];\n")
    + (ResourcesSection(m.resources)
    + (ListSection("    volumes = [", VolumeRowsOf(m.volumes), " ];\n")
    + VolumeSection(m.volume))))
  }

  function Leaf(m: Manifest, workspaces: seq<string>): string {
    var body := Body(m, workspaces);
    "{ ... }:\n{\n" + (if body == "" then "" else "  vivarium = {\n" + body + "  };\n")
    + EgressSection(m.egress) + "}\n"
  }

  // ---- The renderer: one buffer, pushed to table by table ----

  lemma {:induction false} RenderRowsConcat(a: seq<Row>, b: seq<Row>)
    ensures RenderRows(a + b) == RenderRows(a) + RenderRows(b)
  {
    if a == [] {
      assert a + b == b;
    } else {
      assert (a + b)[0] == a[0] && (a + b)[1..] == a[1..] + b;
      RenderRowsConcat(a[1..], b);
    }
  }

  lemma RenderRowsSnoc(rows: seq<Row>, row: Row)
    ensures RenderRows(rows + [row]) == RenderRows(rows) + RenderRow(row)
  {
    hide RenderRow;
    RenderRowsConcat(rows, [row]);
    assert RenderRows([row]) == RenderRow(row) + RenderRows([]);
  }

  method PushRows(buffer: string, rows: seq<Row>) returns (text: string)
    ensures text == buffer + RenderRows(rows)
  {
    hide RenderRow;
    text := buffer;
    for i := 0 to |rows|
      invariant text == buffer + RenderRows(rows[..i])
    {
      assert rows[..i + 1] == rows[..i] + [rows[i]];
      RenderRowsSnoc(rows[..i], rows[i]);
      text := text + RenderRow(rows[i]);
    }
    assert rows[..|rows|] == rows;
  }

  method PushSection(buffer: string, head: string, rows: seq<Row>, close: string) returns (text: string)
    ensures text == buffer + ListSection(head, rows, close)
  {
    hide RenderRows;
    text := buffer;
    if rows != [] {
      text := text + head;
      text := PushRows(text, rows);
      text := text + close;
      assert text == buffer + (head + RenderRows(rows) + close);
    }
  }

  method PushVolume(buffer: string, volume: DefaultVolume) returns (text: string)
    ensures text == buffer + VolumeSection(Some(volume))
  {
    text := buffer + "    volume = {" + OptionalNumber("size_gib", volume.sizeGib);
    text := PushSection(text, " persist = [", StringRowsOf(volume.persist), " ];");
    text := text + " };\n";
  }

  method PushEgress(buffer: string, egress: Egress) returns (text: string)
    ensures text == buffer + EgressSection(Some(egress))
  {
    text := buffer + "  sandbox.egress = {" + ModeText(egress.mode);
    text := PushSection(text, " allow = [", StringRowsOf(egress.allow), " ];");
    text := text + " };\n";
  }

  method PushResources(buffer: string, resources: Option<Resources>) returns (text: string)
    ensures text == buffer + ResourcesSection(resources)
  {
    hide OptionalNumber;
    text := buffer;
    if resources.Some? && (resources.value.memMib.Some? || resources.value.vcpu.Some?) {
      text := text + "    resources = {";
      text := text + OptionalNumber("mem_mib", resources.value.memMib);
      text := text + OptionalNumber("vcpu", resources.value.vcpu);
      text := text + " };\n";
    }
  }

  /** The body is its five sections in order, however they are bracketed. */
  lemma BodyInOrder(m: Manifest, workspaces: seq<string>)
    ensures Body(m, workspaces)
            == "" + ListSection("    env = {", EnvRowsOf(m.env), " };\n")
               + ListSection("    mounts = [", MountRowsOf(Mounts(m, workspaces)), " ];\n")
               + ResourcesSection(m.resources)
               + ListSection("    volumes = [", VolumeRowsOf(m.volumes), " ];\n")
               + VolumeSection(m.volume)
  {
    hide RenderRows, OptionalNumber, ListSection, VolumeSection, ResourcesSection, Mounts;
  }

  lemma BodyBefore(m: Manifest, workspaces: seq<string>, rest: string)
    ensures Body(m, workspaces) + rest
            == ListSection("    env = {", EnvRowsOf(m.env), " };\n")
               + (ListSection("    mounts = [", MountRowsOf(Mounts(m, workspaces)), " ];\n")
                  + (ResourcesSection(m.resources)
                     + (ListSection("    volumes = [", VolumeRowsOf(m.volumes), " ];\n")
                        + (VolumeSection(m.volume) + rest))))
  {
    hide RenderRows, OptionalNumber, ListSection, VolumeSection, ResourcesSection, Mounts;
  }

  method RenderTables(m: Manifest, workspaces: seq<string>) returns (vivarium: string)
    ensures vivarium == Body(m, workspaces)
  {
    BodyInOrder(m, workspaces);
    hide RenderRows, OptionalNumber, ListSection, VolumeSection, ResourcesSection, Mounts, Body;
    vivarium := PushSection("", "    env = {", EnvRowsOf(m.env), " };\n");
    vivarium := PushSection(vivarium, "    mounts = [", MountRowsOf(Mounts(m, workspaces)), " ];\n");
    vivarium := PushResources(vivarium, m.resources);
    vivarium := PushSection(vivarium, "    volumes = [", VolumeRowsOf(m.volumes), " ];\n");
    if m.volume.Some? {
      vivarium := PushVolume(vivarium, m.volume.value);
    } else {
      assert VolumeSection(m.volume) == "" by { VolumeSectionNone(); }
    }
  }

  lemma VolumeSectionNone()
    ensures VolumeSection(None) == "" && EgressSection(None) == ""
  {
  }

  method RenderManifestModule(m: Manifest, workspaces: seq<string>) returns (value: string)
    ensures value == Leaf(m, workspaces)
  {
    hide Body, EgressSection;
    var vivarium := RenderTables(m, workspaces);
    value := "{ ... }:\n{\n";
    if vivarium != "" {
      value := value + "  vivarium = {\n";
      value := value + vivarium;
      value := value + "  };\n";
    }
    if m.egress.Some? {
      value := PushEgress(value, m.egress.value);
    } else {
      VolumeSectionNone();
    }
    value := value + "}\n";
  }

  // ---- The reader ----

  function Expect(t: string, literal: string): Option<string> {
    if literal <= t then Some(t[|literal|..]) else None
  }

  function ReadOptional(name: string, t: string): Option<(Option<nat>, string)> {
    match Expect(t, " " + name + " = ")
    case None => Some((None, t))
    case Some(t1) =>
      match Decimal.Read(t1)
      case None => None
      case Some((n, t2)) =>
        match Expect(t2, ";")
        case Some(t3) => Some((Some(n), t3))
        case None => None
  }

  /** A literal, then a string up to its closing quote. */
  function ReadQuoted(before: string, t: string): Option<(string, string)> {
    match Expect(t, before)
    case None => None
    case Some(t1) => ReadString(t1)
  }

  function ReadFlag(t: string): Option<(bool, string)> {
    match Expect(t, "; readonly = true; }")
    case Some(t1) => Some((true, t1))
    case None =>
      match Expect(t, "; readonly = false; }")
      case Some(t1) => Some((false, t1))
      case None => None
  }

  function ReadRow(kind: Kind, t: string): Option<(Row, string)> {
    match kind
    case EnvRows =>
      (match ReadQuoted(" \"", t)
       case None => None
       case Some((key, t1)) =>
         match ReadQuoted(" = \"", t1)
         case None => None
         case Some((content, t2)) =>
           match Expect(t2, ";")
           case None => None
           case Some(t3) => Some((EnvRow(key, content), t3)))
    case MountRows =>
      (match ReadQuoted(" { source = \"", t)
       case None => None
       case Some((source, t1)) =>
         match ReadQuoted("; target = \"", t1)
         case None => None
         case Some((target, t2)) =>
           match ReadFlag(t2)
           case None => None
           case Some((readonly, t3)) => Some((MountRow(Mount(source, target, readonly)), t3)))
    case VolumeRows =>
      (match ReadQuoted(" { name = \"", t)
       case None => None
       case Some((name, t1)) =>
         match ReadQuoted("; mount = \"", t1)
         case None => None
         case Some((mount, t2)) =>
           match Expect(t2, ";")
           case None => None
           case Some(t3) =>
             match ReadOptional("size_gib", t3)
             case None => None
             case Some((size, t4)) =>
               match Expect(t4, " }")
               case None => None
               case Some(t5) => Some((VolumeRow(Volume(name, mount, size)), t5)))
    case Strings =>
      match ReadQuoted(" \"", t)
      case None => None
      case Some((text, t1)) => Some((StringRow(text), t1))
  }

  /** Rows until the list closes. */
  function ReadRows(kind: Kind, t: string): Option<(seq<Row>, string)>
    decreases |t|
  {
    match Expect(t, Close(kind))
    case Some(rest) => Some(([], rest))
    case None =>
      match ReadRow(kind, t)
      case None => None
      case Some((row, t1)) =>
        if |t1| >= |t| then None
        else
          match ReadRows(kind, t1)
          case None => None
          case Some((rows, rest)) => Some(([row] + rows, rest))
  }

  function ReadSection(head: string, kind: Kind, t: string): Option<(seq<Row>, string)> {
    match Expect(t, head)
    case None => Some(([], t))
    case Some(t1) => ReadRows(kind, t1)
  }

  function ReadResources(t: string): Option<(Resources, string)> {
    match Expect(t, "    resources = {")
    case None => Some((Resources(None, None), t))
    case Some(t1) =>
      match ReadOptional("mem_mib", t1)
      case None => None
      case Some((mem, t2)) =>
        match ReadOptional("vcpu", t2)
        case None => None
        case Some((vcpu, t3)) =>
          match Expect(t3, " };\n")
          case None => None
          case Some(t4) => Some((Resources(mem, vcpu), t4))
  }

  function ReadVolume(t: string): Option<(Option<(Option<nat>, seq<Row>)>, string)> {
    match Expect(t, "    volume = {")
    case None => Some((None, t))
    case Some(t1) =>
      match ReadOptional("size_gib", t1)
      case None => None
      case Some((size, t2)) =>
        match ReadSection(" persist = [", Strings, t2)
        case None => None
        case Some((rows, t3)) =>
          match Expect(t3, " };\n")
          case None => None
          case Some(t4) => Some((Some((size, rows)), t4))
  }

  function ReadMode(t: string): (Option<EgressMode>, string) {
    match Expect(t, " mode = \"open\";")
    case Some(t1) => (Some(Open), t1)
    case None =>
      match Expect(t, " mode = \"allowlist\";")
      case Some(t1) => (Some(Allowlist), t1)
      case None => (None, t)
  }

  function ReadEgress(t: string): Option<(Option<(Option<EgressMode>, seq<Row>)>, string)> {
    match Expect(t, "  sandbox.egress = {")
    case None => Some((None, t))
    case Some(t1) =>
      var (mode, t2) := ReadMode(t1);
      match ReadSection(" allow = [", Strings, t2)
      case None => None
      case Some((rows, t3)) =>
        match Expect(t3, " };\n")
        case None => None
        case Some(t4) => Some((Some((mode, rows)), t4))
  }

  /** Everything the leaf declares. A resources table that declares nothing says nothing. */
  datatype Declared = Declared(
    env: seq<Row>, mounts: seq<Row>, resources: Resources, volumes: seq<Row>,
    volume: Option<(Option<nat>, seq<Row>)>)

  const NOTHING := Declared([], [], Resources(None, None), [], None)

  function ReadBody(t: string): Option<(Declared, string)> {
    match ReadSection("    env = {", EnvRows, t)
    case None => None
    case Some((env, t1)) =>
      match ReadSection("    mounts = [", MountRows, t1)
      case None => None
      case Some((mounts, t2)) =>
        match ReadResources(t2)
        case None => None
        case Some((resources, t3)) =>
          match ReadSection("    volumes = [", VolumeRows, t3)
          case None => None
          case Some((volumes, t4)) =>
            match ReadVolume(t4)
            case None => None
            case Some((volume, t5)) => Some((Declared(env, mounts, resources, volumes, volume), t5))
  }

  function ReadTables(t: string): Option<(Declared, string)> {
    match Expect(t, "  vivarium = {\n")
    case None => Some((NOTHING, t))
    case Some(t1) =>
      match ReadBody(t1)
      case None => None
      case Some((declared, t2)) =>
        match Expect(t2, "  };\n")
        case None => None
        case Some(t3) => Some((declared, t3))
  }

  function ReadLeaf(text: string): Option<(Declared, Option<(Option<EgressMode>, seq<Row>)>)> {
    match Expect(text, "{ ... }:\n{\n")
    case None => None
    case Some(t1) =>
      match ReadTables(t1)
      case None => None
      case Some((declared, t2)) =>
        match ReadEgress(t2)
        case None => None
        case Some((egress, t3)) => if t3 == "}\n" then Some((declared, egress)) else None
  }

  // ---- What the reader recovers ----

  lemma ExpectPrefix(literal: string, rest: string)
    ensures Expect(literal + rest, literal) == Some(rest)
  {
    assert (literal + rest)[|literal|..] == rest;
  }

  lemma ReadOfQuoted(before: string, value: string, rest: string)
    ensures ReadQuoted(before, before + Quote(value) + rest) == Some((value, rest))
  {
    assert before + Quote(value) + rest == before + (NixString(value) + ("\"" + rest));
    ExpectPrefix(before, NixString(value) + ("\"" + rest));
    ReadOfNixString(value, rest);
  }

  lemma ReadOfOptional(name: string, value: Option<nat>, rest: string)
    requires !(" " + name + " = " <= rest)
    ensures ReadOptional(name, OptionalNumber(name, value) + rest) == Some((value, rest))
  {
    if value.Some? {
      var head := " " + name + " = ";
      var t1 := Decimal.Print(value.value) + (";" + rest);
      assert OptionalNumber(name, value) + rest == head + t1;
      ExpectPrefix(head, t1);
      Decimal.ReadOfPrint(value.value, ";" + rest);
      ExpectPrefix(";", rest);
    } else {
      assert OptionalNumber(name, value) + rest == rest;
    }
  }

  lemma ReadOfEnvRow(key: string, content: string, rest: string)
    ensures ReadRow(EnvRows, RenderRow(EnvRow(key, content)) + rest) == Some((EnvRow(key, content), rest))
  {
    hide NixString, ReadQuoted, Quote;
    var t1 := " = \"" + Quote(content) + (";" + rest);
    assert RenderRow(EnvRow(key, content)) + rest == " \"" + Quote(key) + t1;
    ReadOfQuoted(" \"", key, t1);
    ReadOfQuoted(" = \"", content, ";" + rest);
    ExpectPrefix(";", rest);
  }

  lemma ReadOfFlag(readonly: bool, rest: string)
    ensures ReadFlag("; readonly = " + (if readonly then "true" else "false") + "; }" + rest) == Some((readonly, rest))
  {
    var flag := if readonly then "; readonly = true; }" else "; readonly = false; }";
    assert "; readonly = " + (if readonly then "true" else "false") + "; }" + rest == flag + rest;
    ExpectPrefix(flag, rest);
    assert (flag + rest)[13] == if readonly then 't' else 'f';
  }

  lemma ReadOfMountRow(mount: Mount, rest: string)
    ensures ReadRow(MountRows, RenderRow(MountRow(mount)) + rest) == Some((MountRow(mount), rest))
  {
    hide NixString, ReadQuoted, Quote, ReadFlag;
    var flag := "; readonly = " + (if mount.readonly then "true" else "false") + "; }" + rest;
    var t1 := "; target = \"" + Quote(mount.target) + flag;
    assert RenderRow(MountRow(mount)) + rest == " { source = \"" + Quote(mount.source) + t1;
    ReadOfQuoted(" { source = \"", mount.source, t1);
    ReadOfQuoted("; target = \"", mount.target, flag);
    ReadOfFlag(mount.readonly, rest);
  }

  lemma ReadOfVolumeRow(volume: Volume, rest: string)
    ensures ReadRow(VolumeRows, RenderRow(VolumeRow(volume)) + rest) == Some((VolumeRow(volume), rest))
  {
    hide NixString, ReadQuoted, Quote, ReadOptional, OptionalNumber;
    var t4 := " }" + rest;
    var t3 := OptionalNumber("size_gib", volume.sizeGib) + t4;
    var t1 := "; mount = \"" + Quote(volume.mount) + (";" + t3);
    assert RenderRow(VolumeRow(volume)) + rest == " { name = \"" + Quote(volume.name) + t1;
    ReadOfQuoted(" { name = \"", volume.name, t1);
    ReadOfQuoted("; mount = \"", volume.mount, ";" + t3);
    ExpectPrefix(";", t3);
    assert t4[1] == '}' && (" " + "size_gib" + " = ")[1] == 's';
    ReadOfOptional("size_gib", volume.sizeGib, t4);
    ExpectPrefix(" }", rest);
  }

  /** The second character tells a row from the end of its list. */
  lemma RowIsNoClose(row: Row, rest: string)
    ensures RenderRow(row) != []
    ensures Expect(RenderRow(row) + rest, Close(KindOf(row))) == None
  {
    hide NixString, OptionalNumber;
    var t := RenderRow(row) + rest;
    assert t[1] in {'"', '{'};
    assert Close(KindOf(row))[1] in {'}', ']'};
  }

  lemma ReadOfRow(row: Row, rest: string)
    ensures ReadRow(KindOf(row), RenderRow(row) + rest) == Some((row, rest))
    ensures Expect(RenderRow(row) + rest, Close(KindOf(row))) == None
    ensures RenderRow(row) != []
  {
    RowIsNoClose(row, rest);
    match row {
      case EnvRow(key, content) => ReadOfEnvRow(key, content, rest);
      case MountRow(mount) => ReadOfMountRow(mount, rest);
      case VolumeRow(volume) => ReadOfVolumeRow(volume, rest);
      case StringRow(text) => ReadOfQuoted(" \"", text, rest);
    }
  }

  lemma {:induction false} ReadOfRows(kind: Kind, rows: seq<Row>, rest: string)
    requires forall i | 0 <= i < |rows| :: KindOf(rows[i]) == kind
    ensures ReadRows(kind, RenderRows(rows) + (Close(kind) + rest)) == Some((rows, rest))
  {
    hide RenderRow, ReadRow;
    var tail := Close(kind) + rest;
    if rows == [] {
      assert RenderRows(rows) + tail == tail;
      ExpectPrefix(Close(kind), rest);
    } else {
      var t1 := RenderRows(rows[1..]) + tail;
      assert RenderRows(rows) + tail == RenderRow(rows[0]) + t1;
      ReadOfRow(rows[0], t1);
      ReadOfRows(kind, rows[1..], rest);
      assert rows == [rows[0]] + rows[1..];
      assert KindOf(rows[0]) == kind;
    }
  }

  lemma ReadOfSection(head: string, kind: Kind, rows: seq<Row>, rest: string)
    requires forall i | 0 <= i < |rows| :: KindOf(rows[i]) == kind
    requires !(head <= rest)
    ensures ReadSection(head, kind, ListSection(head, rows, Close(kind)) + rest) == Some((rows, rest))
  {
    hide RenderRows, ReadRows;
    if rows == [] {
      assert ListSection(head, rows, Close(kind)) + rest == rest;
    } else {
      var t1 := RenderRows(rows) + (Close(kind) + rest);
      assert ListSection(head, rows, Close(kind)) + rest == head + t1;
      ExpectPrefix(head, t1);
      ReadOfRows(kind, rows, rest);
    }
  }

  lemma SectionHead(head: string, rows: seq<Row>, close: string, rest: string)
    requires |head| >= 2 && |rest| >= 2
    ensures |ListSection(head, rows, close) + rest| >= 2
    ensures (ListSection(head, rows, close) + rest)[1] in {head[1], rest[1]}
  {
  }

  /** The resources table as read: the two spellings of "nothing declared" are one. */
  function DeclaredResources(resources: Option<Resources>): Resources {
    match resources
    case Some(r) => r
    case None => Resources(None, None)
  }

  lemma ReadOfResources(resources: Option<Resources>, rest: string)
    requires !("    resources = {" <= rest)
    ensures ReadResources(ResourcesSection(resources) + rest) == Some((DeclaredResources(resources), rest))
  {
    var r := DeclaredResources(resources);
    if r == Resources(None, None) {
      assert ResourcesSection(resources) + rest == rest;
    } else {
      var t3 := " };\n" + rest;
      var t2 := OptionalNumber("vcpu", r.vcpu) + t3;
      var t1 := OptionalNumber("mem_mib", r.memMib) + t2;
      assert ResourcesSection(resources) + rest == "    resources = {" + t1;
      ExpectPrefix("    resources = {", t1);
      assert t3[1] == '}' && t2[1] in {'v', '}'};
      assert (" " + "mem_mib" + " = ")[1] == 'm' && (" " + "vcpu" + " = ")[1] == 'v';
      ReadOfOptional("mem_mib", r.memMib, t2);
      ReadOfOptional("vcpu", r.vcpu, t3);
      ExpectPrefix(" };\n", rest);
    }
  }

  lemma RowsAreStrings(texts: seq<string>)
    ensures forall i | 0 <= i < |StringRowsOf(texts)| :: KindOf(StringRowsOf(texts)[i]) == Strings
  {
  }

  function DeclaredVolume(volume: Option<DefaultVolume>): Option<(Option<nat>, seq<Row>)> {
    match volume
    case Some(v) => Some((v.sizeGib, StringRowsOf(v.persist)))
    case None => None
  }

  lemma ReadOfVolume(volume: Option<DefaultVolume>, rest: string)
    requires !("    volume = {" <= rest)
    ensures ReadVolume(VolumeSection(volume) + rest) == Some((DeclaredVolume(volume), rest))
  {
    hide OptionalNumber, ReadOptional, ListSection, ReadSection, StringRowsOf;
    if volume.Some? {
      var v := volume.value;
      var t3 := " };\n" + rest;
      var t2 := ListSection(" persist = [", StringRowsOf(v.persist), " ];") + t3;
      var t1 := OptionalNumber("size_gib", v.sizeGib) + t2;
      assert VolumeSection(volume) + rest == "    volume = {" + t1;
      ExpectPrefix("    volume = {", t1);
      SectionHead(" persist = [", StringRowsOf(v.persist), " ];", t3);
      assert (" " + "size_gib" + " = ")[1] == 's' && " persist = ["[1] == 'p';
      ReadOfOptional("size_gib", v.sizeGib, t2);
      RowsAreStrings(v.persist);
      ReadOfSection(" persist = [", Strings, StringRowsOf(v.persist), t3);
      ExpectPrefix(" };\n", rest);
    } else {
      assert VolumeSection(volume) + rest == rest;
    }
  }

  function DeclaredEgress(egress: Option<Egress>): Option<(Option<EgressMode>, seq<Row>)> {
    match egress
    case Some(e) => Some((e.mode, StringRowsOf(e.allow)))
    case None => None
  }

  lemma ReadOfMode(mode: Option<EgressMode>, rest: string)
    requires |rest| >= 2 && rest[1] != 'm'
    ensures ReadMode(ModeText(mode) + rest) == (mode, rest)
  {
    var t := ModeText(mode) + rest;
    if mode == Some(Open) {
      ExpectPrefix(" mode = \"open\";", rest);
    } else if mode == Some(Allowlist) {
      assert t[9] == 'a';
      ExpectPrefix(" mode = \"allowlist\";", rest);
    } else {
      assert t == rest;
    }
  }

  lemma ReadOfEgress(egress: Option<Egress>, rest: string)
    requires !("  sandbox.egress = {" <= rest)
    ensures ReadEgress(EgressSection(egress) + rest) == Some((DeclaredEgress(egress), rest))
  {
    hide ModeText, ReadMode, ListSection, ReadSection, StringRowsOf;
    if egress.Some? {
      var e := egress.value;
      var t3 := " };\n" + rest;
      var t2 := ListSection(" allow = [", StringRowsOf(e.allow), " ];") + t3;
      var t1 := ModeText(e.mode) + t2;
      assert EgressSection(egress) + rest == "  sandbox.egress = {" + t1;
      ExpectPrefix("  sandbox.egress = {", t1);
      SectionHead(" allow = [", StringRowsOf(e.allow), " ];", t3);
      ReadOfMode(e.mode, t2);
      assert " allow = ["[1] == 'a';
      RowsAreStrings(e.allow);
      ReadOfSection(" allow = [", Strings, StringRowsOf(e.allow), t3);
      ExpectPrefix(" };\n", rest);
    } else {
      assert EgressSection(egress) + rest == rest;
    }
  }

  /** What a manifest and its resolved workspaces declare. */
  function DeclaredBy(m: Manifest, workspaces: seq<string>): Declared {
    Declared(EnvRowsOf(m.env), MountRowsOf(Mounts(m, workspaces)), DeclaredResources(m.resources),
             VolumeRowsOf(m.volumes), DeclaredVolume(m.volume))
  }

  /** The table ends here, or a section begins whose name starts with one of `letters`. */
  predicate StartsWith(t: string, letters: set<char>) {
    |t| > 2 && (t[2] == '}' || (|t| > 4 && t[4] in letters))
  }

  lemma ListHead(head: string, rows: seq<Row>, close: string, t: string, letters: set<char>)
    requires |head| > 4 && StartsWith(t, letters)
    ensures StartsWith(ListSection(head, rows, close) + t, letters + {head[4]})
  {
    hide RenderRows;
    var s := ListSection(head, rows, close) + t;
    if rows == [] {
      assert s == t;
    } else {
      assert s[4] == head[4];
    }
  }

  lemma ResourcesHead(resources: Option<Resources>, t: string, letters: set<char>)
    requires StartsWith(t, letters)
    ensures StartsWith(ResourcesSection(resources) + t, letters + {'r'})
  {
    hide OptionalNumber;
    assert ResourcesSection(resources) == "" ==> ResourcesSection(resources) + t == t;
  }

  /** A `volume` table is told from a `volumes` list by the tenth character after the line's first. */
  lemma VolumeHead(volume: Option<DefaultVolume>, t: string)
    requires |t| > 2 && t[2] == '}'
    ensures var s := VolumeSection(volume) + t;
            StartsWith(s, {'v'}) && (s[2] == '}' || (|s| > 10 && s[10] == ' '))
  {
    hide OptionalNumber, ListSection;
    assert volume.None? ==> VolumeSection(volume) + t == t;
  }

  lemma NoSuchSection(head: string, t: string, letters: set<char>)
    requires StartsWith(t, letters) && |head| > 4 && head[2] != '}' && head[4] !in letters
    ensures !(head <= t)
  {
  }

  // The body from each of its sections on.

  function FromVolume(m: Manifest, rest: string): string {
    VolumeSection(m.volume) + rest
  }

  function FromVolumes(m: Manifest, rest: string): string {
    ListSection("    volumes = [", VolumeRowsOf(m.volumes), " ];\n") + FromVolume(m, rest)
  }

  function FromResources(m: Manifest, rest: string): string {
    ResourcesSection(m.resources) + FromVolumes(m, rest)
  }

  function FromMounts(m: Manifest, workspaces: seq<string>, rest: string): string {
    ListSection("    mounts = [", MountRowsOf(Mounts(m, workspaces)), " ];\n") + FromResources(m, rest)
  }

  lemma VolumesHead(m: Manifest, rest: string)
    requires |rest| > 2 && rest[2] == '}'
    ensures StartsWith(FromVolumes(m, rest), {'v'}) && !("    volumes = [" <= FromVolume(m, rest))
  {
    hide ListSection, VolumeSection;
    VolumeHead(m.volume, rest);
    ListHead("    volumes = [", VolumeRowsOf(m.volumes), " ];\n", FromVolume(m, rest), {'v'});
    assert {'v'} + {'v'} == {'v'};
  }

  lemma MountsHead(m: Manifest, workspaces: seq<string>, rest: string)
    requires StartsWith(FromVolumes(m, rest), {'v'})
    ensures StartsWith(FromResources(m, rest), {'v', 'r'})
    ensures StartsWith(FromMounts(m, workspaces, rest), {'v', 'r', 'm'})
  {
    hide ListSection, ResourcesSection, FromVolumes, StartsWith, Mounts, MountRowsOf;
    ResourcesHead(m.resources, FromVolumes(m, rest), {'v'});
    assert {'v'} + {'r'} == {'v', 'r'};
    ListHead("    mounts = [", MountRowsOf(Mounts(m, workspaces)), " ];\n", FromResources(m, rest), {'v', 'r'});
    assert {'v', 'r'} + {'m'} == {'v', 'r', 'm'};
  }

  /** The fifth character on tells the sections apart, or the end of the table. */
  lemma ReadOfBody(m: Manifest, workspaces: seq<string>, rest: string)
    requires "  };\n" <= rest
    ensures ReadBody(Body(m, workspaces) + rest) == Some((DeclaredBy(m, workspaces), rest))
  {
    assert |rest| > 2 && rest[2] == '}';
    VolumesHead(m, rest);
    MountsHead(m, workspaces, rest);
    BodySections(m, workspaces, rest);
    BodyBefore(m, workspaces, rest);
    hide Body, ReadBody, ListSection, ResourcesSection, VolumeSection, DeclaredBy, Mounts;
  }

  lemma BodySections(m: Manifest, workspaces: seq<string>, rest: string)
    requires |rest| > 2 && rest[2] == '}'
    requires StartsWith(FromVolumes(m, rest), {'v'}) && !("    volumes = [" <= FromVolume(m, rest))
    requires StartsWith(FromResources(m, rest), {'v', 'r'})
    requires StartsWith(FromMounts(m, workspaces, rest), {'v', 'r', 'm'})
    ensures ReadBody(ListSection("    env = {", EnvRowsOf(m.env), " };\n") + FromMounts(m, workspaces, rest))
         == Some((DeclaredBy(m, workspaces), rest))
  {
    hide NixString, RenderRows, ReadRows, OptionalNumber, ReadOptional, Mounts, ListSection, ReadSection,
         ReadResources, ReadVolume, ResourcesSection, VolumeSection, StartsWith;
    var t1, t2 := FromMounts(m, workspaces, rest), FromResources(m, rest);
    NoSuchSection("    env = {", t1, {'v', 'r', 'm'});
    ReadOfSection("    env = {", EnvRows, EnvRowsOf(m.env), t1);
    NoSuchSection("    mounts = [", t2, {'v', 'r'});
    ReadOfSection("    mounts = [", MountRows, MountRowsOf(Mounts(m, workspaces)), t2);
    NoSuchSection("    resources = {", FromVolumes(m, rest), {'v'});
    ReadOfResources(m.resources, FromVolumes(m, rest));
    ReadOfSection("    volumes = [", VolumeRows, VolumeRowsOf(m.volumes), FromVolume(m, rest));
    ReadOfVolume(m.volume, rest);
  }

  /** Reading the emitted leaf gives every table back: the authored mounts, then one identity mount a
      workspace in order, the volumes, and the rest. */
  lemma ReadOfLeaf(m: Manifest, workspaces: seq<string>)
    ensures ReadLeaf(Leaf(m, workspaces)) == Some((DeclaredBy(m, workspaces), DeclaredEgress(m.egress)))
  {
    hide ReadBody, Body, EgressSection, ReadEgress, DeclaredBy;
    var body := Body(m, workspaces);
    var t2 := EgressSection(m.egress) + "}\n";
    var tables := if body == "" then "" else "  vivarium = {\n" + body + "  };\n";
    assert Leaf(m, workspaces) == "{ ... }:\n{\n" + (tables + t2);
    ExpectPrefix("{ ... }:\n{\n", tables + t2);
    EgressHead(m.egress);
    if body == "" {
      assert tables + t2 == t2;
      EmptyBodyDeclaresNothing(m, workspaces);
    } else {
      assert tables + t2 == "  vivarium = {\n" + (body + ("  };\n" + t2));
      ExpectPrefix("  vivarium = {\n", body + ("  };\n" + t2));
      ReadOfBody(m, workspaces, "  };\n" + t2);
      ExpectPrefix("  };\n", t2);
    }
    ReadOfEgress(m.egress, "}\n");
  }

  /** These rows are the strings of a list, in order. */
  predicate AreStrings(rows: seq<Row>, texts: seq<string>) {
    |rows| == |texts| && forall i | 0 <= i < |texts| :: rows[i] == StringRow(texts[i])
  }

  /** What a reader finds, in the manifest's own terms. Behind the authored mounts there is one a workspace,
      writable and at the path the host holds it at. */
  lemma LeafSaysWhatIsDeclared(m: Manifest, workspaces: seq<string>)
    ensures ReadLeaf(Leaf(m, workspaces)).Some?
    ensures var (d, egress) := ReadLeaf(Leaf(m, workspaces)).value;
            && |d.env| == |m.env| && |d.volumes| == |m.volumes| && |d.mounts| == |m.mounts| + |workspaces|
            && (forall i | 0 <= i < |m.env| :: d.env[i] == EnvRow(m.env[i].0, m.env[i].1))
            && (forall i | 0 <= i < |m.mounts| :: d.mounts[i] == MountRow(m.mounts[i]))
            && (forall j | 0 <= j < |workspaces| ::
                  d.mounts[|m.mounts| + j] == MountRow(Mount(workspaces[j], workspaces[j], false)))
            && (forall i | 0 <= i < |m.volumes| :: d.volumes[i] == VolumeRow(m.volumes[i]))
            && (d.resources == if m.resources.Some? then m.resources.value else Resources(None, None))
            && (d.volume.Some? <==> m.volume.Some?)
            && (m.volume.Some? ==> d.volume.value.0 == m.volume.value.sizeGib
                                   && AreStrings(d.volume.value.1, m.volume.value.persist))
            && (egress.Some? <==> m.egress.Some?)
            && (m.egress.Some? ==> egress.value.0 == m.egress.value.mode
                                   && AreStrings(egress.value.1, m.egress.value.allow))
  {
    hide Leaf, ReadLeaf;
    ReadOfLeaf(m, workspaces);
  }

  lemma EgressHead(egress: Option<Egress>)
    ensures !("  vivarium = {\n" <= EgressSection(egress) + "}\n")
  {
    var t := EgressSection(egress) + "}\n";
    assert t[0] == '}' || t[2] == 's';
  }

  lemma EmptyBodyDeclaresNothing(m: Manifest, workspaces: seq<string>)
    requires Body(m, workspaces) == ""
    ensures DeclaredBy(m, workspaces) == NOTHING
  {
    hide NixString, RenderRows, OptionalNumber;
  }

  /** Two manifests whose leaves are the same text mount the same trees in the same order, hold the same
      volumes and environment, and declare the same ceilings and egress. */
  lemma LeafIsInjective(m1: Manifest, ws1: seq<string>, m2: Manifest, ws2: seq<string>)
    requires Leaf(m1, ws1) == Leaf(m2, ws2)
    ensures Mounts(m1, ws1) == Mounts(m2, ws2)
    ensures m1.volumes == m2.volumes && m1.env == m2.env
    ensures DeclaredResources(m1.resources) == DeclaredResources(m2.resources)
    ensures m1.volume == m2.volume && m1.egress == m2.egress
  {
    hide Leaf, ReadLeaf, Mounts;
    ReadOfLeaf(m1, ws1);
    ReadOfLeaf(m2, ws2);
    MountsFromRows(Mounts(m1, ws1), Mounts(m2, ws2));
    VolumesFromRows(m1.volumes, m2.volumes);
    EnvFromRows(m1.env, m2.env);
    if m1.volume.Some? { StringsFromRows(m1.volume.value.persist, m2.volume.value.persist); }
    if m1.egress.Some? { StringsFromRows(m1.egress.value.allow, m2.egress.value.allow); }
  }

  lemma MountsFromRows(a: seq<Mount>, b: seq<Mount>)
    requires MountRowsOf(a) == MountRowsOf(b)
    ensures a == b
  {
    assert |a| == |MountRowsOf(a)| == |b|;
    forall i | 0 <= i < |a| ensures a[i] == b[i] { assert MountRowsOf(a)[i] == MountRowsOf(b)[i]; }
  }

  lemma VolumesFromRows(a: seq<Volume>, b: seq<Volume>)
    requires VolumeRowsOf(a) == VolumeRowsOf(b)
    ensures a == b
  {
    assert |a| == |VolumeRowsOf(a)| == |b|;
    forall i | 0 <= i < |a| ensures a[i] == b[i] { assert VolumeRowsOf(a)[i] == VolumeRowsOf(b)[i]; }
  }

  lemma EnvFromRows(a: seq<(string, string)>, b: seq<(string, string)>)
    requires EnvRowsOf(a) == EnvRowsOf(b)
    ensures a == b
  {
    assert |a| == |EnvRowsOf(a)| == |b|;
    forall i | 0 <= i < |a| ensures a[i] == b[i] { assert EnvRowsOf(a)[i] == EnvRowsOf(b)[i]; }
  }

  lemma StringsFromRows(a: seq<string>, b: seq<string>)
    requires StringRowsOf(a) == StringRowsOf(b)
    ensures a == b
  {
    assert |a| == |StringRowsOf(a)| == |b|;
    forall i | 0 <= i < |a| ensures a[i] == b[i] { assert StringRowsOf(a)[i] == StringRowsOf(b)[i]; }
  }
}
