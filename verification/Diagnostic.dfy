/** The failure object of `--json`, built by hand on the failure path, and what a JSON reader finds in it. */
module Diagnostic {
  import opened Wrappers
  import Decimal
  import J = Json

  datatype Namespace = Manifest | State | Merge | Lock | Host | Vm | Guest | Store | Internal

  function NamespaceText(n: Namespace): string {
    match n
    case Manifest => "manifest"
    case State => "state"
    case Merge => "merge"
    case Lock => "lock"
    case Host => "host"
    case Vm => "vm"
    case Guest => "guest"
    case Store => "store"
    case Internal => "internal"
  }

  datatype Id = Id(namespace: Namespace, condition: string)

  function IdText(id: Id): string {
    NamespaceText(id.namespace) + "." + id.condition
  }

  datatype Locus =
    | Position(path: string, line: nat, column: nat)
    | File(path: string)
    | Named(name: string)

  datatype Report = Report(
    id: Id, what: string, locus: Locus, why: string, accepted: seq<string>, hint: Option<string>)

  // ---- The object, as a value ----

  function LocusValue(locus: Locus): J.Value {
    match locus
    case Position(path, line, column) =>
      J.Obj([("file", J.Str(path)), ("line", J.Num(line)), ("col", J.Num(column))])
    case File(path) => J.Obj([("file", J.Str(path))])
    case Named(name) => J.Obj([("locus", J.Str(name))])
  }

  function Strings(texts: seq<string>): seq<J.Value> {
    seq(|texts|, i requires 0 <= i < |texts| => J.Str(texts[i]))
  }

  function Members(r: Report, code: nat): seq<(string, J.Value)> {
    [("id", J.Str(IdText(r.id))), ("code", J.Num(code)), ("what", J.Str(r.what)),
     ("where", LocusValue(r.locus)), ("why", J.Str(r.why))]
    + (if r.accepted == [] then [] else [("accepted", J.Arr(Strings(r.accepted)))])
    + (if r.hint.None? then [] else [("hint", J.Str(r.hint.value))])
  }

  // ---- The printers ----

  /** `json_string`: one pass, every branch total. */
  method JsonString(value: string) returns (quoted: string)
    ensures quoted == J.Quote(value)
  {
    hide J.EscapeChar;
    quoted := "\"";
    for i := 0 to |value|
      invariant quoted == "\"" + J.Escape(value[..i])
    {
      assert value[..i + 1] == value[..i] + [value[i]];
      EscapeSnoc(value[..i], value[i]);
      quoted := quoted + J.EscapeChar(value[i]);
    }
    assert value[..|value|] == value;
    quoted := quoted + "\"";
  }

  lemma {:induction false} EscapeSnoc(s: string, c: char)
    ensures J.Escape(s + [c]) == J.Escape(s) + J.EscapeChar(c)
  {
    hide J.EscapeChar;
    if s == [] {
      assert [c][1..] == [];
      assert J.Escape([c]) == J.EscapeChar(c) + J.Escape([]);
      assert s + [c] == [c];
    } else {
      assert (s + [c])[1..] == s[1..] + [c];
      EscapeSnoc(s[1..], c);
    }
  }

  function Join(fields: seq<string>): string {
    if fields == [] then ""
    else if |fields| == 1 then fields[0]
    else fields[0] + "," + Join(fields[1..])
  }

  lemma {:induction false} JoinOfItems(fields: seq<string>, items: seq<J.Value>)
    requires |fields| == |items| && forall i | 0 <= i < |items| :: fields[i] == J.Print(items[i])
    ensures Join(fields) == J.PrintItems(items)
  {
    hide J.Print;
    if |items| > 1 { JoinOfItems(fields[1..], items[1..]); }
  }

  lemma {:induction false} JoinOfMembers(fields: seq<string>, members: seq<(string, J.Value)>)
    requires |fields| == |members| && forall i | 0 <= i < |members| :: fields[i] == J.PrintMember(members[i])
    ensures Join(fields) == J.PrintMembers(members)
  {
    hide J.PrintMember;
    if |members| > 1 { JoinOfMembers(fields[1..], members[1..]); }
  }

  lemma {:induction false} EscapePlain(key: string)
    requires forall i | 0 <= i < |key| :: 'a' <= key[i] <= 'z'
    ensures J.Escape(key) == key
  {
    if key != [] {
      EscapePlain(key[1..]);
      assert J.EscapeChar(key[0]) == [key[0]];
      assert key == [key[0]] + key[1..];
    }
  }

  /** A key the code writes out in full needs no escape. */
  lemma FieldText(key: string, head: string, v: J.Value)
    requires forall i | 0 <= i < |key| :: 'a' <= key[i] <= 'z'
    requires head == "\"" + key + "\":"
    ensures J.PrintMember((key, v)) == head + J.Print(v)
  {
    hide J.Print;
    EscapePlain(key);
    assert J.Quote(key) + ":" == head;
  }

  lemma MembersOfOne(a: (string, J.Value))
    ensures J.Print(J.Obj([a])) == "{" + J.PrintMember(a) + "}"
  {
    hide J.PrintMember;
  }

  lemma MembersOfThree(a: (string, J.Value), b: (string, J.Value), c: (string, J.Value))
    ensures J.Print(J.Obj([a, b, c])) == "{" + J.PrintMember(a) + "," + J.PrintMember(b) + "," + J.PrintMember(c) + "}"
  {
    hide J.PrintMember;
    assert [a, b, c][1..] == [b, c] && [b, c][1..] == [c];
    assert J.PrintMembers([c]) == J.PrintMember(c);
    assert J.PrintMembers([b, c]) == J.PrintMember(b) + "," + J.PrintMember(c);
  }

  lemma PrintScalar(text: string, n: nat)
    ensures J.Print(J.Str(text)) == J.Quote(text) && J.Print(J.Num(n)) == Decimal.Print(n)
  {
  }

  lemma PositionText(path: string, line: nat, column: nat)
    ensures J.Print(LocusValue(Position(path, line, column)))
            == "{\"file\":" + J.Quote(path) + ",\"line\":" + Decimal.Print(line)
               + ",\"col\":" + Decimal.Print(column) + "}"
  {
    hide J.Print, J.PrintMember, J.Quote, Decimal.Print;
    MembersOfThree(("file", J.Str(path)), ("line", J.Num(line)), ("col", J.Num(column)));
    FieldText("file", "\"file\":", J.Str(path));
    FieldText("line", "\"line\":", J.Num(line));
    FieldText("col", "\"col\":", J.Num(column));
    PrintScalar(path, line);
    PrintScalar(path, column);
  }

  method LocusJson(locus: Locus) returns (text: string)
    ensures text == J.Print(LocusValue(locus))
  {
    hide J.Print, J.PrintMember, J.Quote, Decimal.Print;
    match locus {
      case Position(path, line, column) =>
        var file := JsonString(path);
        text := "{\"file\":" + file + ",\"line\":" + Decimal.Print(line) + ",\"col\":" + Decimal.Print(column) + "}";
        PositionText(path, line, column);
      case File(path) =>
        var file := JsonString(path);
        text := "{\"file\":" + file + "}";
        MembersOfOne(("file", J.Str(path)));
        FieldText("file", "\"file\":", J.Str(path));
        PrintScalar(path, 0);
      case Named(name) =>
        var quoted := JsonString(name);
        text := "{\"locus\":" + quoted + "}";
        MembersOfOne(("locus", J.Str(name)));
        FieldText("locus", "\"locus\":", J.Str(name));
        PrintScalar(name, 0);
    }
  }

  method QuoteAll(texts: seq<string>) returns (items: seq<string>)
    ensures |items| == |texts|
    ensures forall i | 0 <= i < |texts| :: items[i] == J.Print(J.Str(texts[i]))
  {
    items := [];
    for i := 0 to |texts|
      invariant |items| == i
      invariant forall k | 0 <= k < i :: items[k] == J.Print(J.Str(texts[k]))
    {
      var quoted := JsonString(texts[i]);
      items := items + [quoted];
    }
  }

  method AcceptedField(accepted: seq<string>) returns (field: string)
    ensures field == J.PrintMember(("accepted", J.Arr(Strings(accepted))))
  {
    hide J.PrintMember, J.Quote;
    var items := QuoteAll(accepted);
    field := "\"accepted\":[" + Join(items) + "]";
    FieldText("accepted", "\"accepted\":", J.Arr(Strings(accepted)));
    ArrayText(items, accepted);
  }

  lemma ArrayText(items: seq<string>, texts: seq<string>)
    requires |items| == |texts|
    requires forall i | 0 <= i < |texts| :: items[i] == J.Print(J.Str(texts[i]))
    ensures J.Print(J.Arr(Strings(texts))) == "[" + Join(items) + "]"
  {
    hide J.Quote;
    JoinOfItems(items, Strings(texts));
  }

  method ToJson(r: Report, code: nat) returns (text: string)
    ensures text == J.Print(J.Obj(Members(r, code)))
  {
    hide J.Print, J.PrintMember, J.Quote, Decimal.Print, LocusValue, IdText;
    var id := JsonString(IdText(r.id));
    var what := JsonString(r.what);
    var locus := LocusJson(r.locus);
    var why := JsonString(r.why);
    var fields := ["\"id\":" + id, "\"code\":" + Decimal.Print(code), "\"what\":" + what,
                   "\"where\":" + locus, "\"why\":" + why];
    FieldText("id", "\"id\":", J.Str(IdText(r.id)));
    FieldText("code", "\"code\":", J.Num(code));
    FieldText("what", "\"what\":", J.Str(r.what));
    FieldText("where", "\"where\":", LocusValue(r.locus));
    FieldText("why", "\"why\":", J.Str(r.why));
    PrintScalar(IdText(r.id), code);
    PrintScalar(r.what, code);
    PrintScalar(r.why, code);
    if r.accepted != [] {
      var accepted := AcceptedField(r.accepted);
      fields := fields + [accepted];
    }
    if r.hint.Some? {
      var hint := JsonString(r.hint.value);
      FieldText("hint", "\"hint\":", J.Str(r.hint.value));
      PrintScalar(r.hint.value, code);
      fields := fields + ["\"hint\":" + hint];
    }
    JoinOfMembers(fields, Members(r, code));
    ObjectText(Members(r, code));
    text := "{" + Join(fields) + "}";
  }

  lemma ObjectText(members: seq<(string, J.Value)>)
    ensures J.Print(J.Obj(members)) == "{" + J.PrintMembers(members) + "}"
  {
  }

  // ---- What a consumer reads ----

  /** The one object a JSON reader finds, slot by slot; a slot that does not apply is an absent key. */
  lemma ReaderRecoversEverySlot(r: Report, code: nat)
    ensures J.Parse(J.Print(J.Obj(Members(r, code)))) == Some(J.Obj(Members(r, code)))
    ensures var v := J.Obj(Members(r, code));
            && J.Member(v, "id") == Some(J.Str(IdText(r.id)))
            && J.Member(v, "code") == Some(J.Num(code))
            && J.Member(v, "what") == Some(J.Str(r.what))
            && J.Member(v, "where") == Some(LocusValue(r.locus))
            && J.Member(v, "why") == Some(J.Str(r.why))
            && J.Member(v, "accepted") == (if r.accepted == [] then None else Some(J.Arr(Strings(r.accepted))))
            && J.Member(v, "hint") == (if r.hint.None? then None else Some(J.Str(r.hint.value)))
  {
    J.ParseOfPrint(J.Obj(Members(r, code)));
    hide J.Print, J.Parse, LocusValue, IdText;
    var m := Members(r, code);
    FindAfter(m, 5, "accepted");
    FindAfter(m, 5, "hint");
    FindAfter(m, 4, "why");
    FindAfter(m, 3, "where");
    FindAfter(m, 2, "what");
    FindAfter(m, 1, "code");
    var tail := m[5..];
    if |tail| == 2 { assert J.Find(tail[1..], "hint") == Some(tail[1].1); }
    if |tail| > 0 { assert tail[0] == m[5]; }
  }

  lemma {:induction false} FindAfter(members: seq<(string, J.Value)>, k: nat, name: string)
    requires k <= |members| && forall i | 0 <= i < k :: members[i].0 != name
    ensures J.Find(members, name) == J.Find(members[k..], name)
  {
    if k > 0 {
      FindAfter(members[1..], k - 1, name);
      assert members[1..][k - 1..] == members[k..];
    }
  }

  /** An id is its namespace's name, a dot and its condition. */
  lemma IdsAreSpelled(id: Id)
    ensures IdText(id) == (match id.namespace
                           case Manifest => "manifest."
                           case State => "state."
                           case Merge => "merge."
                           case Lock => "lock."
                           case Host => "host."
                           case Vm => "vm."
                           case Guest => "guest."
                           case Store => "store."
                           case Internal => "internal.") + id.condition
  {
  }

  lemma NamespacesHaveNoDot(n: Namespace)
    ensures forall i | 0 <= i < |NamespaceText(n)| :: NamespaceText(n)[i] != '.'
  {
  }

  lemma NamespaceTextIsInjective(a: Namespace, b: Namespace)
    requires NamespaceText(a) == NamespaceText(b)
    ensures a == b
  {
    assert NamespaceText(a)[0] == NamespaceText(b)[0] && NamespaceText(a)[1] == NamespaceText(b)[1];
  }

  /** The id's two halves come apart at its first dot. */
  lemma IdTextIsInjective(a: Id, b: Id)
    requires IdText(a) == IdText(b)
    ensures a == b
  {
    hide NamespaceText;
    var na, nb := NamespaceText(a.namespace), NamespaceText(b.namespace);
    NamespacesHaveNoDot(a.namespace);
    NamespacesHaveNoDot(b.namespace);
    assert IdText(a)[|na|] == '.' && IdText(b)[|nb|] == '.';
    assert |na| == |nb|;
    assert IdText(a)[..|na|] == na && IdText(b)[..|nb|] == nb;
    assert IdText(a)[|na| + 1..] == a.condition && IdText(b)[|nb| + 1..] == b.condition;
    NamespaceTextIsInjective(a.namespace, b.namespace);
  }

  lemma LocusValueIsInjective(a: Locus, b: Locus)
    requires LocusValue(a) == LocusValue(b)
    ensures a == b
  {
    var ma, mb := LocusValue(a).members, LocusValue(b).members;
    assert |ma| == |mb| && ma[0] == mb[0];
    if a.Position? { assert ma[1] == mb[1] && ma[2] == mb[2]; }
  }

  /** Which keys a reader finds behind `where`: a position has a file, a line and a column, a file alone only
      that, and a named place a `locus`. */
  lemma LocusIsReadByItsKeys(r: Report)
    ensures var where := LocusValue(r.locus);
            match r.locus
            case Position(path, line, column) =>
              && J.Member(where, "file") == Some(J.Str(path)) && J.Member(where, "line") == Some(J.Num(line))
              && J.Member(where, "col") == Some(J.Num(column)) && J.Member(where, "locus") == None
            case File(path) =>
              && J.Member(where, "file") == Some(J.Str(path)) && J.Member(where, "line") == None
              && J.Member(where, "col") == None && J.Member(where, "locus") == None
            case Named(name) =>
              J.Member(where, "locus") == Some(J.Str(name)) && J.Member(where, "file") == None
              && J.Member(where, "line") == None && J.Member(where, "col") == None
  {
    hide J.Find;
    forall key, v: J.Value, name ensures J.Find([(key, v)], name) == if key == name then Some(v) else None {
      FindOne(key, v, name);
    }
    match r.locus {
      case Position(path, line, column) =>
        var a, b, c := ("file", J.Str(path)), ("line", J.Num(line)), ("col", J.Num(column));
        FindNext(a, [b, c], "file");
        FindNext(a, [b, c], "line");
        FindNext(a, [b, c], "col");
        FindNext(a, [b, c], "locus");
        FindNext(b, [c], "line");
        FindNext(b, [c], "col");
        FindNext(b, [c], "locus");
        assert [a] + [b, c] == [a, b, c] && [b] + [c] == [b, c];
      case File(path) =>
      case Named(name) =>
    }
  }

  lemma FindOne(key: string, v: J.Value, name: string)
    ensures J.Find([(key, v)], name) == if key == name then Some(v) else None
  {
    assert [(key, v)][1..] == [];
  }

  lemma FindNext(first: (string, J.Value), rest: seq<(string, J.Value)>, name: string)
    ensures J.Find([first] + rest, name) == if first.0 == name then Some(first.1) else J.Find(rest, name)
  {
    assert ([first] + rest)[1..] == rest;
  }

  lemma StringsIsInjective(a: seq<string>, b: seq<string>)
    requires Strings(a) == Strings(b)
    ensures a == b
  {
    assert |a| == |Strings(a)| == |b|;
    forall i | 0 <= i < |a| ensures a[i] == b[i] { assert Strings(a)[i] == Strings(b)[i]; }
  }

  /** Two failures that print the same object are the same failure with the same exit code. */
  lemma FailureObjectIsInjective(a: Report, codeA: nat, b: Report, codeB: nat)
    requires J.Print(J.Obj(Members(a, codeA))) == J.Print(J.Obj(Members(b, codeB)))
    ensures a == b && codeA == codeB
  {
    hide Members, LocusValue, IdText, J.Print, J.Parse;
    ReaderRecoversEverySlot(a, codeA);
    ReaderRecoversEverySlot(b, codeB);
    IdTextIsInjective(a.id, b.id);
    LocusValueIsInjective(a.locus, b.locus);
    if a.accepted != [] { StringsIsInjective(a.accepted, b.accepted); }
  }

  // ---- Positions ----

  function LineAt(source: string, offset: nat): nat
    requires offset <= |source|
  {
    if offset == 0 then 1
    else LineAt(source, offset - 1) + (if source[offset - 1] == '\n' then 1 else 0)
  }

  function ColumnAt(source: string, offset: nat): nat
    requires offset <= |source|
  {
    if offset == 0 || source[offset - 1] == '\n' then 1 else ColumnAt(source, offset - 1) + 1
  }

  /** `Locus::in_source`; an offset past the end reports the place after the last character. */
  method InSource(path: string, source: string, offset: nat) returns (locus: Locus)
    ensures var end := if offset < |source| then offset else |source|;
            locus == Position(path, LineAt(source, end), ColumnAt(source, end))
  {
    var end := if offset < |source| then offset else |source|;
    var line, column := 1, 1;
    for i := 0 to end
      invariant line == LineAt(source, i) && column == ColumnAt(source, i)
    {
      if source[i] == '\n' {
        line, column := line + 1, 1;
      } else {
        column := column + 1;
      }
    }
    locus := Position(path, line, column);
  }

  /** An offset's line is one more than the newlines before it. */
  lemma {:induction false} LinesAreCounted(source: string, offset: nat)
    requires offset <= |source|
    ensures LineAt(source, offset) == 1 + |set k: nat | k < offset && source[k] == '\n'|
  {
    var before := set k: nat | k < offset && source[k] == '\n';
    if offset == 0 {
      assert before == {};
    } else {
      LinesAreCounted(source, offset - 1);
      var earlier := set k: nat | k < offset - 1 && source[k] == '\n';
      assert before == earlier + if source[offset - 1] == '\n' then {offset - 1} else {};
    }
  }

  /** And its column one more than the characters since the last of them. */
  lemma {:induction false} ColumnsAreCounted(source: string, offset: nat)
    requires offset <= |source|
    ensures var since := ColumnAt(source, offset) - 1;
            && 0 <= since <= offset
            && (forall k | offset - since <= k < offset :: source[k] != '\n')
            && (since < offset ==> source[offset - since - 1] == '\n')
  {
    if offset > 0 && source[offset - 1] != '\n' {
      ColumnsAreCounted(source, offset - 1);
    }
  }

  /** Positions grow with the offset, so no two places of a source share one. */
  lemma {:induction false} PositionsAreOrdered(source: string, a: nat, b: nat)
    requires a < b <= |source|
    ensures LineAt(source, a) < LineAt(source, b)
         || (LineAt(source, a) == LineAt(source, b) && ColumnAt(source, a) < ColumnAt(source, b))
    decreases b - a
  {
    if a + 1 < b { PositionsAreOrdered(source, a, b - 1); }
  }
}
