/** JSON (RFC 8259) as far as the failure object needs it: the compact form and a reader of it.

    Numbers are unsigned integers, the only ones the object holds. */
module Json {
  import opened Wrappers
  import Decimal

  datatype Value =
    | Str(text: string)
    | Num(n: nat)
    | Arr(items: seq<Value>)
    | Obj(members: seq<(string, Value)>)

  // ---- Strings ----

  function Hex(d: nat): char
    requires d < 16
  {
    if d < 10 then ('0' as int + d) as char else ('a' as int + d - 10) as char
  }

  function EscapeChar(c: char): string {
    if c == '"' then "\\\""
    else if c == '\\' then "\\\\"
    else if c == '\n' then "\\n"
    else if c == '\r' then "\\r"
    else if c == '\t' then "\\t"
    else if c < ' ' then ['\\', 'u', '0', '0', Hex(c as int / 16), Hex(c as int % 16)]
    else [c]
  }

  function Escape(s: string): string {
    if s == [] then [] else EscapeChar(s[0]) + Escape(s[1..])
  }

  function Quote(s: string): string {
    "\"" + Escape(s) + "\""
  }

  function HexValue(c: char): Option<nat> {
    if '0' <= c <= '9' then Some(c as int - '0' as int)
    else if 'a' <= c <= 'f' then Some(c as int - 'a' as int + 10)
    else if 'A' <= c <= 'F' then Some(c as int - 'A' as int + 10)
    else None
  }

  /** The four digits of a `\u` escape. A surrogate half is refused here. */
  function ReadHex4(t: string): Option<char>
    requires |t| >= 4
  {
    match (HexValue(t[0]), HexValue(t[1]), HexValue(t[2]), HexValue(t[3]))
    case (Some(a), Some(b), Some(c), Some(d)) =>
      var code := 4096 * a + 256 * b + 16 * c + d;
      if code < 0xD800 || 0xE000 <= code < 0x10000 then Some(code as char) else None
    case _ => None
  }

  /** Only what a string cannot hold bare is escaped: the quote, the backslash and the control characters
      (section 7 of RFC 8259), three of them by a letter and the rest by four digits. */
  lemma EscapesExactly(c: char)
    ensures EscapeChar(c) == [c] <==> c != '"' && c != '\\' && c as int >= 0x20
    ensures |EscapeChar(c)| == 2 <==> c in {'"', '\\', '\n', '\r', '\t'}
    ensures |EscapeChar(c)| == 6 <==> c as int < 0x20 && c !in {'\n', '\r', '\t'}
  {
  }

  function ReadShortEscape(c: char): Option<char> {
    if c in "\"\\/" then Some(c)
    else if c == 'b' then Some('\U{8}')
    else if c == 'f' then Some('\U{C}')
    else if c == 'n' then Some('\n')
    else if c == 'r' then Some('\r')
    else if c == 't' then Some('\t')
    else None
  }

  /** One character of a string body, escaped or plain. A raw control character is no JSON. */
  function ReadChar(t: string): (r: Option<(char, string)>)
    ensures r.Some? ==> |r.value.1| < |t|
  {
    if t == [] || t[0] == '"' || t[0] < ' ' then None
    else if t[0] != '\\' then Some((t[0], t[1..]))
    else if |t| < 2 then None
    else if t[1] == 'u' then
      if |t| < 6 then None
      else match ReadHex4(t[2..])
        case Some(c) => Some((c, t[6..]))
        case None => None
    else match ReadShortEscape(t[1])
      case Some(c) => Some((c, t[2..]))
      case None => None
  }

  /** The body of a string, from after its opening quote to after its closing one. */
  function ReadString(t: string): (r: Option<(string, string)>)
    ensures r.Some? ==> |r.value.1| < |t|
    decreases |t|
  {
    if t != [] && t[0] == '"' then Some(([], t[1..]))
    else match ReadChar(t)
      case None => None
      case Some((c, t1)) =>
        match ReadString(t1)
        case None => None
        case Some((s, rest)) => Some(([c] + s, rest))
  }

  lemma ReadOfEscapedChar(c: char, t: string)
    ensures ReadChar(EscapeChar(c) + t) == Some((c, t))
    ensures EscapeChar(c)[0] != '"'
  {
    var u := EscapeChar(c) + t;
    if |EscapeChar(c)| == 2 {
      assert u[2..] == t;
    } else if |EscapeChar(c)| == 1 {
      assert u[1..] == t;
    } else {
      assert u[6..] == t;
      assert u[2..][0] == '0' && u[2..][1] == '0';
      assert HexValue(u[2..][2]) == Some(c as int / 16) && HexValue(u[2..][3]) == Some(c as int % 16);
      assert (c as int) as char == c;
    }
  }

  /** Every string survives, whatever it holds. */
  lemma {:induction false} ReadOfEscaped(s: string, rest: string)
    ensures ReadString(Escape(s) + ("\"" + rest)) == Some((s, rest))
  {
    hide EscapeChar, ReadChar;
    var tail := "\"" + rest;
    if s == [] {
      assert Escape(s) + tail == tail;
      assert tail[1..] == rest;
    } else {
      var t1 := Escape(s[1..]) + tail;
      assert Escape(s) + tail == EscapeChar(s[0]) + t1;
      ReadOfEscapedChar(s[0], t1);
      ReadOfEscaped(s[1..], rest);
      assert s == [s[0]] + s[1..];
    }
  }

  // ---- Values ----

  function Print(v: Value): string
    decreases v, 0
  {
    match v
    case Str(text) => Quote(text)
    case Num(n) => Decimal.Print(n)
    case Arr(items) => "[" + PrintItems(items) + "]"
    case Obj(members) => "{" + PrintMembers(members) + "}"
  }

  function PrintItems(items: seq<Value>): string
    decreases items, 0
  {
    if items == [] then ""
    else if |items| == 1 then Print(items[0])
    else Print(items[0]) + "," + PrintItems(items[1..])
  }

  function PrintMember(member: (string, Value)): string
    decreases member, 1
  {
    Quote(member.0) + ":" + Print(member.1)
  }

  function PrintMembers(members: seq<(string, Value)>): string
    decreases members, 0
  {
    if members == [] then ""
    else if |members| == 1 then PrintMember(members[0])
    else PrintMember(members[0]) + "," + PrintMembers(members[1..])
  }

  function SkipSpace(t: string): (r: string)
    ensures |r| <= |t|
  {
    if t != [] && t[0] in " \t\n\r" then SkipSpace(t[1..]) else t
  }

  /** An integer of the grammar: no leading zero, and no fraction or exponent after it. */
  function ReadNumber(t: string): (r: Option<(nat, string)>)
    ensures r.Some? ==> |r.value.1| < |t|
  {
    match Decimal.Read(t)
    case None => None
    case Some((n, rest)) =>
      if t[0] == '0' && |t| - |rest| > 1 then None
      else if rest != [] && rest[0] in ".eE" then None
      else Some((n, rest))
  }

  function ReadValue(text: string): (r: Option<(Value, string)>)
    ensures r.Some? ==> |r.value.1| < |text|
    decreases |text|, 0
  {
    var t := SkipSpace(text);
    if t == [] then None
    else if t[0] == '"' then
      match ReadString(t[1..])
      case Some((s, rest)) => Some((Str(s), rest))
      case None => None
    else if t[0] == '[' then
      var u := SkipSpace(t[1..]);
      if u != [] && u[0] == ']' then Some((Arr([]), u[1..]))
      else match ReadItems(t[1..])
        case Some((items, rest)) => Some((Arr(items), rest))
        case None => None
    else if t[0] == '{' then
      var u := SkipSpace(t[1..]);
      if u != [] && u[0] == '}' then Some((Obj([]), u[1..]))
      else match ReadMembers(t[1..])
        case Some((members, rest)) => Some((Obj(members), rest))
        case None => None
    else match ReadNumber(t)
      case Some((n, rest)) => Some((Num(n), rest))
      case None => None
  }

  function ReadItems(t: string): (r: Option<(seq<Value>, string)>)
    ensures r.Some? ==> |r.value.1| < |t|
    decreases |t|, 1
  {
    match ReadValue(t)
    case None => None
    case Some((item, t1)) =>
      var u := SkipSpace(t1);
      if u == [] then None
      else if u[0] == ']' then Some(([item], u[1..]))
      else if u[0] != ',' then None
      else match ReadItems(u[1..])
        case None => None
        case Some((items, rest)) => Some(([item] + items, rest))
  }

  function ReadMember(t: string): (r: Option<((string, Value), string)>)
    ensures r.Some? ==> |r.value.1| < |t|
    decreases |t|, 1
  {
    var u := SkipSpace(t);
    if u == [] || u[0] != '"' then None
    else match ReadString(u[1..])
      case None => None
      case Some((key, t1)) =>
        var w := SkipSpace(t1);
        if w == [] || w[0] != ':' then None
        else match ReadValue(w[1..])
          case None => None
          case Some((value, rest)) => Some(((key, value), rest))
  }

  function ReadMembers(t: string): (r: Option<(seq<(string, Value)>, string)>)
    ensures r.Some? ==> |r.value.1| < |t|
    decreases |t|, 2
  {
    match ReadMember(t)
    case None => None
    case Some((member, t1)) =>
      var u := SkipSpace(t1);
      if u == [] then None
      else if u[0] == '}' then Some(([member], u[1..]))
      else if u[0] != ',' then None
      else match ReadMembers(u[1..])
        case None => None
        case Some((members, rest)) => Some(([member] + members, rest))
  }

  /** The one value a whole text holds. */
  function Parse(text: string): Option<Value> {
    match ReadValue(text)
    case None => None
    case Some((v, rest)) => if SkipSpace(rest) == [] then Some(v) else None
  }

  /** What may follow a value: the end, or the punctuation of the container it is in. */
  predicate Follows(rest: string) {
    rest == [] || rest[0] in ",]}"
  }

  lemma PrintHead(v: Value)
    ensures Print(v) != [] && Print(v)[0] !in " \t\n\r,:]}"
  {
    if v.Num? { Decimal.ValueOfPrint(v.n); }
  }

  lemma ReadOfQuoted(s: string, rest: string)
    ensures Quote(s) + rest == ['"'] + (Escape(s) + ("\"" + rest))
    ensures ReadString((Quote(s) + rest)[1..]) == Some((s, rest))
  {
    assert Quote(s) + rest == ['"'] + (Escape(s) + ("\"" + rest));
    ReadOfEscaped(s, rest);
  }

  lemma ReadOfNumber(n: nat, rest: string)
    requires Follows(rest)
    ensures ReadNumber(Decimal.Print(n) + rest) == Some((n, rest))
    ensures Decimal.IsDigit((Decimal.Print(n) + rest)[0])
  {
    Decimal.ReadOfPrint(n, rest);
    Decimal.ValueOfPrint(n);
    assert (Decimal.Print(n) + rest)[0] == Decimal.Print(n)[0];
  }

  /** Reading a printed value gives it back: the form is well-formed, and nothing in it is lost. */
  lemma {:induction false} ReadOfPrint(v: Value, rest: string)
    requires Follows(rest)
    ensures ReadValue(Print(v) + rest) == Some((v, rest))
    decreases v, 1
  {
    hide Escape, ReadString, ReadItems, ReadMembers, ReadNumber;
    match v {
      case Str(s) => ReadOfQuoted(s, rest);
      case Num(n) => ReadOfNumber(n, rest); PrintHead(v);
      case Arr(items) => ReadOfArr(items, rest);
      case Obj(members) => ReadOfObj(members, rest);
    }
  }

  lemma {:induction false} ReadOfArr(items: seq<Value>, rest: string)
    ensures ReadValue(Print(Arr(items)) + rest) == Some((Arr(items), rest))
    decreases items, 1
  {
    hide ReadItems, PrintItems;
    var t := Print(Arr(items)) + rest;
    var body := PrintItems(items) + ("]" + rest);
    assert t == "[" + body;
    assert SkipSpace(t) == t && t[1..] == body;
    if items == [] {
      NothingPrinted();
      assert body == "]" + rest;
      assert body[1..] == rest;
    } else {
      ItemsHead(items);
      ReadOfItems(items, rest);
    }
  }

  lemma {:induction false} ReadOfObj(members: seq<(string, Value)>, rest: string)
    ensures ReadValue(Print(Obj(members)) + rest) == Some((Obj(members), rest))
    decreases members, 1
  {
    hide ReadMembers, PrintMembers;
    var t := Print(Obj(members)) + rest;
    var body := PrintMembers(members) + ("}" + rest);
    assert t == "{" + body;
    assert SkipSpace(t) == t && t[1..] == body;
    if members == [] {
      NothingPrinted();
      assert body == "}" + rest;
      assert body[1..] == rest;
    } else {
      MembersHead(members);
      ReadOfMembers(members, rest);
    }
  }

  lemma NothingPrinted()
    ensures PrintItems([]) == "" && PrintMembers([]) == ""
  {
  }

  lemma ItemsHead(items: seq<Value>)
    requires items != []
    ensures PrintItems(items) != [] && PrintItems(items)[0] !in " \t\n\r]"
  {
    PrintHead(items[0]);
  }

  lemma MembersHead(members: seq<(string, Value)>)
    requires members != []
    ensures PrintMembers(members) != [] && PrintMembers(members)[0] == '"'
  {
  }

  lemma {:induction false} ReadOfItems(items: seq<Value>, rest: string)
    requires items != []
    ensures ReadItems(PrintItems(items) + ("]" + rest)) == Some((items, rest))
    decreases items, 0
  {
    hide Print, ReadValue;
    var t := PrintItems(items) + ("]" + rest);
    if |items| == 1 {
      ReadOfPrint(items[0], "]" + rest);
      assert ("]" + rest)[1..] == rest;
      assert items == [items[0]];
    } else {
      var u := "," + (PrintItems(items[1..]) + ("]" + rest));
      assert t == Print(items[0]) + u;
      ReadOfPrint(items[0], u);
      ReadOfItems(items[1..], rest);
      assert u[1..] == PrintItems(items[1..]) + ("]" + rest);
      assert items == [items[0]] + items[1..];
    }
  }

  lemma {:induction false} ReadOfMember(member: (string, Value), rest: string)
    requires Follows(rest)
    ensures ReadMember(PrintMember(member) + rest) == Some((member, rest))
    decreases member, 2
  {
    hide Print, ReadValue, Escape, ReadString;
    var w := ":" + (Print(member.1) + rest);
    var t := PrintMember(member) + rest;
    assert t == Quote(member.0) + w;
    ReadOfQuoted(member.0, w);
    assert SkipSpace(t) == t;
    assert w[1..] == Print(member.1) + rest;
    ReadOfPrint(member.1, rest);
  }

  lemma {:induction false} ReadOfMembers(members: seq<(string, Value)>, rest: string)
    requires members != []
    ensures ReadMembers(PrintMembers(members) + ("}" + rest)) == Some((members, rest))
    decreases members, 0
  {
    hide PrintMember, ReadMember;
    var t := PrintMembers(members) + ("}" + rest);
    if |members| == 1 {
      ReadOfMember(members[0], "}" + rest);
      assert ("}" + rest)[1..] == rest;
      assert members == [members[0]];
    } else {
      var u := "," + (PrintMembers(members[1..]) + ("}" + rest));
      assert t == PrintMember(members[0]) + u;
      ReadOfMember(members[0], u);
      ReadOfMembers(members[1..], rest);
      assert u[1..] == PrintMembers(members[1..]) + ("}" + rest);
      assert members == [members[0]] + members[1..];
    }
  }

  lemma ParseOfPrint(v: Value)
    ensures Parse(Print(v)) == Some(v)
  {
    hide Print, ReadValue;
    ReadOfPrint(v, "");
    assert Print(v) + "" == Print(v);
  }

  /** And a text is one value: anything but space behind it is refused. */
  lemma NothingMayFollow(v: Value, rest: string)
    requires Follows(rest) && rest != ""
    ensures Parse(Print(v) + rest) == None
  {
    hide Print, ReadValue;
    ReadOfPrint(v, rest);
  }

  /** The first member of a name, as a consumer looks it up. */
  function Member(v: Value, name: string): Option<Value> {
    match v
    case Obj(members) => Find(members, name)
    case _ => None
  }

  function Find(members: seq<(string, Value)>, name: string): Option<Value> {
    if members == [] then None
    else if members[0].0 == name then Some(members[0].1)
    else Find(members[1..], name)
  }
}
