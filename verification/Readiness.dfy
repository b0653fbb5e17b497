/** The one report that crosses the readiness socket: its wire form, its reader, and why a torn report
    is never taken for one. */
module Readiness {
  import opened Wrappers
  import opened Json
  import Decimal

  const SCHEMA_VERSION: nat := 1

  datatype Status = ProcessReady | Failed

  datatype Decoded = Report(status: Status) | Malformed | UnsupportedSchema(version: nat)

  function StatusText(status: Status): string {
    if status == ProcessReady then "process-ready" else "failed"
  }

  function ReadStatus(text: string): Option<Status> {
    if text == "process-ready" then Some(ProcessReady)
    else if text == "failed" then Some(Failed)
    else None
  }

  function ReportValue(version: nat, status: Status): Value {
    Obj([VersionField(version), StatusField(status)])
  }

  function Encode(status: Status): string {
    Print(ReportValue(SCHEMA_VERSION, status))
  }

  /** The two fields in either order, each once and no other; or, as the derived reader also takes a
      record, an array of the two. */
  function Fields(v: Value): Option<(Value, Value)> {
    match v
    case Obj(members) =>
      if |members| == 2 && members[0].0 == "schemaVersion" && members[1].0 == "status"
      then Some((members[0].1, members[1].1))
      else if |members| == 2 && members[0].0 == "status" && members[1].0 == "schemaVersion"
      then Some((members[1].1, members[0].1))
      else None
    case Arr(items) => if |items| == 2 then Some((items[0], items[1])) else None
    case _ => None
  }

  function Decode(text: string): Decoded {
    match Parse(text)
    case None => Malformed
    case Some(v) =>
      match Fields(v)
      case Some((Num(version), Str(status))) =>
        if version >= 0x1_0000_0000 || ReadStatus(status).None? then Malformed
        else if version != SCHEMA_VERSION then UnsupportedSchema(version)
        else Report(ReadStatus(status).value)
      case _ => Malformed
  }

  lemma DecodeOfEncode(status: Status)
    ensures Decode(Encode(status)) == Report(status)
  {
    hide Parse, Print;
    ParseOfPrint(ReportValue(SCHEMA_VERSION, status));
  }

  /** The bytes both ends agree on. */
  lemma WireForm(status: Status)
    ensures Encode(status) == "{\"schemaVersion\":1,\"status\":\""
                              + (if status == ProcessReady then "process-ready" else "failed") + "\"}"
  {
    VersionText();
    StatusFieldText(status);
    hide PrintMember, VersionField, StatusField, StatusText, Quote;
    var a, b := VersionField(SCHEMA_VERSION), StatusField(status);
    assert [a, b][1..] == [b];
    assert PrintMembers([a, b]) == PrintMember(a) + "," + PrintMember(b);
  }

  lemma VersionText()
    ensures PrintMember(VersionField(1)) == "\"schemaVersion\":1"
  {
    hide Escape;
    PlainEscapes("schemaVersion");
    assert Print(Num(1)) == "1" by { OneDigit(1); }
    hide Print;
  }

  lemma OneDigit(n: nat)
    requires n < 10
    ensures Print(Num(n)) == [Decimal.Digit(n)]
  {
  }

  lemma StatusFieldText(status: Status)
    ensures PrintMember(StatusField(status))
         == "\"status\":\"" + (if status == ProcessReady then "process-ready" else "failed") + "\""
  {
    hide Escape;
    PlainEscapes("status");
    if status == ProcessReady { PlainEscapes("process-ready"); } else { PlainEscapes("failed"); }
  }

  lemma {:induction false} PlainEscapes(s: string)
    requires forall i | 0 <= i < |s| :: s[i] == '-' || 'A' <= s[i] <= 'Z' || 'a' <= s[i] <= 'z'
    ensures Escape(s) == s
  {
    if s != [] {
      PlainEscapes(s[1..]);
      assert EscapeChar(s[0]) == [s[0]];
    }
  }

  /** A report of another schema version is never taken for a status, in whichever of the three shapes of
      a record it comes. */
  lemma DecodeByVersion(version: nat, status: Status)
    ensures var decoded := if version >= 0x1_0000_0000 then Malformed
                           else if version == 1 then Report(status) else UnsupportedSchema(version);
            && Decode(Print(Obj([("schemaVersion", Num(version)), ("status", Str(StatusText(status)))]))) == decoded
            && Decode(Print(Obj([("status", Str(StatusText(status))), ("schemaVersion", Num(version))]))) == decoded
            && Decode(Print(Arr([Num(version), Str(StatusText(status))]))) == decoded
  {
    hide Parse, Print;
    ParseOfPrint(Obj([("schemaVersion", Num(version)), ("status", Str(StatusText(status)))]));
    ParseOfPrint(Obj([("status", Str(StatusText(status))), ("schemaVersion", Num(version))]));
    ParseOfPrint(Arr([Num(version), Str(StatusText(status))]));
  }

  /** A reader never makes up a character: what it leaves over was there. */
  ghost predicate Within(rest: string, t: string) {
    forall c | c in rest :: c in t
  }

  lemma WithinThrough(a: string, b: string, c: string)
    requires Within(a, b) && Within(b, c)
    ensures Within(a, c)
  {
    forall x | x in a ensures x in c {
      assert x in b;
    }
  }

  /** What is left after one more character of a tail is still within the whole. */
  lemma WithinTail(rest: string, u: string, t: string)
    requires u != [] && Within(rest, u[1..]) && Within(u, t)
    ensures Within(rest, t)
  {
    assert Within(u[1..], u);
    WithinThrough(rest, u[1..], u);
    WithinThrough(rest, u, t);
  }

  lemma {:induction false} SkipWithin(t: string)
    ensures Within(SkipSpace(t), t)
  {
    if t != [] && t[0] in " \t\n\r" { SkipWithin(t[1..]); }
  }

  lemma {:induction false} StringWithin(t: string)
    ensures ReadString(t).Some? ==> Within(ReadString(t).value.1, t)
    decreases |t|
  {
    if !(t != [] && t[0] == '"') && ReadChar(t).Some? {
      StringWithin(ReadChar(t).value.1);
    }
  }

  lemma {:induction false} ValueWithin(t: string)
    ensures ReadValue(t).Some? ==> Within(ReadValue(t).value.1, t)
    decreases |t|, 0
  {
    hide Decimal.Read, ReadString;
    SkipWithin(t);
    var u := SkipSpace(t);
    if u != [] {
      if u[0] == '"' {
        StringWithin(u[1..]);
      } else if u[0] == '[' {
        SkipWithin(u[1..]);
        ItemsWithin(u[1..]);
        var inner := SkipSpace(u[1..]);
        if inner != [] && inner[0] == ']' {
          WithinTail(inner, u, t);
          WithinTail(inner[1..], inner, t);
        } else if ReadItems(u[1..]).Some? {
          WithinTail(ReadItems(u[1..]).value.1, u, t);
        }
      } else if u[0] == '{' {
        SkipWithin(u[1..]);
        MembersWithin(u[1..]);
        var inner := SkipSpace(u[1..]);
        if inner != [] && inner[0] == '}' {
          WithinTail(inner, u, t);
          WithinTail(inner[1..], inner, t);
        } else if ReadMembers(u[1..]).Some? {
          WithinTail(ReadMembers(u[1..]).value.1, u, t);
        }
      } else {
        NumberWithin(u);
      }
    }
  }

  lemma NumberWithin(t: string)
    ensures ReadNumber(t).Some? ==> Within(ReadNumber(t).value.1, t)
  {
  }

  lemma {:induction false} ItemsWithin(t: string)
    ensures ReadItems(t).Some? ==> Within(ReadItems(t).value.1, t)
    decreases |t|, 1
  {
    hide ReadValue;
    ValueWithin(t);
    if ReadValue(t).Some? {
      SkipWithin(ReadValue(t).value.1);
      var u := SkipSpace(ReadValue(t).value.1);
      if u != [] { ItemsWithin(u[1..]); }
    }
  }

  lemma {:induction false} MemberWithin(t: string)
    ensures ReadMember(t).Some? ==> Within(ReadMember(t).value.1, t)
    decreases |t|, 1
  {
    hide ReadValue, ReadString;
    SkipWithin(t);
    var u := SkipSpace(t);
    if u != [] && ReadString(u[1..]).Some? {
      StringWithin(u[1..]);
      var t1 := ReadString(u[1..]).value.1;
      SkipWithin(t1);
      var w := SkipSpace(t1);
      if w != [] && ReadValue(w[1..]).Some? {
        ValueWithin(w[1..]);
        WithinThrough(t1, u[1..], u);
        WithinThrough(w, t1, u);
        WithinThrough(w, u, t);
        WithinTail(ReadValue(w[1..]).value.1, w, t);
      }
    }
  }

  /** Members end at a closing brace. */
  lemma {:induction false} MembersWithin(t: string)
    ensures ReadMembers(t).Some? ==> Within(ReadMembers(t).value.1, t) && '}' in t
    decreases |t|, 2
  {
    hide ReadMember;
    MemberWithin(t);
    if ReadMember(t).Some? {
      SkipWithin(ReadMember(t).value.1);
      var u := SkipSpace(ReadMember(t).value.1);
      if u != [] { MembersWithin(u[1..]); }
    }
  }

  /** Text that opens a brace and closes none is no JSON. */
  lemma UnclosedIsMalformed(text: string)
    requires text == [] || text[0] == '{'
    requires '}' !in text
    ensures Decode(text) == Malformed
  {
    if text != [] {
      SkipWithin(text[1..]);
      MembersWithin(text[1..]);
    }
  }

  lemma {:induction false} EscapeAddsNoBrace(s: string)
    requires '}' !in s
    ensures '}' !in Escape(s)
  {
    if s != [] {
      assert s[0] in s;
      EscapeAddsNoBrace(s[1..]);
    }
  }

  lemma MemberHasNoBrace(key: string, v: Value)
    requires '}' !in key && (v.Str? || v == Num(SCHEMA_VERSION)) && (v.Str? ==> '}' !in v.text)
    ensures '}' !in PrintMember((key, v))
  {
    EscapeAddsNoBrace(key);
    if v.Str? {
      EscapeAddsNoBrace(v.text);
    } else {
      assert Decimal.Print(1) == "1";
    }
    hide Escape;
  }

  lemma TwoMembers(a: (string, Value), b: (string, Value))
    requires '}' !in PrintMember(a) && '}' !in PrintMember(b)
    ensures '}' !in "{" + PrintMembers([a, b])
    ensures Print(Obj([a, b])) == ("{" + PrintMembers([a, b])) + "}"
  {
    hide PrintMember;
    assert [a, b][1..] == [b];
  }

  function VersionField(version: nat): (string, Value) { ("schemaVersion", Num(version)) }

  function StatusField(status: Status): (string, Value) { ("status", Str(StatusText(status))) }

  lemma FieldsHaveNoBrace(status: Status)
    ensures '}' !in PrintMember(VersionField(SCHEMA_VERSION))
    ensures '}' !in PrintMember(StatusField(status))
  {
    hide PrintMember;
    MemberHasNoBrace("schemaVersion", Num(SCHEMA_VERSION));
    MemberHasNoBrace("status", Str(StatusText(status)));
  }

  /** The closing brace of a report is its last character and its only one. */
  lemma OneClosingBrace(status: Status) returns (open: string)
    ensures Encode(status) == open + "}" && open != [] && open[0] == '{' && '}' !in open
  {
    hide Print, PrintMember, PrintMembers, VersionField, StatusField;
    FieldsHaveNoBrace(status);
    TwoMembers(VersionField(SCHEMA_VERSION), StatusField(status));
    open := "{" + PrintMembers([VersionField(SCHEMA_VERSION), StatusField(status)]);
  }

  /** Every proper prefix of a report is malformed, so a launcher that reads a torn one says so. */
  lemma TornReportIsMalformed(status: Status, k: nat)
    requires k < |Encode(status)|
    ensures Decode(Encode(status)[..k]) == Malformed
  {
    hide Encode, Decode;
    var open := OneClosingBrace(status);
    assert Encode(status)[..k] == open[..k];
    UnclosedIsMalformed(open[..k]);
  }
}
