/** The multi-pass string escape of the generated flake, read back as Nix lexes a double-quoted string. */
module NixStrings {
  import opened Wrappers

  /** `str::replace`: non-overlapping occurrences, left to right. */
  function Replace(s: string, pattern: string, replacement: string): string
    requires pattern != []
  {
    if |s| < |pattern| then s
    else if s[..|pattern|] == pattern then replacement + Replace(s[|pattern|..], pattern, replacement)
    else [s[0]] + Replace(s[1..], pattern, replacement)
  }

  function NixString(value: string): string {
    var backslashes := Replace(value, "\\", "\\\\");
    var quotes := Replace(backslashes, "\"", "\\\"");
    var dollars := Replace(quotes, "${", "\\${");
    var newlines := Replace(dollars, "\n", "\\n");
    Replace(newlines, "\r", "\\r")
  }

  /** The same escape decided in one left-to-right walk. */
  function Escape(value: string): string {
    if value == [] then []
    else if "${" <= value then "\\${" + Escape(value[2..])
    else EscapeChar(value[0]) + Escape(value[1..])
  }

  function EscapeChar(c: char): string {
    if c == '\\' then "\\\\"
    else if c == '"' then "\\\""
    else if c == '\n' then "\\n"
    else if c == '\r' then "\\r"
    else [c]
  }

  lemma {:induction false} ReplaceCharConcat(a: string, b: string, c: char, r: string)
    ensures Replace(a + b, [c], r) == Replace(a, [c], r) + Replace(b, [c], r)
  {
    if a == [] {
      assert a + b == b;
    } else {
      assert (a + b)[1..] == a[1..] + b;
      assert (a + b)[..1] == a[..1] == [a[0]];
      ReplaceCharConcat(a[1..], b, c, r);
    }
  }

  /** The first two passes together, one character at a time. */
  function Quoted(value: string): string {
    Replace(Replace(value, "\\", "\\\\"), "\"", "\\\"")
  }

  /** The last two. */
  function Unbroken(text: string): string {
    Replace(Replace(text, "\n", "\\n"), "\r", "\\r")
  }

  lemma QuotedConcat(a: string, b: string)
    ensures Quoted(a + b) == Quoted(a) + Quoted(b)
  {
    ReplaceCharConcat(a, b, '\\', "\\\\");
    ReplaceCharConcat(Replace(a, "\\", "\\\\"), Replace(b, "\\", "\\\\"), '"', "\\\"");
  }

  lemma UnbrokenConcat(a: string, b: string)
    ensures Unbroken(a + b) == Unbroken(a) + Unbroken(b)
  {
    ReplaceCharConcat(a, b, '\n', "\\n");
    ReplaceCharConcat(Replace(a, "\n", "\\n"), Replace(b, "\n", "\\n"), '\r', "\\r");
  }

  lemma ReplaceOne(c: char, p: char, r: string)
    ensures Replace([c], [p], r) == if c == p then r else [c]
  {
    assert [c][1..] == [] && [c][..1] == [c];
    assert Replace([], [p], r) == [];
  }

  lemma QuotedChar(c: char)
    ensures Quoted([c]) == if c == '\\' || c == '"' then ['\\', c] else [c]
  {
    ReplaceOne(c, '\\', "\\\\");
    ReplaceOne(c, '"', "\\\"");
    ReplaceOne('\\', '"', "\\\"");
    if c == '\\' {
      ReplaceCharConcat(['\\'], ['\\'], '"', "\\\"");
      assert "\\\\" == ['\\'] + ['\\'];
    }
  }

  lemma UnbrokenChar(c: char)
    ensures Unbroken([c]) == if c == '\n' then "\\n" else if c == '\r' then "\\r" else [c]
  {
    ReplaceOne(c, '\n', "\\n");
    ReplaceOne(c, '\r', "\\r");
    if c == '\n' {
      ReplaceOne('\\', '\r', "\\r");
      ReplaceOne('n', '\r', "\\r");
      ReplaceCharConcat(['\\'], ['n'], '\r', "\\r");
      assert "\\n" == ['\\'] + ['n'];
    }
  }

  /** A pass over `${` splits wherever no occurrence straddles the cut. */
  lemma DollarConcat(c: char, b: string)
    requires !(c == '$' && b != [] && b[0] == '{')
    ensures Replace([c] + b, "${", "\\${") == [c] + Replace(b, "${", "\\${")
  {
    var t := [c] + b;
    assert t[1..] == b;
    if |t| >= 2 { assert t[..2][0] == c && t[..2][1] == b[0]; }
    if b == [] { assert Replace(b, "${", "\\${") == []; }
  }

  lemma QuotedHead(value: string)
    ensures Quoted(value) == [] <==> value == []
    ensures value != [] ==> (Quoted(value)[0] == '{' <==> value[0] == '{')
  {
    if value != [] {
      assert value == [value[0]] + value[1..];
      QuotedConcat([value[0]], value[1..]);
      QuotedChar(value[0]);
    }
  }

  function Dollars(text: string): string {
    Replace(text, "${", "\\${")
  }

  lemma NixStringPasses(value: string)
    ensures NixString(value) == Unbroken(Dollars(Quoted(value)))
  {
  }

  lemma DollarsOfPair(b: string)
    ensures Dollars("${" + b) == "\\${" + Dollars(b)
  {
    var t := "${" + b;
    assert t[..2] == "${" && t[2..] == b;
  }

  lemma UnbrokenLiteral()
    ensures Unbroken("\\${") == "\\${"
    ensures Unbroken("\\\\") == "\\\\" && Unbroken("\\\"") == "\\\""
  {
    UnbrokenChar('\\');
    UnbrokenChar('$');
    UnbrokenChar('{');
    UnbrokenChar('"');
    UnbrokenConcat(['$'], ['{']);
    UnbrokenConcat(['\\'], ['$'] + ['{']);
    UnbrokenConcat(['\\'], ['\\']);
    UnbrokenConcat(['\\'], ['"']);
    assert "\\${" == ['\\'] + (['$'] + ['{']);
    assert "\\\\" == ['\\'] + ['\\'];
    assert "\\\"" == ['\\'] + ['"'];
  }

  /** Five passes over the text come to one: no pass rewrites what an earlier one inserted. */
  lemma {:induction false} NixStringIsOnePass(value: string)
    ensures NixString(value) == Escape(value)
  {
    hide Replace, Quoted, Unbroken, Dollars, NixString;
    NixStringPasses(value);
    UnbrokenLiteral();
    if value == [] {
      EmptyPasses();
    } else if "${" <= value {
      var rest := value[2..];
      NixStringIsOnePass(rest);
      NixStringPasses(rest);
      assert value == (['$'] + ['{']) + rest;
      QuotedConcat(['$'] + ['{'], rest);
      QuotedConcat(['$'], ['{']);
      QuotedChar('$');
      QuotedChar('{');
      assert "${" == ['$'] + ['{'];
      DollarsOfPair(Quoted(rest));
      UnbrokenConcat("\\${", Dollars(Quoted(rest)));
    } else {
      OnePassStep(value[0], value[1..]);
      NixStringIsOnePass(value[1..]);
      NixStringPasses(value[1..]);
      assert value == [value[0]] + value[1..];
    }
  }

  lemma EmptyPasses()
    ensures Unbroken(Dollars(Quoted([]))) == []
  {
  }

  lemma OnePassStep(c: char, rest: string)
    requires !("${" <= [c] + rest)
    ensures Unbroken(Dollars(Quoted([c] + rest))) == EscapeChar(c) + Unbroken(Dollars(Quoted(rest)))
  {
    hide Replace, Quoted, Unbroken;
    QuotedConcat([c], rest);
    QuotedChar(c);
    QuotedHead(rest);
    UnbrokenLiteral();
    UnbrokenChar(c);
    var q := Quoted(rest);
    assert rest != [] ==> ([c] + rest)[1] == rest[0];
    if c == '\\' || c == '"' {
      assert ['\\', c] + q == ['\\'] + ([c] + q);
      DollarConcat('\\', [c] + q);
      DollarConcat(c, q);
      assert Dollars(['\\', c] + q) == ['\\', c] + Dollars(q);
      UnbrokenConcat(['\\', c], Dollars(q));
    } else {
      DollarConcat(c, q);
      UnbrokenConcat([c], Dollars(q));
    }
  }

  // The reader: Nix's own lexer for the inside of a double-quoted string, from just after the quote.

  function Unescape(c: char): char {
    if c == 'n' then '\n' else if c == 'r' then '\r' else if c == 't' then '\t' else c
  }

  function Prepend(head: string, tail: Option<(string, string)>): Option<(string, string)> {
    match tail
    case Some((value, rest)) => Some((head + value, rest))
    case None => None
  }

  /** The value up to the closing quote and what follows it. An interpolation makes it no plain string. */
  function ReadString(t: string): Option<(string, string)> {
    if t == [] then None
    else if t[0] == '"' then Some(([], t[1..]))
    else if t[0] == '\\' then
      if |t| < 2 then None else Prepend([Unescape(t[1])], ReadString(t[2..]))
    else if "${" <= t then None
    else if "$$" <= t then Prepend("$$", ReadString(t[2..]))
    else if "\r\n" <= t then Prepend("\n", ReadString(t[2..]))
    else if t[0] == '\r' then Prepend("\n", ReadString(t[1..]))
    else Prepend([t[0]], ReadString(t[1..]))
  }

  /** What the escaped characters would be read as were they left bare: a quote as the end, a dollar and a
      brace as no plain string unless a dollar comes before them, a backslash as what its next character makes
      of it, and a carriage return as a newline. Only a newline would have stood for itself. */
  lemma WhatBareTextIsReadAs(t: string, value: string, left: string)
    requires ReadString(t) == Some((value, left))
    ensures ReadString("\"" + t) == Some(("", t)) && ReadString("${" + t) == None
    ensures ReadString("$$" + t) == Some(("$$" + value, left))
    ensures ReadString("\\n" + t) == Some(("\n" + value, left)) && ReadString("\\r" + t) == Some(("\r" + value, left))
    ensures ReadString("\\t" + t) == Some(("\t" + value, left)) && ReadString("\\") == None
    ensures ReadString("\r\n" + t) == Some(("\n" + value, left))
    ensures !("\n" <= t) ==> ReadString("\r" + t) == Some(("\n" + value, left))
    ensures ReadString("\n" + t) == Some(("\n" + value, left))
  {
    BareDollars(t);
    BareBackslash('n', t);
    BareBackslash('r', t);
    BareBackslash('t', t);
    BareReturnAndNewline(t);
    if !("\n" <= t) { BareReturn(t); }
    BareNewline(t);
    hide ReadString;
  }

  lemma BareDollars(t: string)
    ensures ReadString("\"" + t) == Some(("", t)) && ReadString("${" + t) == None
    ensures ReadString("$$" + t) == Prepend("$$", ReadString(t))
  {
    OneOn("\"", t);
    TwoOn("${", t);
    TwoOn("$$", t);
  }

  lemma BareBackslash(c: char, t: string)
    ensures ReadString("\\") == None
    ensures ReadString(['\\', c] + t)
         == Prepend([if c == 'n' then '\n' else if c == 'r' then '\r' else if c == 't' then '\t' else c], ReadString(t))
  {
    TwoOn(['\\', c], t);
  }

  lemma BareReturnAndNewline(t: string)
    ensures ReadString("\r\n" + t) == Prepend("\n", ReadString(t))
  {
    TwoOn("\r\n", t);
  }

  lemma BareReturn(t: string)
    requires !("\n" <= t)
    ensures ReadString("\r" + t) == Prepend("\n", ReadString(t))
  {
    OneOn("\r", t);
    assert t == [] || t[0] != '\n';
  }

  lemma BareNewline(t: string)
    ensures ReadString("\n" + t) == Prepend("\n", ReadString(t))
  {
    OneOn("\n", t);
  }

  lemma OneOn(c: string, t: string)
    requires |c| == 1
    ensures (c + t)[0] == c[0] && (c + t)[1..] == t
    ensures t != [] ==> (c + t)[1] == t[0]
  {
  }

  lemma TwoOn(cs: string, t: string)
    requires |cs| == 2
    ensures (cs + t)[0] == cs[0] && (cs + t)[1] == cs[1] && (cs + t)[2..] == t && cs <= cs + t
  {
  }

  lemma EscapeHead(value: string)
    requires value != []
    ensures Escape(value) != []
    ensures Escape(value)[0] == (if "${" <= value || value[0] in "\\\"\n\r" then '\\' else value[0])
  {
  }

  lemma EscapeStep(value: string)
    ensures value == [] ==> Escape(value) == []
    ensures value != [] && !("${" <= value) ==> Escape(value) == EscapeChar(value[0]) + Escape(value[1..])
    ensures "${" <= value ==> Escape(value) == "\\${" + Escape(value[2..])
  {
  }

  lemma ReadEnd(tail: string)
    requires tail != [] && tail[0] == '"'
    ensures ReadString(tail) == Some(([], tail[1..]))
  {
  }

  /** Reading an escaped text back gives the text, and the quote that ends it is the one printed after it. */
  lemma {:induction false} ReadOfEscaped(value: string, tail: string)
    requires tail != [] && tail[0] == '"'
    ensures ReadString(Escape(value) + tail) == Some((value, tail[1..]))
    decreases |value|
  {
    hide ReadString, Escape, EscapeChar;
    EscapeStep(value);
    if value == [] {
      ReadEnd(tail);
      assert Escape(value) + tail == tail;
    } else if "${" <= value {
      ReadOfEscaped(value[2..], tail);
      ReadDollarBrace(Escape(value[2..]) + tail);
      assert Escape(value) + tail == "\\${" + (Escape(value[2..]) + tail);
      assert value == "${" + value[2..];
    } else if value[0] == '$' {
      ReadOfDollar(value, tail);
    } else {
      ReadOfEscaped(value[1..], tail);
      ReadOfEscapedChar(value[0], Escape(value[1..]) + tail);
      assert Escape(value) + tail == EscapeChar(value[0]) + (Escape(value[1..]) + tail);
      assert value == [value[0]] + value[1..];
    }
  }

  lemma ReadDollarBrace(t: string)
    ensures ReadString("\\${" + t) == Prepend("${", ReadString(t))
  {
    var u := "\\${" + t;
    assert u[2..] == "{" + t;
    assert ("{" + t)[1..] == t;
    assert ReadString("{" + t) == Prepend(['{'], ReadString(t));
    assert ReadString(u) == Prepend(['$'], ReadString("{" + t));
    assert "${" == ['$'] + ['{'];
    if ReadString(t).Some? {
      assert ['$'] + (['{'] + ReadString(t).value.0) == "${" + ReadString(t).value.0;
    }
  }

  lemma ReadOfEscapedChar(c: char, t: string)
    requires c != '$'
    ensures ReadString(EscapeChar(c) + t) == Prepend([c], ReadString(t))
  {
    var u := EscapeChar(c) + t;
    if |EscapeChar(c)| == 2 {
      assert u[2..] == t;
    } else {
      assert u[1..] == t;
    }
  }

  lemma ReadLoneDollar(t: string)
    requires t != [] && t[0] != '$' && t[0] != '{'
    ensures ReadString(['$'] + t) == Prepend(['$'], ReadString(t))
  {
    var u := ['$'] + t;
    assert u[1..] == t && u[1] == t[0];
  }

  lemma ReadDollarPair(t: string)
    ensures ReadString("$$" + t) == Prepend("$$", ReadString(t))
  {
    var u := "$$" + t;
    assert u[2..] == t && u[1] == '$';
  }

  /** A lone dollar, or a pair of them, is literal; the lexer takes the pair at once. */
  lemma {:induction false} ReadOfDollar(value: string, tail: string)
    requires value != [] && value[0] == '$' && !("${" <= value)
    requires tail != [] && tail[0] == '"'
    ensures ReadString(Escape(value) + tail) == Some((value, tail[1..]))
    decreases |value|, 0
  {
    hide ReadString, Escape;
    var w := value[1..];
    EscapeStep(value);
    EscapeStep(w);
    assert value == ['$'] + w;
    if w != [] { EscapeHead(w); }
    if w != [] && w[0] == '$' && !("${" <= w) {
      var x := w[1..];
      ReadOfEscaped(x, tail);
      assert Escape(value) + tail == "$$" + (Escape(x) + tail);
      ReadDollarPair(Escape(x) + tail);
      assert value == "$$" + x;
    } else {
      ReadOfEscaped(w, tail);
      assert Escape(value) + tail == ['$'] + (Escape(w) + tail);
      ReadLoneDollar(Escape(w) + tail);
    }
  }

  /** What the emitted literal says, for every text. */
  lemma ReadOfNixString(value: string, rest: string)
    ensures ReadString(NixString(value) + ("\"" + rest)) == Some((value, rest))
  {
    NixStringIsOnePass(value);
    ReadOfEscaped(value, "\"" + rest);
  }
}
