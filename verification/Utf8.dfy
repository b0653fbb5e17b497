/** Well-formed UTF-8 over bytes, one `char` a byte, as section 4 of RFC 3629 gives its syntax, and what the
    well-formed texts are. */
module Utf8 {

  predicate Continuation(c: char) {
    0x80 <= c as int <= 0xBF
  }

  /** Whether `to_str` answers. */
  predicate IsUtf8(t: string) {
    if t == [] then true
    else
      var a := t[0] as int;
      if a < 0x80 then IsUtf8(t[1..])
      else if 0xC2 <= a <= 0xDF then |t| >= 2 && Continuation(t[1]) && IsUtf8(t[2..])
      else if 0xE0 <= a <= 0xEF then
        |t| >= 3 && Continuation(t[1]) && Continuation(t[2])
        && (a == 0xE0 ==> t[1] as int >= 0xA0) && (a == 0xED ==> t[1] as int <= 0x9F) && IsUtf8(t[3..])
      else
        0xF0 <= a <= 0xF4 && |t| >= 4 && Continuation(t[1]) && Continuation(t[2]) && Continuation(t[3])
        && (a == 0xF0 ==> t[1] as int >= 0x90) && (a == 0xF4 ==> t[1] as int <= 0x8F) && IsUtf8(t[4..])
  }

  /** A Unicode scalar value. */
  predicate Scalar(c: nat) {
    c <= 0x10FFFF && !(0xD800 <= c <= 0xDFFF)
  }

  /** Its bytes (section 3 of RFC 3629). */
  function Encoded(c: nat): string
    requires Scalar(c)
  {
    if c < 0x80 then [c as char]
    else if c < 0x800 then [(0xC0 + c / 64) as char, (0x80 + c % 64) as char]
    else if c < 0x10000 then
      [(0xE0 + c / 4096) as char, (0x80 + c / 64 % 64) as char, (0x80 + c % 64) as char]
    else
      [(0xF0 + c / 262144) as char, (0x80 + c / 4096 % 64) as char, (0x80 + c / 64 % 64) as char,
       (0x80 + c % 64) as char]
  }

  function AllEncoded(cs: seq<nat>): string
    requires forall i | 0 <= i < |cs| :: Scalar(cs[i])
  {
    if cs == [] then "" else Encoded(cs[0]) + AllEncoded(cs[1..])
  }

  lemma AfterOne(a: char, rest: string)
    requires a as int < 0x80
    ensures IsUtf8([a] + rest) <==> IsUtf8(rest)
  {
    assert ([a] + rest)[1..] == rest;
  }

  lemma AfterTwo(a: char, b: char, rest: string)
    requires 0xC2 <= a as int <= 0xDF && Continuation(b)
    ensures IsUtf8([a, b] + rest) <==> IsUtf8(rest)
  {
    assert ([a, b] + rest)[2..] == rest;
  }

  lemma AfterThree(a: char, b: char, c: char, rest: string)
    requires 0xE0 <= a as int <= 0xEF && Continuation(b) && Continuation(c)
    requires (a as int == 0xE0 ==> b as int >= 0xA0) && (a as int == 0xED ==> b as int <= 0x9F)
    ensures IsUtf8([a, b, c] + rest) <==> IsUtf8(rest)
  {
    assert ([a, b, c] + rest)[3..] == rest;
  }

  lemma AfterFour(a: char, b: char, c: char, d: char, rest: string)
    requires 0xF0 <= a as int <= 0xF4 && Continuation(b) && Continuation(c) && Continuation(d)
    requires (a as int == 0xF0 ==> b as int >= 0x90) && (a as int == 0xF4 ==> b as int <= 0x8F)
    ensures IsUtf8([a, b, c, d] + rest) <==> IsUtf8(rest)
  {
    assert ([a, b, c, d] + rest)[4..] == rest;
  }

  lemma OneMoreScalar(c: nat, rest: string)
    requires Scalar(c)
    ensures IsUtf8(Encoded(c) + rest) <==> IsUtf8(rest)
  {
    hide IsUtf8;
    var e := Encoded(c);
    if c < 0x80 {
      AfterOne(e[0], rest);
    } else if c < 0x800 {
      AfterTwo(e[0], e[1], rest);
    } else if c < 0x10000 {
      AfterThree(e[0], e[1], e[2], rest);
    } else {
      AfterFour(e[0], e[1], e[2], e[3], rest);
    }
  }

  lemma TwoBytes(a: nat, b: nat)
    requires 0xC2 <= a <= 0xDF && 0x80 <= b <= 0xBF
    ensures var c := (a - 0xC0) * 64 + (b - 0x80); Scalar(c) && Encoded(c) == [a as char, b as char]
  {
    var c := (a - 0xC0) * 64 + (b - 0x80);
    assert c / 64 == a - 0xC0 && c % 64 == b - 0x80;
  }

  lemma ThreeBytes(a: nat, b: nat, d: nat)
    requires 0xE0 <= a <= 0xEF && 0x80 <= b <= 0xBF && 0x80 <= d <= 0xBF
    requires (a == 0xE0 ==> b >= 0xA0) && (a == 0xED ==> b <= 0x9F)
    ensures var c := (a - 0xE0) * 4096 + (b - 0x80) * 64 + (d - 0x80);
            Scalar(c) && Encoded(c) == [a as char, b as char, d as char]
  {
    var c := (a - 0xE0) * 4096 + (b - 0x80) * 64 + (d - 0x80);
    assert c % 64 == d - 0x80 && c / 64 == (a - 0xE0) * 64 + (b - 0x80);
    assert c / 4096 == a - 0xE0;
  }

  lemma FourBytes(a: nat, b: nat, d: nat, e: nat)
    requires 0xF0 <= a <= 0xF4 && 0x80 <= b <= 0xBF && 0x80 <= d <= 0xBF && 0x80 <= e <= 0xBF
    requires (a == 0xF0 ==> b >= 0x90) && (a == 0xF4 ==> b <= 0x8F)
    ensures var c := (a - 0xF0) * 262144 + (b - 0x80) * 4096 + (d - 0x80) * 64 + (e - 0x80);
            Scalar(c) && Encoded(c) == [a as char, b as char, d as char, e as char]
  {
    var c := (a - 0xF0) * 262144 + (b - 0x80) * 4096 + (d - 0x80) * 64 + (e - 0x80);
    assert c % 64 == e - 0x80 && c / 64 == (a - 0xF0) * 4096 + (b - 0x80) * 64 + (d - 0x80);
    assert c / 4096 == (a - 0xF0) * 64 + (b - 0x80) && c / 262144 == a - 0xF0;
  }

  lemma FirstScalar(t: string) returns (c: nat, rest: string)
    requires t != [] && IsUtf8(t)
    ensures Scalar(c) && t == Encoded(c) + rest && IsUtf8(rest)
  {
    hide Encoded, Scalar;
    var a := t[0] as int;
    if a < 0x80 {
      OneByte(a);
      c, rest := a, t[1..];
    } else if a <= 0xDF {
      var b := t[1] as int;
      TwoBytes(a, b);
      c, rest := (a - 0xC0) * 64 + (b - 0x80), t[2..];
    } else if a <= 0xEF {
      var b, d := t[1] as int, t[2] as int;
      ThreeBytes(a, b, d);
      c, rest := (a - 0xE0) * 4096 + (b - 0x80) * 64 + (d - 0x80), t[3..];
    } else {
      var b, d, e := t[1] as int, t[2] as int, t[3] as int;
      FourBytes(a, b, d, e);
      c, rest := (a - 0xF0) * 262144 + (b - 0x80) * 4096 + (d - 0x80) * 64 + (e - 0x80), t[4..];
    }
  }

  lemma OneByte(a: nat)
    requires a < 0x80
    ensures Scalar(a) && Encoded(a) == [a as char]
  {
  }

  lemma {:induction false} EncodedIsUtf8(cs: seq<nat>)
    requires forall i | 0 <= i < |cs| :: Scalar(cs[i])
    ensures IsUtf8(AllEncoded(cs))
  {
    if cs != [] {
      EncodedIsUtf8(cs[1..]);
      OneMoreScalar(cs[0], AllEncoded(cs[1..]));
    }
  }

  lemma {:induction false} Utf8IsEncoded(t: string) returns (cs: seq<nat>)
    requires IsUtf8(t)
    ensures (forall i | 0 <= i < |cs| :: Scalar(cs[i])) && t == AllEncoded(cs)
    decreases |t|
  {
    cs := [];
    if t != [] {
      var c, rest := FirstScalar(t);
      assert |rest| < |t|;
      var more := Utf8IsEncoded(rest);
      cs := [c] + more;
      assert cs[1..] == more;
    }
  }

  lemma {:induction false} AsciiIsUtf8(t: string)
    requires forall i | 0 <= i < |t| :: t[i] as int < 0x80
    ensures IsUtf8(t)
  {
    if t != [] { AsciiIsUtf8(t[1..]); }
  }

  /** The well-formed texts are exactly the encodings of sequences of scalar values. */
  lemma Utf8Exactly(t: string)
    ensures IsUtf8(t) <==> exists cs: seq<nat> :: (forall i | 0 <= i < |cs| :: Scalar(cs[i])) && t == AllEncoded(cs)
  {
    if IsUtf8(t) {
      var cs := Utf8IsEncoded(t);
    }
    forall cs: seq<nat> | (forall i | 0 <= i < |cs| :: Scalar(cs[i])) && t == AllEncoded(cs) ensures IsUtf8(t) {
      EncodedIsUtf8(cs);
    }
  }
}
