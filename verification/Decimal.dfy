/** Unsigned decimal numerals: the printers every text format of the tool shares, and their readers. */
module Decimal {
  import opened Wrappers

  predicate IsDigit(c: char) {
    '0' <= c <= '9'
  }

  predicate AllDigits(s: string) {
    forall i | 0 <= i < |s| :: IsDigit(s[i])
  }

  function Digit(d: nat): (c: char)
    requires d < 10
    ensures IsDigit(c) && DigitValue(c) == d
  {
    ('0' as int + d) as char
  }

  function DigitValue(c: char): nat
    requires IsDigit(c)
  {
    c as int - '0' as int
  }

  /** The shortest numeral, without leading zeros. */
  function Print(n: nat): string {
    if n < 10 then [Digit(n)] else Print(n / 10) + [Digit(n % 10)]
  }

  /** Zero-padded to at least `width` characters; wider numbers keep all their digits. */
  function Padded(n: nat, width: nat): string {
    if width <= 1 then Print(n)
    else if n < 10 then Padded(0, width - 1) + [Digit(n)]
    else Padded(n / 10, width - 1) + [Digit(n % 10)]
  }

  function Value(s: string): nat
    requires AllDigits(s)
  {
    if s == [] then 0 else Value(s[..|s| - 1]) * 10 + DigitValue(s[|s| - 1])
  }

  lemma {:induction false} ValueOfPrint(n: nat)
    ensures AllDigits(Print(n)) && Print(n) != [] && Value(Print(n)) == n
    ensures n >= 10 ==> Print(n)[0] != '0'
  {
    if n >= 10 {
      ValueOfPrint(n / 10);
      if n / 10 < 10 { assert Print(n / 10) == [Digit(n / 10)]; }
      assert Print(n)[..|Print(n)| - 1] == Print(n / 10);
    } else {
      assert [Digit(n)][..0] == [];
      assert Value([Digit(n)]) == n;
    }
  }

  lemma {:induction false} ValueOfPadded(n: nat, width: nat)
    ensures AllDigits(Padded(n, width)) && Value(Padded(n, width)) == n
  {
    if width <= 1 {
      ValueOfPrint(n);
    } else {
      ValueOfPadded(if n < 10 then 0 else n / 10, width - 1);
      var head := Padded(if n < 10 then 0 else n / 10, width - 1);
      assert Padded(n, width)[..|Padded(n, width)| - 1] == head;
    }
  }

  function Power10(e: nat): nat {
    if e == 0 then 1 else 10 * Power10(e - 1)
  }

  /** Padding hits the requested width exactly when the number fits in it. */
  lemma {:induction false} PaddedWidth(n: nat, width: nat)
    requires width >= 1
    ensures |Padded(n, width)| == width <==> n < Power10(width)
    ensures |Padded(n, width)| >= width
  {
    if width == 1 {
      assert Power10(1) == 10;
      if n >= 10 { ValueOfPrint(n / 10); }
    } else {
      PaddedWidth(if n < 10 then 0 else n / 10, width - 1);
      assert Power10(width - 1) >= 1 by { Power10Positive(width - 1); }
    }
  }

  lemma {:induction false} Power10Positive(e: nat)
    ensures Power10(e) >= 1
  {
    if e > 0 { Power10Positive(e - 1); }
  }

  /** A digit string of a given width is the padding of its own value: fixed-width numerals are unique. */
  lemma {:induction false} PaddedOfValue(s: string)
    requires s != [] && AllDigits(s)
    ensures Padded(Value(s), |s|) == s
  {
    var head, last := s[..|s| - 1], DigitValue(s[|s| - 1]);
    assert s == head + [s[|s| - 1]];
    assert Digit(last) == s[|s| - 1];
    if |s| == 1 {
      assert Value(head) == 0;
      assert Value(s) == last;
    } else {
      PaddedOfValue(head);
      assert Value(s) / 10 == Value(head) && Value(s) % 10 == last;
      if Value(s) < 10 { assert Value(head) == 0; }
    }
  }

  function LeadingDigits(t: string): (k: nat)
    ensures k <= |t| && AllDigits(t[..k])
    ensures k < |t| ==> !IsDigit(t[k])
  {
    if t == [] || !IsDigit(t[0]) then 0
    else
      var k := 1 + LeadingDigits(t[1..]);
      assert t[..k] == [t[0]] + t[1..][..k - 1];
      k
  }

  /** Reads the longest leading numeral. */
  function Read(t: string): Option<(nat, string)> {
    var k := LeadingDigits(t);
    if k == 0 then None else Some((Value(t[..k]), t[k..]))
  }

  lemma ReadOfPrint(n: nat, rest: string)
    requires rest == [] || !IsDigit(rest[0])
    ensures Read(Print(n) + rest) == Some((n, rest))
  {
    ValueOfPrint(n);
    var t := Print(n) + rest;
    var k := LeadingDigits(t);
    assert forall i | 0 <= i < |Print(n)| :: IsDigit(t[i]);
    assert forall i | 0 <= i < k :: IsDigit(t[i]) by {
      assert forall i | 0 <= i < k :: t[i] == t[..k][i];
    }
    assert rest != [] ==> t[|Print(n)|] == rest[0];
    assert k == |Print(n)|;
    assert t[..k] == Print(n) && t[k..] == rest;
  }
}
