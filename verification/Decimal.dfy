/** Decimal integers as streams print and read them. */
module Decimal {

  type int32 = x: int | -0x8000_0000 <= x < 0x8000_0000

  const MIN: int32 := -0x8000_0000
  const MAX: int32 := 0x7fff_ffff

  function Clamp(x: int): (r: int32)
    ensures MIN <= x <= MAX ==> r == x
  {
    if x < MIN then MIN else if x > MAX then MAX else x
  }

  predicate IsDigit(c: char) {
    '0' <= c <= '9'
  }

  predicate IsSpace(c: char) {
    c == ' ' || '\t' <= c <= '\r'
  }

  function Digit(d: nat): (c: char)
    requires d < 10
    ensures IsDigit(c)
  {
    '0' + d as char
  }

  function DigitValue(c: char): nat
    requires IsDigit(c)
  {
    (c - '0') as nat
  }

  function ShowNat(n: nat): (s: string)
    ensures s != "" && forall c | c in s :: IsDigit(c)
  {
    if n < 10 then [Digit(n)] else ShowNat(n / 10) + [Digit(n % 10)]
  }

  function Show(x: int): (s: string)
    ensures s != "" && (IsDigit(s[0]) || s[0] == '-') && forall c | c in s :: IsDigit(c) || c == '-'
  {
    if x < 0 then "-" + ShowNat(-x) else ShowNat(x)
  }

  function SkipSpace(s: string): (t: string)
    ensures |t| <= |s| && (t == "" || !IsSpace(t[0]))
  {
    if s != "" && IsSpace(s[0]) then SkipSpace(s[1..]) else s
  }

  /** The value of the leading digits, after `acc`, and what follows them. */
  function LeadingDigits(s: string, acc: nat): (r: (nat, string))
    ensures |r.1| <= |s| && (s != "" && IsDigit(s[0]) ==> |r.1| < |s|)
  {
    if s != "" && IsDigit(s[0]) then LeadingDigits(s[1..], 10 * acc + DigitValue(s[0])) else (acc, s)
  }

  predicate HasSign(s: string) {
    s != "" && (s[0] == '-' || s[0] == '+')
  }

  /** An optional sign and the digits behind it. */
  function Unsigned(s: string): (t: string)
    ensures |t| <= |s|
  {
    if HasSign(s) then s[1..] else s
  }

  /** The signed value in front, and what follows it. */
  function Signed(s: string): (r: (int, string))
    ensures |r.1| <= |s|
  {
    var d := LeadingDigits(Unsigned(s), 0);
    (if HasSign(s) && s[0] == '-' then -(d.0 as int) else d.0, d.1)
  }

  predicate StartsWithDigit(s: string) {
    s != "" && IsDigit(s[0])
  }

  /** C's conversion of a string: leading space is skipped, and what is no number is 0. */
  function Atoi(s: string): int32 {
    Clamp(Signed(SkipSpace(s)).0)
  }

  /** Stream extraction into a variable that held `prev`: the value it holds afterwards, the text
      left, and whether the stream is still good. At the end of the text the variable keeps its
      value; text that is no number makes it 0; a number out of range is clamped. */
  function Extract(s: string, prev: int32): (r: (int32, string, bool))
    ensures r.2 ==> |r.1| < |s|
  {
    var t := SkipSpace(s);
    if t == "" then (prev, "", false)
    else if !StartsWithDigit(Unsigned(t)) then (0, Unsigned(t), false)
    else
      var d := Signed(t);
      (Clamp(d.0), d.1, MIN <= d.0 <= MAX && d.1 != "")
  }

  function Power10(k: nat): nat {
    if k == 0 then 1 else 10 * Power10(k - 1)
  }

  predicate AllDigits(s: string) {
    forall i :: 0 <= i < |s| ==> '0' <= s[i] <= '9'
  }

  /** What a string of digits stands for, by the place of each digit. */
  function PlaceValue(s: string): nat
    requires AllDigits(s)
  {
    if s == "" then 0 else (s[0] - '0') as nat * Power10(|s| - 1) + PlaceValue(s[1..])
  }

  lemma TimesTen(d: nat, k: nat)
    requires k > 0
    ensures d * Power10(k) == 10 * (d * Power10(k - 1))
  {
    var p := Power10(k - 1);
    hide Power10;
    assert d * (10 * p) == 10 * (d * p);
  }

  lemma {:induction false} PlaceValueAppend(s: string, c: char)
    requires AllDigits(s) && '0' <= c <= '9'
    ensures AllDigits(s + [c]) && PlaceValue(s + [c]) == 10 * PlaceValue(s) + (c - '0') as nat
  {
    if s == "" {
      assert s + [c] == [c] && [c][1..] == "";
      assert Power10(0) == 1;
    } else {
      PlaceValueAppend(s[1..], c);
      assert (s + [c])[1..] == s[1..] + [c];
      TimesTen((s[0] - '0') as nat, |s|);
    }
  }

  /** A number is printed in decimal, without a leading zero. */
  lemma {:induction false} ShowsDecimal(n: nat)
    ensures AllDigits(ShowNat(n)) && PlaceValue(ShowNat(n)) == n && (n > 0 ==> ShowNat(n)[0] != '0')
  {
    if n < 10 {
      assert [Digit(n)][1..] == "" && Power10(0) == 1;
    } else {
      ShowsDecimal(n / 10);
      PlaceValueAppend(ShowNat(n / 10), Digit(n % 10));
    }
  }

  lemma {:induction false} ReadsNat(n: nat, t: string)
    ensures LeadingDigits(ShowNat(n) + t, 0) == LeadingDigits(t, n)
  {
    if n < 10 {
      assert ([Digit(n)] + t)[1..] == t;
    } else {
      var u := [Digit(n % 10)] + t;
      assert ShowNat(n) + t == ShowNat(n / 10) + u;
      ReadsNat(n / 10, u);
      assert u[1..] == t;
    }
  }

  lemma SkipNothing(s: string)
    requires s != "" && !IsSpace(s[0])
    ensures SkipSpace(s) == s
  {
  }

  lemma ReadsBackNegative(x: int, t: string)
    requires x < 0 && !StartsWithDigit(t)
    ensures Signed(Show(x) + t) == (x, t) && StartsWithDigit(Unsigned(Show(x) + t))
  {
    var s, u := Show(x) + t, ShowNat(-x);
    hide SkipSpace, LeadingDigits, ShowNat;
    assert s == ['-'] + (u + t);
    assert Unsigned(s) == u + t && (u + t)[0] == u[0];
    ReadsNat(-x, t);
    NoLeadingDigits(t, -x);
  }

  lemma ReadsBackNat(x: nat, t: string)
    requires !StartsWithDigit(t)
    ensures Signed(Show(x) + t) == (x, t) && StartsWithDigit(Unsigned(Show(x) + t))
  {
    var s, u := Show(x) + t, ShowNat(x);
    hide SkipSpace, LeadingDigits, ShowNat;
    assert u[0] in u && s[0] == u[0] && Unsigned(s) == s;
    ReadsNat(x, t);
    NoLeadingDigits(t, x);
  }

  /** What is printed reads back, up to the first character that is no digit. */
  lemma ReadsBack(x: int, t: string)
    requires !StartsWithDigit(t)
    ensures Signed(Show(x) + t) == (x, t) && StartsWithDigit(Unsigned(Show(x) + t))
    ensures SkipSpace(Show(x) + t) == Show(x) + t
  {
    assert (Show(x) + t)[0] == Show(x)[0];
    SkipNothing(Show(x) + t);
    hide Show, Signed, Unsigned, SkipSpace;
    if x < 0 {
      ReadsBackNegative(x, t);
    } else {
      ReadsBackNat(x, t);
    }
  }

  lemma NoLeadingDigits(t: string, n: nat)
    requires !StartsWithDigit(t)
    ensures LeadingDigits(t, n) == (n, t)
  {
  }

  lemma AtoiReadsBack(x: int32)
    ensures Atoi(Show(x)) == x
  {
    ReadsBack(x, "");
    assert Show(x) + "" == Show(x);
  }

  lemma ExtractReadsBack(x: int32, t: string, prev: int32)
    requires !StartsWithDigit(t)
    ensures Extract(Show(x) + t, prev) == (x, t, t != "")
    ensures Extract(" " + (Show(x) + t), prev) == (x, t, t != "")
  {
    ReadsBack(x, t);
    assert (" " + (Show(x) + t))[1..] == Show(x) + t;
    assert SkipSpace(" " + (Show(x) + t)) == SkipSpace(Show(x) + t);
  }
}
