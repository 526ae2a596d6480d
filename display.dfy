/** The display form of a Gaussian integer, as the factoriser prints its tokens: "0",
    "i", "-i", "bi", "r", "(r + i)", "(r - i)" or "(r ± |b|i)", with integers written in
    decimal and a leading '-' when negative. A parser for exactly these forms is the
    partner of the printer: parsing what was printed gives the element back, so distinct
    elements always print as distinct tokens. */
module Display {
  import opened Arith
  import opened Gaussian
  import opened Wrappers

  // ---------------------------------------------------------------------------
  // Decimal numerals
  // ---------------------------------------------------------------------------

  predicate IsDigit(c: char)
  {
    '0' <= c <= '9'
  }

  predicate AllDigits(s: string)
  {
    forall k :: 0 <= k < |s| ==> IsDigit(s[k])
  }

  /** The character of a decimal digit. */
  function DigitChar(d: nat): (c: char)
    requires d < 10
    ensures IsDigit(c)
  {
    (48 + d) as char
  }

  /** The value of a digit character. */
  function DigitValue(c: char): (d: nat)
    requires IsDigit(c)
    ensures d < 10
  {
    (c as int) - 48
  }

  /** The decimal numeral of n, without leading zeros. */
  function NatToString(n: nat): (s: string)
    ensures |s| > 0 && AllDigits(s)
  {
    if n < 10 then [DigitChar(n)] else NatToString(n / 10) + [DigitChar(n % 10)]
  }

  /** The value of a string of digits, read left to right. */
  function DigitsValue(s: string): nat
    requires AllDigits(s)
  {
    if s == [] then 0 else 10 * DigitsValue(s[..|s| - 1]) + DigitValue(s[|s| - 1])
  }

  /** A decimal integer as JavaScript's template strings print it: a '-' sign, then the
      numeral of the absolute value. */
  function IntToString(n: int): string
  {
    if n < 0 then "-" + NatToString(-n) else NatToString(n)
  }

  function ParseNat(s: string): Option<nat>
  {
    if |s| > 0 && AllDigits(s) then Some(DigitsValue(s)) else None
  }

  function ParseInt(s: string): Option<int>
  {
    if |s| > 0 && s[0] == '-' then
      match ParseNat(s[1..])
      case Some(v) => Some(-(v as int))
      case None => None
    else
      match ParseNat(s)
      case Some(v) => Some(v)
      case None => None
  }

  /** Reading a numeral back gives its value. */
  lemma {:induction false} NatRoundTrip(n: nat)
    ensures DigitsValue(NatToString(n)) == n
  {
    if n >= 10 {
      var s := NatToString(n);
      NatRoundTrip(n / 10);
      assert s[..|s| - 1] == NatToString(n / 10);
    }
  }

  /** Reading a printed integer back gives the integer; the printed form has no space,
      no parenthesis and no 'i', and it ends in a digit. */
  lemma IntRoundTrip(n: int)
    ensures ParseInt(IntToString(n)) == Some(n)
    ensures |IntToString(n)| > 0 && IsDigit(IntToString(n)[|IntToString(n)| - 1])
    ensures IntToString(n)[0] == '-' || IsDigit(IntToString(n)[0])
    ensures forall k :: 0 <= k < |IntToString(n)| ==> IntToString(n)[k] != ' '
  {
    NatRoundTrip(Abs(n));
    if n < 0 {
      assert IntToString(n)[1..] == NatToString(-n);
    }
  }

  // ---------------------------------------------------------------------------
  // Printing and parsing display tokens
  // ---------------------------------------------------------------------------

  /** The source's toString, case by case. */
  function ToString(g: GaussianInteger): (s: string)
    ensures |s| > 0
    ensures s[0] == '(' <==> g.re != 0 && g.im != 0
  {
    if g.re == 0 && g.im == 0 then "0"
    else if g.re == 0 then
      if g.im == 1 then "i"
      else if g.im == -1 then "-i"
      else IntToString(g.im) + "i"
    else if g.im == 0 then IntToString(g.re)
    else if g.im == 1 then "(" + IntToString(g.re) + " + i)"
    else if g.im == -1 then "(" + IntToString(g.re) + " - i)"
    else "(" + IntToString(g.re) + " " + (if g.im > 0 then "+" else "-") + " " + NatToString(Abs(g.im)) + "i)"
  }

  /** The index of the first occurrence of c in s, or |s|. */
  function IndexOf(s: string, c: char): (k: nat)
    ensures k <= |s| && (k < |s| ==> s[k] == c)
    ensures forall j :: 0 <= j < k ==> s[j] != c
  {
    if s == [] then 0 else if s[0] == c then 0 else 1 + IndexOf(s[1..], c)
  }

  /** What follows the real part inside the parentheses: " + i", " - i", " + bi" or
      " - bi". */
  function ParseTail(re: int, tail: string): Option<GaussianInteger>
  {
    if tail == " + i" then Some(GaussianInteger(re, 1))
    else if tail == " - i" then Some(GaussianInteger(re, -1))
    else if |tail| >= 4 && (tail[..3] == " + " || tail[..3] == " - ") && tail[|tail| - 1] == 'i' then
      match ParseNat(tail[3..|tail| - 1])
      case None => None
      case Some(b) => Some(GaussianInteger(re, if tail[1] == '+' then b else -(b as int)))
    else None
  }

  /** The inside of a parenthesised token: the real part up to the first space, then the
      imaginary part. */
  function ParseParenthesised(t: string): Option<GaussianInteger>
  {
    var k := IndexOf(t, ' ');
    match ParseInt(t[..k])
    case None => None
    case Some(re) => ParseTail(re, t[k..])
  }

  /** Reads a display token back into the element it denotes. */
  function Parse(s: string): Option<GaussianInteger>
  {
    if s == "i" then Some(GaussianInteger(0, 1))
    else if s == "-i" then Some(GaussianInteger(0, -1))
    else if |s| >= 2 && s[0] == '(' && s[|s| - 1] == ')' then ParseParenthesised(s[1..|s| - 1])
    else if |s| >= 1 && s[|s| - 1] == 'i' then
      match ParseInt(s[..|s| - 1])
      case Some(b) => Some(GaussianInteger(0, b))
      case None => None
    else
      match ParseInt(s)
      case Some(r) => Some(GaussianInteger(r, 0))
      case None => None
  }

  /** The first space of "r" + tail, when tail starts with a space, is just after r. */
  lemma IndexAfterNumber(r: int, tail: string)
    requires |tail| > 0 && tail[0] == ' '
    ensures IndexOf(IntToString(r) + tail, ' ') == |IntToString(r)|
    ensures (IntToString(r) + tail)[..|IntToString(r)|] == IntToString(r)
    ensures (IntToString(r) + tail)[|IntToString(r)|..] == tail
  {
    IntRoundTrip(r);
    IndexOfAfter(IntToString(r), tail, ' ');
  }

  /** The first c in s + t, for s without c and t starting with c, is where t starts. */
  lemma {:induction false} IndexOfAfter(s: string, t: string, c: char)
    requires forall k :: 0 <= k < |s| ==> s[k] != c
    requires |t| > 0 && t[0] == c
    ensures IndexOf(s + t, c) == |s|
  {
    if s == [] {
      assert s + t == t;
    } else {
      assert (s + t)[0] == s[0];
      assert (s + t)[1..] == s[1..] + t;
      IndexOfAfter(s[1..], t, c);
    }
  }

  /** The part of a parenthesised token after the real part, for a non-zero imaginary
      part. */
  function Tail(im: int): string
  {
    if im == 1 then " + i"
    else if im == -1 then " - i"
    else " " + (if im > 0 then "+" else "-") + " " + NatToString(Abs(im)) + "i"
  }

  /** Off the axes the token is the real part and the tail in parentheses. */
  lemma ToStringParenthesised(g: GaussianInteger)
    requires g.re != 0 && g.im != 0
    ensures ToString(g) == "(" + (IntToString(g.re) + Tail(g.im)) + ")"
  {
  }

  /** The tail reads back to the imaginary part. */
  lemma TailRoundTrip(re: int, im: int)
    requires im != 0
    ensures ParseTail(re, Tail(im)) == Some(GaussianInteger(re, im))
  {
    if im != 1 && im != -1 {
      var tail := Tail(im);
      var digits := NatToString(Abs(im));
      NatRoundTrip(Abs(im));
      assert tail[3..|tail| - 1] == digits;
      assert tail[..3] == if im > 0 then " + " else " - ";
      assert |tail| == 5 ==> tail[3] != 'i';
    }
  }

  /** The parenthesised forms read back. */
  lemma ParenthesisedRoundTrip(g: GaussianInteger)
    requires g.re != 0 && g.im != 0
    ensures Parse(ToString(g)) == Some(g)
  {
    var inner := IntToString(g.re) + Tail(g.im);
    ToStringParenthesised(g);
    ParseInParentheses(ToString(g), inner);
    InnerRoundTrip(g.re, g.im);
  }

  /** A token in parentheses is read by ParseParenthesised. */
  lemma ParseInParentheses(s: string, inner: string)
    requires s == "(" + inner + ")"
    ensures Parse(s) == ParseParenthesised(inner)
  {
    assert s[0] == '(' && s[|s| - 1] == ')';
    assert s[1..|s| - 1] == inner;
  }

  /** The inside of a parenthesised token reads back to the element. */
  lemma InnerRoundTrip(re: int, im: int)
    requires im != 0
    ensures ParseParenthesised(IntToString(re) + Tail(im)) == Some(GaussianInteger(re, im))
  {
    IntRoundTrip(re);
    IndexAfterNumber(re, Tail(im));
    TailRoundTrip(re, im);
  }

  /** The partner of the printer: every element prints to a token that parses back to it,
      so the printer is injective (distinct factors are never merged by the compression
      that follows it). */
  lemma ParseToString(g: GaussianInteger)
    ensures Parse(ToString(g)) == Some(g)
  {
    var s := ToString(g);
    if g.re == 0 && g.im == 0 {
      assert ParseNat("0") == Some(0);
    } else if g.re == 0 {
      if g.im != 1 && g.im != -1 {
        IntRoundTrip(g.im);
        assert s[..|s| - 1] == IntToString(g.im);
      }
    } else if g.im == 0 {
      IntRoundTrip(g.re);
    } else {
      ParenthesisedRoundTrip(g);
    }
  }

  /** Hence the printer is injective. */
  lemma ToStringInjective(g: GaussianInteger, h: GaussianInteger)
    ensures ToString(g) == ToString(h) <==> g == h
  {
    ParseToString(g);
    ParseToString(h);
  }
}
