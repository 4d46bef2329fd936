/**
 * Python's `int()` and `float()` applied to scraped cell text, read as
 * exact numbers: surrounding white space, an optional sign, and decimal
 * digits with at most one '.'.
 */
module PyNumbers {
  import opened Wrappers
  import opened Text

  function Pow10(n: nat): (r: nat)
    ensures r >= 1
  {
    if n == 0 then 1 else 10 * Pow10(n - 1)
  }

  /** `str(i)`. */
  function IntStr(i: int): (r: string)
    ensures r != [] && (r[0] == '-' <==> i < 0)
  {
    if i < 0 then "-" + NatStr(-i) else NatStr(i)
  }

  /** An optional sign, then the rest. */
  function SplitSign(t: string): (bool, string)
  {
    if t != [] && (t[0] == '+' || t[0] == '-') then (t[0] == '-', t[1..]) else (false, t)
  }

  /** `int(s)`: None where Python raises ValueError. */
  function ParseInt(s: string): Option<int>
  {
    var (neg, body) := SplitSign(Strip(s));
    if body != [] && AllDigits(body) then Some(Signed(neg, DigitsValue(body))) else None
  }

  function Signed(neg: bool, n: nat): int
  {
    if neg then -(n as int) else n
  }

  /** Text with no white space at either end is left as it is by `strip`. */
  lemma StripPlain(s: string)
    requires s != [] && !IsPySpace(s[0]) && !IsPySpace(s[|s| - 1])
    ensures Strip(s) == s
  {
  }

  /** `int` reads back what `str` writes. */
  lemma ParseIntRoundTrip(i: int)
    ensures ParseInt(IntStr(i)) == Some(i)
  {
    var r := IntStr(i);
    var q := NatStr(if i < 0 then -i else i);
    assert r[|r| - 1] == q[|q| - 1];
    assert IsDigit(q[|q| - 1]);
    StripPlain(r);
    assert SplitSign(r).1 == q;
  }

  /** An exact decimal: (-1 if neg) * num / 10^scale. */
  datatype Decimal = Decimal(neg: bool, num: nat, scale: nat)

  /** The decimal is at least the integer n. */
  predicate AtLeast(d: Decimal, n: int)
  {
    Signed(d.neg, d.num) >= n * Pow10(d.scale)
  }

  /** `float(s)` for plain decimal text; None where the reading fails. */
  function ParseFloat(s: string): (r: Option<Decimal>)
  {
    var (neg, body) := SplitSign(Strip(s));
    match CharIndex(body, '.')
      case None =>
        if body != [] && AllDigits(body) then Some(Decimal(neg, DigitsValue(body), 0)) else None
      case Some(p) =>
        var a := body[..p];
        var b := body[p + 1..];
        if |a| + |b| >= 1 && AllDigits(a) && AllDigits(b) then Some(Decimal(neg, DigitsValue(a + b), |b|))
        else None
  }

  /** Where the character c first occurs (`s.find(c)`), read character by character. */
  function CharIndex(s: string, c: char): (r: Option<nat>)
    ensures r.Some? ==> r.value < |s| && s[r.value] == c && forall j | 0 <= j < r.value :: s[j] != c
    ensures r.None? ==> forall j | 0 <= j < |s| :: s[j] != c
  {
    if s == [] then None
    else if s[0] == c then Some(0)
    else match CharIndex(s[1..], c)
      case None => None
      case Some(i) => Some(i + 1)
  }

  /** Text that is a run of digits reads as that whole number. */
  lemma ParseFloatDigits(s: string)
    requires s != [] && AllDigits(s)
    ensures ParseFloat(s) == Some(Decimal(false, DigitsValue(s), 0))
  {
    assert IsDigit(s[0]) && IsDigit(s[|s| - 1]);
    assert Strip(s) == s;
    assert SplitSign(s) == (false, s);
    assert !OccursAt(s, ".", 0);
    assert forall j | 0 <= j :: !OccursAt(s, ".", j) by {
      forall j | 0 <= j ensures !OccursAt(s, ".", j) {
        if j + 1 <= |s| {
          assert s[j..j + 1][0] == s[j];
        }
      }
    }
  }

  /** Digits, a point and digits read as the digits' value scaled by the count after the point. */
  lemma ParseFloatPoint(a: string, b: string)
    requires AllDigits(a) && AllDigits(b) && |a| + |b| >= 1
    ensures ParseFloat(a + "." + b) == Some(Decimal(false, DigitsValue(a + b), |b|))
  {
    var s := a + "." + b;
    assert s[|a|] == '.';
    assert !IsPySpace(s[0]) && !IsPySpace(s[|s| - 1]);
    StripPlain(s);
    assert SplitSign(s) == (false, s);
    assert forall j | 0 <= j < |a| :: s[j] == a[j];
    assert CharIndex(s, '.') == Some(|a|);
    assert s[..|a|] == a && s[|a| + 1..] == b;
  }

  /** Two more digits multiply the value by a hundred and add theirs. */
  lemma TwoDigitsMore(a: string, d1: nat, d2: nat)
    requires AllDigits(a) && d1 < 10 && d2 < 10
    ensures var s := a + [DigitChar(d1), DigitChar(d2)];
      AllDigits(s) && DigitsValue(s) == 100 * DigitsValue(a) + 10 * d1 + d2
  {
    var s := a + [DigitChar(d1), DigitChar(d2)];
    assert s[..|s| - 1] == a + [DigitChar(d1)];
    assert (a + [DigitChar(d1)])[..|a|] == a;
  }

  lemma Hundreds(h: nat)
    ensures 100 * (h / 100) + 10 * (h % 100 / 10) + h % 10 == h
  {
    assert h % 100 == 10 * (h % 100 / 10) + h % 100 % 10;
    assert h % 100 % 10 == h % 10;
  }

  /** `f"{h / 100:.2f}"`: the whole part, a point and two fraction digits. */
  function Fixed2(h: nat): (r: string)
    ensures |r| == |NatStr(h / 100)| + 3 && r[|r| - 3] == '.'
  {
    NatStr(h / 100) + ['.', DigitChar(h % 100 / 10), DigitChar(h % 10)]
  }

  /** The digits of the `.2f` text, without the point, are the digits of h hundredths. */
  lemma Fixed2Digits(h: nat)
    ensures var b := [DigitChar(h % 100 / 10), DigitChar(h % 10)];
      AllDigits(NatStr(h / 100) + b) && DigitsValue(NatStr(h / 100) + b) == h
  {
    TwoDigitsMore(NatStr(h / 100), h % 100 / 10, h % 10);
    Hundreds(h);
  }

  /** `float()` reads the `.2f` text back as exactly h hundredths. */
  lemma Fixed2ReadsBack(h: nat)
    ensures ParseFloat(Fixed2(h)) == Some(Decimal(false, h, 2))
  {
    var a := NatStr(h / 100);
    var b := [DigitChar(h % 100 / 10), DigitChar(h % 10)];
    assert Fixed2(h) == a + "." + b;
    ParseFloatPoint(a, b);
    Fixed2Digits(h);
  }
}
