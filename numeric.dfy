/**
 * Numeric tokens of the in-page extractors: the greedy reading of
 * `\d{1,3}(?:\.\d{1,2})?` at a position, its exact value in hundredths,
 * the canonical decimal that JavaScript's `String(Number(tok))` prints, the
 * `/\.?0+$/` zero stripper, and the six-character date-context window.
 */
module Numeric {
  import opened Wrappers
  import opened Text

  /** Number of consecutive digits at s[i..], at most cap of them. */
  function DigitRun(s: string, i: nat, cap: nat): (n: nat)
    requires i <= |s|
    ensures n <= cap && i + n <= |s|
    ensures forall k | i <= k < i + n :: IsDigit(s[k])
    ensures n < cap && i + n < |s| ==> !IsDigit(s[i + n])
    decreases cap
  {
    if cap == 0 || i == |s| || !IsDigit(s[i]) then 0 else 1 + DigitRun(s, i + 1, cap - 1)
  }

  lemma {:induction false} DigitRunIs(s: string, i: nat, cap: nat, n: nat)
    requires i + n <= |s| && n <= cap
    requires forall k | i <= k < i + n :: IsDigit(s[k])
    requires n == cap || i + n == |s| || !IsDigit(s[i + n])
    ensures DigitRun(s, i, cap) == n
    decreases n
  {
    if n > 0 {
      DigitRunIs(s, i + 1, cap - 1, n - 1);
    }
  }

  /**
   * A numeric match in a text. `at` is where the whole match starts (the
   * `(` of a parenthesised number), `num` where the number starts; the
   * number has `ilen` integer digits and `flen` fraction digits after a '.'.
   */
  datatype Match = Match(at: nat, num: nat, ilen: nat, flen: nat)

  function NumLen(m: Match): nat { m.ilen + (if m.flen > 0 then m.flen + 1 else 0) }

  function NumEnd(m: Match): nat { m.num + NumLen(m) }

  /** m.num..NumEnd(m) reads as `\d{1,3}(?:\.\d{1,2})?`. */
  predicate WellFormed(s: string, m: Match)
  {
    1 <= m.ilen <= 3 && m.flen <= 2 && NumEnd(m) <= |s|
    && (forall k | m.num <= k < m.num + m.ilen :: IsDigit(s[k]))
    && (m.flen > 0 ==> s[m.num + m.ilen] == '.')
    && (forall k | m.num + m.ilen + 1 <= k < NumEnd(m) :: IsDigit(s[k]))
  }

  /** The greedy reading of `\d{1,3}(?:\.\d{1,2})?` at the digit s[i]. */
  function TokenAt(s: string, i: nat, at: nat): (m: Match)
    requires i < |s| && IsDigit(s[i])
    ensures m.num == i && m.at == at && WellFormed(s, m)
  {
    var d := DigitRun(s, i, 3);
    var j := i + d;
    if j + 1 < |s| && s[j] == '.' && IsDigit(s[j + 1]) then Match(at, i, d, DigitRun(s, j + 1, 2))
    else Match(at, i, d, 0)
  }

  /** The matched number as text (the regex group). */
  function NumberText(s: string, m: Match): string
    requires WellFormed(s, m)
  {
    s[m.num..NumEnd(m)]
  }

  /** `Number(tok)`, exactly, in hundredths. */
  function Hundredths(s: string, m: Match): nat
    requires WellFormed(s, m)
  {
    var f := m.num + m.ilen + 1;
    assert AllDigits(s[m.num..m.num + m.ilen]);
    DigitsValue(s[m.num..m.num + m.ilen]) * 100
    + (if m.flen == 0 then 0
       else if m.flen == 1 then 10 * DigitValue(s[f])
       else 10 * DigitValue(s[f]) + DigitValue(s[f + 1]))
  }

  /** `numericOk(Number(tok))`: the value lies in [0, 100]. */
  predicate InRange(s: string, m: Match)
    requires WellFormed(s, m)
  {
    Hundredths(s, m) <= 10000
  }

  /** `String(n)` for a value with at most two decimals: no leading zeros, no trailing fraction zeros. */
  function Canonical(h: nat): string
  {
    NatStr(h / 100)
    + (if h % 100 == 0 then ""
       else if h % 10 == 0 then ['.', DigitChar(h % 100 / 10)]
       else ['.', DigitChar(h % 100 / 10), DigitChar(h % 10)])
  }

  /** Reading back the integer digits of a canonical text. */
  lemma {:induction false} CanonicalIntPart(h: nat)
    requires h < 100000
    ensures var r := Canonical(h); var n := |NatStr(h / 100)|;
      n <= 3 && n <= |r| && r[..n] == NatStr(h / 100) && DigitRun(r, 0, 3) == n
  {
    var r := Canonical(h);
    var q := NatStr(h / 100);
    var n := |q|;
    assert r[..n] == q;
    assert n < |r| ==> r[n] == '.';
    DigitRunIs(r, 0, 3, n);
  }

  /**
   * The tokenizer reads a canonical text back as exactly one token of the
   * same value, so `String(Number(tok))` and Hundredths are inverse.
   */
  lemma {:induction false} CanonicalRoundTrip(h: nat)
    requires h < 100000
    ensures IsDigit(Canonical(h)[0])
    ensures NumEnd(TokenAt(Canonical(h), 0, 0)) == |Canonical(h)|
    ensures Hundredths(Canonical(h), TokenAt(Canonical(h), 0, 0)) == h
  {
    var r := Canonical(h);
    var q := NatStr(h / 100);
    var n := |q|;
    CanonicalIntPart(h);
    var m := TokenAt(r, 0, 0);
    assert r[m.num..m.num + m.ilen] == q;
    if h % 100 == 0 {
      assert m.flen == 0;
    } else if h % 10 == 0 {
      assert r == q + ['.', DigitChar(h % 100 / 10)];
      DigitRunIs(r, n + 1, 2, 1);
    } else {
      assert r == q + ['.', DigitChar(h % 100 / 10), DigitChar(h % 10)];
      DigitRunIs(r, n + 1, 2, 2);
    }
  }

  /** `^\d{1,3}(\.\d{1,2})?$` with no leading zero and no trailing fraction zero. */
  lemma CanonicalShape(h: nat)
    requires h < 100000
    ensures var r := Canonical(h); var m := TokenAt(r, 0, 0);
      && (m.ilen > 1 ==> r[0] != '0')
      && (m.flen > 0 ==> r[|r| - 1] != '0')
      && r[|r| - 1] != '.'
  {
    CanonicalIntPart(h);
    CanonicalRoundTrip(h);
  }

  /** Number of '0' characters that end s. */
  function TrailingZeros(s: string): (z: nat)
    ensures z <= |s|
    ensures forall k | |s| - z <= k < |s| :: s[k] == '0'
    ensures z < |s| ==> s[|s| - z - 1] != '0'
  {
    if s != [] && s[|s| - 1] == '0' then 1 + TrailingZeros(s[..|s| - 1]) else 0
  }

  /** `s.replace(/\.?0+$/, '')`: the run of trailing zeros goes, and one '.' before it. */
  function StripZeros(s: string): string
  {
    var z := TrailingZeros(s);
    if z == 0 then s
    else if z < |s| && s[|s| - z - 1] == '.' then s[..|s| - z - 1]
    else s[..|s| - z]
  }

  /** `/\.?0+$/` matches s from position p on. */
  predicate ZeroTail(s: string, p: nat)
  {
    p < |s|
    && ((forall k | p <= k < |s| :: s[k] == '0')
        || (s[p] == '.' && p + 1 < |s| && forall k | p + 1 <= k < |s| :: s[k] == '0'))
  }

  /**
   * StripZeros removes exactly the leftmost match of `/\.?0+$/`: what it keeps
   * is a prefix, it cuts where a match starts, and no match starts earlier.
   */
  lemma StripZerosLeftmost(s: string)
    ensures StripZeros(s) == s[..|StripZeros(s)|]
    ensures StripZeros(s) == s <==> (forall p: nat :: !ZeroTail(s, p))
    ensures StripZeros(s) != s ==> ZeroTail(s, |StripZeros(s)|)
    ensures forall p: nat | ZeroTail(s, p) :: |StripZeros(s)| <= p
  {
    var z := TrailingZeros(s);
    forall p: nat | ZeroTail(s, p) ensures |StripZeros(s)| <= p && z > 0 {
      assert s[|s| - 1] == '0';
      if p + 1 == |s| - z {
        assert s[p] == '.';
      }
    }
    if z > 0 {
      assert ZeroTail(s, |StripZeros(s)|);
    }
  }

  /** A prefix of the input, unchanged when the input does not end in '0'. */
  lemma StripZerosPrefix(s: string)
    ensures |StripZeros(s)| <= |s| && StripZeros(s) == s[..|StripZeros(s)|]
    ensures s == [] || s[|s| - 1] != '0' ==> StripZeros(s) == s
  {
  }

  /** JavaScript `s.slice(a, b)` for non-negative a and b. */
  function Slice(s: string, a: nat, b: nat): (r: string)
    ensures a < b && a < |s| ==> |r| == (if b < |s| then b else |s|) - a
    ensures !(a < b && a < |s|) ==> r == ""
    ensures forall k | 0 <= k < |r| :: a + k < |s| && r[k] == s[a + k]
  {
    var a' := if a < |s| then a else |s|;
    var b' := if b < |s| then b else |s|;
    if a' >= b' then "" else s[a'..b']
  }

  predicate IsDateChar(c: char) { c == '-' || c == '/' }

  /** `t.includes('-') || t.includes('/')`. */
  predicate HasDateChar(t: string)
  {
    t != [] && (IsDateChar(t[0]) || HasDateChar(t[1..]))
  }

  lemma {:induction false} HasDateCharIff(t: string)
    ensures HasDateChar(t) <==> ('-' in t || '/' in t)
    ensures HasDateChar(t) <==> exists k :: 0 <= k < |t| && IsDateChar(t[k])
  {
    if t != [] {
      HasDateCharIff(t[1..]);
      assert t == [t[0]] + t[1..];
      if HasDateChar(t[1..]) {
        var k :| 0 <= k < |t[1..]| && IsDateChar(t[1..][k]);
        assert IsDateChar(t[k + 1]);
      }
      if exists k :: 0 <= k < |t| && IsDateChar(t[k]) {
        var k :| 0 <= k < |t| && IsDateChar(t[k]);
        if k > 0 {
          assert IsDateChar(t[1..][k - 1]);
        }
      }
    }
  }

  /** `isDateContext(text, idx, len)`. */
  predicate IsDateContext(s: string, idx: nat, len: nat)
  {
    HasDateChar(Slice(s, if idx >= 6 then idx - 6 else 0, idx))
    || HasDateChar(Slice(s, idx + len, idx + len + 6))
  }

  /** The two windows: up to six characters before idx, six after idx + len. */
  predicate InDateWindow(idx: nat, len: nat, p: nat)
  {
    (idx - 6 <= p < idx) || (idx + len <= p < idx + len + 6)
  }

  /** A window of the text holds a date character exactly when some position in it does. */
  lemma SliceHasDateChar(s: string, a: nat, b: nat)
    ensures HasDateChar(Slice(s, a, b)) <==> exists p :: a <= p < b && p < |s| && IsDateChar(s[p])
  {
    var w := Slice(s, a, b);
    HasDateCharIff(w);
    if HasDateChar(w) {
      var k :| 0 <= k < |w| && IsDateChar(w[k]);
      assert a <= a + k < b && a + k < |s| && IsDateChar(s[a + k]);
    }
    if exists p :: a <= p < b && p < |s| && IsDateChar(s[p]) {
      var p :| a <= p < b && p < |s| && IsDateChar(s[p]);
      assert IsDateChar(w[p - a]);
    }
  }

  /** The date test looks exactly at the six characters before idx (fewer at the start) and the six after idx + len. */
  lemma DateContextIff(s: string, idx: nat, len: nat)
    ensures IsDateContext(s, idx, len)
        <==> exists p :: 0 <= p < |s| && InDateWindow(idx, len, p) && IsDateChar(s[p])
  {
    var lo := if idx >= 6 then idx - 6 else 0;
    SliceHasDateChar(s, lo, idx);
    SliceHasDateChar(s, idx + len, idx + len + 6);
  }

  /** The zero stripper turns the integer `80` into `8`; the correct rendering of 80 is `80`. */
  lemma StripZerosEighty()
    ensures StripZeros("80") == "8"
    ensures Canonical(8000) == "80"
  {
    assert "80"[..1] == "8";
    assert TrailingZeros("8") == 0;
    assert TrailingZeros("80") == 1;
    assert NatStr(8) == "8";
    assert NatStr(80) == NatStr(8) + [DigitChar(0)];
  }

  /** The zero stripper turns the text `0` into nothing; the correct rendering of 0 is `0`. */
  lemma StripZerosZero()
    ensures StripZeros("0") == ""
    ensures Canonical(0) == "0"
  {
    assert TrailingZeros("0") == 1;
    assert NatStr(0) == "0";
  }

  /** The text `0` reads as 0.00. */
  lemma ZeroValue(s: string, m: Match)
    requires |s| >= 1 && s[0] == '0' && m == Match(m.at, 0, 1, 0)
    ensures WellFormed(s, m) && Hundredths(s, m) == 0 && NumberText(s, m) == "0"
  {
    assert s[0..1] == "0";
    assert "0"[..0] == "";
  }

  /** The text `80` reads as 80.00. */
  lemma EightyValue(s: string, m: Match)
    requires |s| >= 2 && s[0] == '8' && s[1] == '0' && m == Match(m.at, 0, 2, 0)
    ensures WellFormed(s, m) && Hundredths(s, m) == 8000 && NumberText(s, m) == "80"
  {
    assert s[0..2] == "80";
    assert "80"[..1] == "8";
    assert "8"[..0] == "";
  }
}
