/**
 * Characters and strings as the scripts see them: decimal digits, white
 * space, ASCII lower-casing, substring search, the Python strip family,
 * joining, and decimal rendering of natural numbers.
 */
module Text {
  import opened Wrappers

  predicate IsDigit(c: char) { '0' <= c <= '9' }

  function DigitValue(c: char): (d: nat)
    requires IsDigit(c)
    ensures d < 10
  {
    (c as int) - ('0' as int)
  }

  function DigitChar(d: nat): (c: char)
    requires d < 10
    ensures IsDigit(c) && DigitValue(c) == d
  {
    (('0' as int) + d) as char
  }

  predicate AllDigits(s: string) { forall k | 0 <= k < |s| :: IsDigit(s[k]) }

  /** Value of a run of decimal digits, most significant digit first. */
  function DigitsValue(s: string): nat
    requires AllDigits(s)
  {
    if s == [] then 0 else 10 * DigitsValue(s[..|s| - 1]) + DigitValue(s[|s| - 1])
  }

  /** Decimal rendering of a natural number without leading zeros. */
  function NatStr(n: nat): (r: string)
    ensures |r| >= 1 && AllDigits(r)
    ensures r[0] == '0' <==> n == 0
    ensures DigitsValue(r) == n
    ensures n < 10 ==> |r| == 1
    ensures n < 100 ==> |r| <= 2
    ensures n < 1000 ==> |r| <= 3
  {
    if n < 10 then [DigitChar(n)]
    else
      var r := NatStr(n / 10) + [DigitChar(n % 10)];
      assert r[..|r| - 1] == NatStr(n / 10);
      r
  }

  /** White space of JavaScript's `\s` class. */
  predicate IsJsSpace(c: char)
  {
    c == ' ' || c == '\t' || c == '\n' || c == '\r' || c == '\U{0B}' || c == '\U{0C}'
    || c == '\U{A0}' || c == '\U{1680}' || ('\U{2000}' <= c <= '\U{200A}')
    || c == '\U{2028}' || c == '\U{2029}' || c == '\U{202F}' || c == '\U{205F}'
    || c == '\U{3000}' || c == '\U{FEFF}'
  }

  /** White space as Python's `str.isspace` and `\s` see it. */
  predicate IsPySpace(c: char)
  {
    c == ' ' || c == '\t' || c == '\n' || c == '\r' || c == '\U{0B}' || c == '\U{0C}'
    || ('\U{1C}' <= c <= '\U{1F}') || c == '\U{85}' || c == '\U{A0}' || c == '\U{1680}'
    || ('\U{2000}' <= c <= '\U{200A}') || c == '\U{2028}' || c == '\U{2029}'
    || c == '\U{202F}' || c == '\U{205F}' || c == '\U{3000}'
  }

  function LowerChar(c: char): char
  {
    if 'A' <= c <= 'Z' then ((c as int) + 32) as char else c
  }

  /** ASCII lower-casing, character by character. */
  function Lower(s: string): (r: string)
    ensures |r| == |s|
  {
    seq(|s|, k requires 0 <= k < |s| => LowerChar(s[k]))
  }

  predicate OccursAt(s: string, sub: string, i: nat)
  {
    i + |sub| <= |s| && s[i..i + |sub|] == sub
  }

  /** The first position at or after `from` where `sub` occurs (JavaScript `indexOf`). */
  function IndexOfFrom(s: string, sub: string, from: nat): (r: Option<nat>)
    decreases |s| - from
    ensures r.Some? ==> from <= r.value && OccursAt(s, sub, r.value)
    ensures r.Some? ==> forall j | from <= j < r.value :: !OccursAt(s, sub, j)
    ensures r.None? ==> forall j | from <= j :: !OccursAt(s, sub, j)
  {
    if from + |sub| > |s| then None
    else if OccursAt(s, sub, from) then Some(from)
    else IndexOfFrom(s, sub, from + 1)
  }

  /** Python's `sub in s`. */
  predicate HasSubstring(s: string, sub: string)
  {
    IndexOfFrom(s, sub, 0).Some?
  }

  lemma HasSubstringIff(s: string, sub: string)
    ensures HasSubstring(s, sub) <==> exists j :: OccursAt(s, sub, j)
  {
    if !HasSubstring(s, sub) {
      forall j ensures !OccursAt(s, sub, j) { }
    }
  }

  predicate StartsWith(s: string, prefix: string)
  {
    |prefix| <= |s| && s[..|prefix|] == prefix
  }

  /** Python `s.rstrip(c)` for a single character. */
  function RStripChar(s: string, c: char): (r: string)
    ensures |r| <= |s| && r == s[..|r|]
    ensures r == [] || r[|r| - 1] != c
    ensures forall k | |r| <= k < |s| :: s[k] == c
  {
    if s != [] && s[|s| - 1] == c then RStripChar(s[..|s| - 1], c) else s
  }

  /** Python `s.lstrip(c)` for a single character. */
  function LStripChar(s: string, c: char): (r: string)
    ensures |r| <= |s| && r == s[|s| - |r|..]
    ensures r == [] || r[0] != c
    ensures forall k | 0 <= k < |s| - |r| :: s[k] == c
  {
    if s != [] && s[0] == c then LStripChar(s[1..], c) else s
  }

  function LStripSpace(s: string): (r: string)
    ensures |r| <= |s|
    ensures r == [] || !IsPySpace(r[0])
    ensures forall k | 0 <= k < |s| - |r| :: IsPySpace(s[k])
  {
    if s != [] && IsPySpace(s[0]) then LStripSpace(s[1..]) else s
  }

  function RStripSpace(s: string): (r: string)
    ensures |r| <= |s|
    ensures r == [] || !IsPySpace(r[|r| - 1])
    ensures forall k | |r| <= k < |s| :: IsPySpace(s[k])
  {
    if s != [] && IsPySpace(s[|s| - 1]) then RStripSpace(s[..|s| - 1]) else s
  }

  /** What `lstrip` and `rstrip` keep is the rest of the text (kept apart from their contracts, which stay cheap). */
  lemma {:induction false} StripSpaceSlices(s: string)
    ensures LStripSpace(s) == s[|s| - |LStripSpace(s)|..]
    ensures RStripSpace(s) == s[..|RStripSpace(s)|]
  {
    if s != [] && IsPySpace(s[0]) {
      StripSpaceSlices(s[1..]);
    }
    if s != [] && IsPySpace(s[|s| - 1]) {
      StripSpaceSlices(s[..|s| - 1]);
    }
  }

  /** Python `s.strip()`: white space removed at both ends. */
  function Strip(s: string): string
  {
    RStripSpace(LStripSpace(s))
  }

  /** Python `sep.join(parts)`. */
  function Join(parts: seq<string>, sep: string): string
  {
    if parts == [] then ""
    else if |parts| == 1 then parts[0]
    else parts[0] + sep + Join(parts[1..], sep)
  }

  /** The parts one after another (a string built by repeated `+=`). */
  function Concat(parts: seq<string>): string
  {
    if parts == [] then "" else Concat(parts[..|parts| - 1]) + parts[|parts| - 1]
  }

  lemma AppendAssoc(a: string, b: string, c: string)
    ensures (a + b) + c == a + (b + c)
  {
  }

  lemma AppendEmpty(a: string)
    ensures a + "" == a
  {
  }

  predicate EndsWith(s: string, suffix: string)
  {
    |suffix| <= |s| && s[|s| - |suffix|..] == suffix
  }

  /** Appending keeps a prefix. */
  lemma PrefixExtends(p: string, a: string, b: string)
    requires StartsWith(a, p)
    ensures StartsWith(a + b, p)
  {
    assert (a + b)[..|p|] == a[..|p|];
  }

  /** Prepending keeps a suffix. */
  lemma SuffixExtends(x: string, a: string, q: string)
    requires EndsWith(a, q)
    ensures EndsWith(x + a, q)
  {
    assert (x + a)[|x + a| - |q|..] == a[|a| - |q|..];
  }

  /** What occurs in the second of four parts occurs in the whole, shifted by the first. */
  lemma SecondOccurs(whole: string, a: string, b: string, c: string, d: string, o: nat, t: string)
    requires whole == a + b + c + d && OccursAt(b, t, o)
    ensures OccursAt(whole, t, |a| + o)
  {
    assert whole[|a| + o..|a| + o + |t|] == b[o..o + |t|];
  }

  /** One more part appended. */
  lemma ConcatSnoc(parts: seq<string>, k: nat)
    requires k < |parts|
    ensures Concat(parts[..k + 1]) == Concat(parts[..k]) + parts[k]
  {
    assert parts[..k + 1][..k] == parts[..k];
  }

  /** Each part of the concatenation in the second of four pieces occurs in the whole, after the first piece. */
  lemma PartOccurs(whole: string, a: string, parts: seq<string>, c: string, d: string, k: nat) returns (off: nat)
    requires k < |parts| && whole == a + Concat(parts) + c + d
    ensures |a| <= off && OccursAt(whole, parts[k], off)
  {
    var at := ConcatContains(parts, k);
    SecondOccurs(whole, a, Concat(parts), c, d, at, parts[k]);
    off := |a| + at;
  }

  /** Every part occurs in the concatenation. */
  lemma {:induction false} ConcatContains(parts: seq<string>, k: nat) returns (off: nat)
    requires k < |parts|
    ensures OccursAt(Concat(parts), parts[k], off)
  {
    var n := |parts| - 1;
    var init := Concat(parts[..n]);
    var b := parts[n];
    if k == n {
      off := |init|;
      assert (init + b)[off..off + |b|] == b;
    } else {
      assert parts[..n][k] == parts[k];
      off := ConcatContains(parts[..n], k);
      assert (init + b)[off..off + |parts[k]|] == init[off..off + |parts[k]|];
    }
  }

  /** Stripping trailing c's from u + t, where t is all c's and u does not end in c, gives u. */
  lemma {:induction false} RStripExact(u: string, t: string, c: char)
    requires forall k | 0 <= k < |t| :: t[k] == c
    requires u == [] || u[|u| - 1] != c
    ensures RStripChar(u + t, c) == u
  {
    if t == [] {
      assert u + t == u;
    } else {
      var t' := t[..|t| - 1];
      assert (u + t)[..|u + t| - 1] == u + t';
      RStripExact(u, t', c);
    }
  }

  /** A variable counts when it is set and non-empty. */
  predicate Present(env: map<string, string>, name: string)
  {
    name in env && env[name] != ""
  }

  /** Python's `all(...)` over the variables' values, a missing variable reading as empty. */
  predicate AllSet(env: map<string, string>, names: seq<string>)
  {
    names == [] || (Present(env, names[0]) && AllSet(env, names[1..]))
  }

  lemma {:induction false} AllSetIff(env: map<string, string>, names: seq<string>)
    ensures AllSet(env, names) <==> forall k | 0 <= k < |names| :: names[k] in env && env[names[k]] != ""
  {
    if names != [] {
      AllSetIff(env, names[1..]);
      assert forall k | 1 <= k < |names| :: names[k] == names[1..][k - 1];
    }
  }

  /** The leftmost digit: where `re.search` of a pattern starting with `\d` and able to end right after the number begins. */
  function FirstDigitFrom(s: string, i: nat): (r: Option<nat>)
    decreases |s| - i
    ensures r.Some? ==> i <= r.value < |s| && IsDigit(s[r.value]) && forall j | i <= j < r.value :: !IsDigit(s[j])
    ensures r.None? ==> forall j | i <= j < |s| :: !IsDigit(s[j])
  {
    if i >= |s| then None else if IsDigit(s[i]) then Some(i) else FirstDigitFrom(s, i + 1)
  }
}
