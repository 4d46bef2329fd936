/**
 * The regular-expression searches of the in-page extractors over a text:
 * `(\d{1,3}(?:\.\d{1,2})?)\s*%` and `\((\d{1,3}(?:\.\d{1,2})?)\)` with
 * `match` (first hit) and `matchAll` (every hit, each search resuming after
 * the previous one), and the global `(\d{1,3}(?:\.\d{1,2})?)` scan of
 * `findNumericTokens`.
 */
module Matching {
  import opened Wrappers
  import opened Text
  import opened Numeric

  /** The two patterns that end a number: a `\s*%` after it, or `(` ... `)` around it. */
  datatype Pattern = Percent | Paren

  function SpaceRun(s: string, j: nat): (n: nat)
    requires j <= |s|
    ensures j + n <= |s|
    ensures forall k | j <= k < j + n :: IsJsSpace(s[k])
    ensures j + n < |s| ==> !IsJsSpace(s[j + n])
    decreases |s| - j
  {
    if j < |s| && IsJsSpace(s[j]) then 1 + SpaceRun(s, j + 1) else 0
  }

  /** `\s*%` matches at j. */
  predicate PercentFollows(s: string, j: nat)
  {
    j <= |s| && j + SpaceRun(s, j) < |s| && s[j + SpaceRun(s, j)] == '%'
  }

  /** The pattern matches with its whole match starting at i. */
  predicate MatchAt(p: Pattern, s: string, i: nat)
  {
    match p
    case Percent =>
      i < |s| && IsDigit(s[i]) && PercentFollows(s, NumEnd(TokenAt(s, i, i)))
    case Paren =>
      i + 1 < |s| && s[i] == '(' && IsDigit(s[i + 1])
      && NumEnd(TokenAt(s, i + 1, i)) < |s| && s[NumEnd(TokenAt(s, i + 1, i))] == ')'
  }

  function MatchOf(p: Pattern, s: string, i: nat): (m: Match)
    requires MatchAt(p, s, i)
    ensures WellFormed(s, m) && m.at == i
  {
    match p
    case Percent => TokenAt(s, i, i)
    case Paren => TokenAt(s, i + 1, i)
  }

  /** Where the whole match ends: the `lastIndex` a global search resumes from. */
  function MatchEnd(p: Pattern, s: string, i: nat): (e: nat)
    requires MatchAt(p, s, i)
    ensures i < e <= |s|
  {
    var n := NumEnd(MatchOf(p, s, i));
    match p
    case Percent => n + SpaceRun(s, n) + 1
    case Paren => n + 1
  }

  /**
   * The greedy reading is the only one that can match: any number of the
   * shape `\d{1,3}(?:\.\d{1,2})?` at i that is followed by a character that
   * is neither a digit nor '.' is the greedy token. So the backtracking
   * search finds at each start exactly the match MatchAt describes.
   */
  lemma {:induction false} GreedyUnique(s: string, m: Match)
    requires WellFormed(s, m) && NumEnd(m) < |s|
    requires !IsDigit(s[NumEnd(m)]) && s[NumEnd(m)] != '.'
    ensures m == TokenAt(s, m.num, m.at)
  {
    var i := m.num;
    DigitRunIs(s, i, 3, m.ilen);
    var j := i + m.ilen;
    if m.flen > 0 {
      DigitRunIs(s, j + 1, 2, m.flen);
    }
  }

  lemma PercentMatchUnique(s: string, m: Match)
    requires WellFormed(s, m) && m.at == m.num && PercentFollows(s, NumEnd(m))
    ensures MatchAt(Percent, s, m.at) && m == MatchOf(Percent, s, m.at)
  {
    assert !IsJsSpace('%');
    GreedyUnique(s, m);
  }

  lemma ParenMatchUnique(s: string, m: Match)
    requires WellFormed(s, m) && m.num == m.at + 1 && s[m.at] == '('
    requires NumEnd(m) < |s| && s[NumEnd(m)] == ')'
    ensures MatchAt(Paren, s, m.at) && m == MatchOf(Paren, s, m.at)
  {
    GreedyUnique(s, m);
  }

  /** No match starts in [a, b). */
  predicate NoMatchIn(p: Pattern, s: string, a: nat, b: nat)
    decreases b - a
  {
    a >= b || (!MatchAt(p, s, a) && NoMatchIn(p, s, a + 1, b))
  }

  function FirstFrom(p: Pattern, s: string, from: nat): (r: Option<Match>)
    decreases |s| - from
    ensures r.Some? ==> from <= r.value.at && MatchAt(p, s, r.value.at) && r.value == MatchOf(p, s, r.value.at)
    ensures r.Some? ==> NoMatchIn(p, s, from, r.value.at)
    ensures r.None? ==> NoMatchIn(p, s, from, |s|)
  {
    if from >= |s| then None
    else if MatchAt(p, s, from) then Some(MatchOf(p, s, from))
    else FirstFrom(p, s, from + 1)
  }

  /** `text.match(re)` without the global flag. */
  function First(p: Pattern, s: string): Option<Match>
  {
    FirstFrom(p, s, 0)
  }

  /** Each element is a real match at or after `from`. */
  predicate MatchList(p: Pattern, s: string, ms: seq<Match>, from: nat)
  {
    forall k | 0 <= k < |ms| :: from <= ms[k].at && MatchAt(p, s, ms[k].at) && ms[k] == MatchOf(p, s, ms[k].at)
  }

  /** `text.matchAll(re)` from lastIndex `from`. */
  function AllFrom(p: Pattern, s: string, from: nat): (ms: seq<Match>)
    decreases |s| - from
  {
    match FirstFrom(p, s, from)
    case None => []
    case Some(m) => [m] + AllFrom(p, s, MatchEnd(p, s, m.at))
  }

  lemma {:induction false} AllFromMatches(p: Pattern, s: string, from: nat)
    ensures MatchList(p, s, AllFrom(p, s, from), from)
    decreases |s| - from
  {
    var ms := AllFrom(p, s, from);
    match FirstFrom(p, s, from)
    case None =>
    case Some(m) =>
      var rest := AllFrom(p, s, MatchEnd(p, s, m.at));
      AllFromMatches(p, s, MatchEnd(p, s, m.at));
      assert ms == [m] + rest;
      forall k | 0 <= k < |ms|
        ensures from <= ms[k].at && MatchAt(p, s, ms[k].at) && ms[k] == MatchOf(p, s, ms[k].at)
      {
        if k > 0 {
          assert ms[k] == rest[k - 1];
        }
      }
  }

  function All(p: Pattern, s: string): seq<Match>
  {
    AllFrom(p, s, 0)
  }

  /** A global search resumed at `from` finds nothing before `from`. */
  lemma {:induction false} AllFromAfter(p: Pattern, s: string, from: nat)
    ensures forall k | 0 <= k < |AllFrom(p, s, from)| :: from <= AllFrom(p, s, from)[k].at
    decreases |s| - from
  {
    var ms := AllFrom(p, s, from);
    if FirstFrom(p, s, from).Some? {
      var m := FirstFrom(p, s, from).value;
      var e := MatchEnd(p, s, m.at);
      var rest := AllFrom(p, s, e);
      assert ms == [m] + rest;
      AllFromAfter(p, s, e);
      forall k | 0 <= k < |ms|
        ensures from <= ms[k].at
      {
        if k > 0 {
          assert ms[k] == rest[k - 1];
        }
      }
    }
  }

  /** A global search yields its matches in strictly increasing document order. */
  lemma {:induction false} AllFromIncreasing(p: Pattern, s: string, from: nat)
    ensures forall k, k' | 0 <= k < k' < |AllFrom(p, s, from)| :: AllFrom(p, s, from)[k].at < AllFrom(p, s, from)[k'].at
    decreases |s| - from
  {
    var ms := AllFrom(p, s, from);
    if FirstFrom(p, s, from).Some? {
      var m := FirstFrom(p, s, from).value;
      var e := MatchEnd(p, s, m.at);
      var rest := AllFrom(p, s, e);
      assert ms == [m] + rest;
      AllFromIncreasing(p, s, e);
      AllFromAfter(p, s, e);
      forall k, k' | 0 <= k < k' < |ms|
        ensures ms[k].at < ms[k'].at
      {
        assert ms[k'] == rest[k' - 1];
        if k > 0 {
          assert ms[k] == rest[k - 1];
        }
      }
    }
  }

  lemma {:induction false} NoMatchInIff(p: Pattern, s: string, a: nat, b: nat)
    ensures NoMatchIn(p, s, a, b) <==> forall j | a <= j < b :: !MatchAt(p, s, j)
    decreases b - a
  {
    if a < b {
      NoMatchInIff(p, s, a + 1, b);
    }
  }

  /** The tokens of `findNumericTokens`: each the greedy token at a digit at or after `from`. */
  predicate TokenList(s: string, ts: seq<Match>, from: nat)
  {
    forall k | 0 <= k < |ts| :: from <= ts[k].at < |s| && IsDigit(s[ts[k].at]) && ts[k] == TokenAt(s, ts[k].at, ts[k].at)
  }

  function TokensFrom(s: string, from: nat): (ts: seq<Match>)
    decreases |s| - from
    ensures TokenList(s, ts, from)
  {
    if from >= |s| then []
    else if IsDigit(s[from]) then
      var m := TokenAt(s, from, from);
      [m] + TokensFrom(s, NumEnd(m))
    else TokensFrom(s, from + 1)
  }

  function Tokens(s: string): seq<Match>
  {
    TokensFrom(s, 0)
  }

  /** Tokens come in document order and never overlap. */
  lemma {:induction false} TokensOrdered(s: string, from: nat)
    ensures forall k, k' | 0 <= k < k' < |TokensFrom(s, from)| ::
      NumEnd(TokensFrom(s, from)[k]) <= TokensFrom(s, from)[k'].at
    decreases |s| - from
  {
    var ts := TokensFrom(s, from);
    if from < |s| {
      if IsDigit(s[from]) {
        var m := TokenAt(s, from, from);
        var rest := TokensFrom(s, NumEnd(m));
        assert ts == [m] + rest;
        TokensOrdered(s, NumEnd(m));
        forall k, k' | 0 <= k < k' < |ts|
          ensures NumEnd(ts[k]) <= ts[k'].at
        {
          assert ts[k'] == rest[k' - 1];
          if k > 0 {
            assert ts[k] == rest[k - 1];
          }
        }
      } else {
        TokensOrdered(s, from + 1);
      }
    }
  }

  /** Every digit at or after `from` lies inside the span of some token. */
  lemma {:induction false} TokensCover(s: string, from: nat, i: nat) returns (k: nat)
    requires from <= i < |s| && IsDigit(s[i])
    ensures k < |TokensFrom(s, from)| && TokensFrom(s, from)[k].at <= i < NumEnd(TokensFrom(s, from)[k])
    decreases |s| - from
  {
    var ts := TokensFrom(s, from);
    if IsDigit(s[from]) {
      var m := TokenAt(s, from, from);
      var rest := TokensFrom(s, NumEnd(m));
      assert ts == [m] + rest;
      if i >= NumEnd(m) {
        var k' := TokensCover(s, NumEnd(m), i);
        k := k' + 1;
      } else {
        k := 0;
      }
    } else {
      k := TokensCover(s, from + 1, i);
    }
  }

  /** `findNumericTokens(text)`: the `while ((m = re.exec(text)) !== null)` loop. */
  method FindNumericTokens(s: string) returns (out: seq<Match>)
    ensures out == Tokens(s)
    ensures TokenList(s, out, 0)
  {
    out := [];
    var pos := 0;
    while pos < |s|
      invariant pos <= |s|
      invariant out + TokensFrom(s, pos) == Tokens(s)
      decreases |s| - pos
    {
      if IsDigit(s[pos]) {
        var m := TokenAt(s, pos, pos);
        out := out + [m];
        pos := NumEnd(m);
      } else {
        pos := pos + 1;
      }
    }
  }
}
