/**
 * The DOM-aware extractor that `playwright_attendance.js` runs in the page.
 * The containers around every element whose text holds the word
 * "Attendance" arrive as their texts, in visit order; `page` is the body text.
 * Tiers: the cascade per container, then parenthesised numbers anywhere in
 * document order, then percentages anywhere (nearest the anchor, or the
 * largest), else not found.
 */
module DomExtractor {
  import opened Wrappers
  import opened Text
  import opened Numeric
  import opened Matching
  import opened Nearest
  import opened Engine

  const ContainerTags := Tags(PercentInContainer, ParenInContainer, TokenInContainer)

  /** `numericOk(n)`, with `None` for NaN and the number in hundredths. */
  predicate NumericOk(n: Option<int>)
  {
    n.Some? && 0 <= n.value <= 10000
  }

  /** Parenthesised numbers anywhere: the first in document order that is accepted. */
  function ParenAnywhereTier(page: string): Option<Hit>
  {
    var ms := All(Paren, page);
    AllMatchesWellFormed(Paren, page);
    match FirstAccepted(page, ms)
    case Some(k) => Some(ValueHit(page, ms[k], ParenAnywhere))
    case None => None
  }

  /** The first tier that succeeds, in the code's order. */
  function Chosen(containers: seq<string>, page: string): Option<Hit>
  {
    Or(ContainerScan(containers, ContainerTags),
    Or(ParenAnywhereTier(page), PctTier(page, PctAnywhereNearAtt, PctAnywhereLargest)))
  }

  function Extract(containers: seq<string>, page: string, rendering: Rendering): Outcome
  {
    Conclude(Chosen(containers, page), page, rendering)
  }

  /** The `page.evaluate` body: the loops with their early returns. */
  method Run(containers: seq<string>, page: string, rendering: Rendering) returns (r: Outcome)
    ensures r == Extract(containers, page, rendering)
  {
    var hit := ScanContainers(containers, ContainerTags);
    if hit.Some? {
      return Conclude(hit, page, rendering);
    }
    var parenAll := All(Paren, page);
    AllMatchesWellFormed(Paren, page);
    var k := FirstAcceptedLoop(page, parenAll);
    if k.Some? {
      return Conclude(Some(ValueHit(page, parenAll[k.value], ParenAnywhere)), page, rendering);
    }
    return Conclude(PctTier(page, PctAnywhereNearAtt, PctAnywhereLargest), page, rendering);
  }

  /** `numericOk` is the range test every tier applies. */
  lemma NumericOkIsInRange(s: string, m: Match)
    requires WellFormed(s, m)
    ensures NumericOk(Some(Hundredths(s, m))) <==> InRange(s, m)
  {
  }

  /**
   * A found value ends in `%`, carries one of this extractor's six tags and a
   * value between 0 and 100; with the intended rendering the text before `%`
   * is that number. Not found carries the page's first 2000 characters.
   */
  lemma ExtractShape(containers: seq<string>, page: string, rendering: Rendering)
    ensures var r := Extract(containers, page, rendering);
      r.Found? ==> r.via in {PercentInContainer, ParenInContainer, TokenInContainer,
                             ParenAnywhere, PctAnywhereNearAtt, PctAnywhereLargest}
                   && |r.value| >= 1 && r.value[|r.value| - 1] == '%'
    ensures var r := Extract(containers, page, rendering);
      r.Found? && rendering == Intended ==>
        var t := r.value[..|r.value| - 1];
        IsDigit(t[0]) && NumEnd(TokenAt(t, 0, 0)) == |t| && InRange(t, TokenAt(t, 0, 0))
    ensures var r := Extract(containers, page, rendering);
      r.NotFound? ==> |r.snippet| == (if |page| < 2000 then |page| else 2000) && r.snippet == page[..|r.snippet|]
  {
    var hit := Chosen(containers, page);
    assert Sensibly(hit) && (hit.Some? ==> hit.value.via in {PercentInContainer, ParenInContainer, TokenInContainer,
                             ParenAnywhere, PctAnywhereNearAtt, PctAnywhereLargest}) by {
      ContainerScanSensible(containers, ContainerTags);
      ContainerScanTags(containers, ContainerTags);
      PctTierSensible(page, PctAnywhereNearAtt, PctAnywhereLargest);
    }
    ConcludeFound(hit, page, rendering);
  }

  /**
   * Parenthesised numbers anywhere: the result is the first one in document
   * order that is at most 100 and not in date context, the date test taken
   * at the index of `(` with the length of the number.
   */
  lemma ParenAnywhereFirst(page: string) returns (k: nat)
    requires ParenAnywhereTier(page).Some?
    ensures AllWellFormed(page, All(Paren, page))
    ensures k < |All(Paren, page)|
    ensures var m := All(Paren, page)[k];
      m.at < |page| && page[m.at] == '(' && m.num == m.at + 1
      && !IsDateContext(page, m.at, NumLen(m)) && InRange(page, m)
      && ParenAnywhereTier(page).value == ValueHit(page, m, ParenAnywhere)
    ensures forall j | 0 <= j < k :: !Accepted(page, All(Paren, page)[j])
  {
    var ms := All(Paren, page);
    AllFromMatches(Paren, page, 0);
    AllMatchesWellFormed(Paren, page);
    k := FirstAccepted(page, ms).value;
    assert MatchAt(Paren, page, ms[k].at);
  }

  /** A container whose cascade succeeds decides the result; the page-wide tiers are not consulted. */
  lemma ContainersFirst(containers: seq<string>, page: string, rendering: Rendering, i: nat)
    requires i < |containers| && Cascade(containers[i], ContainerTags).Some?
    requires forall j | 0 <= j < i :: Cascade(containers[j], ContainerTags).None?
    ensures Extract(containers, page, rendering)
         == Conclude(Cascade(containers[i], ContainerTags), page, rendering)
  {
    ContainerScanFirst(containers, ContainerTags, i);
  }

  /** A text that starts with `80%` has the number 80 at 0 as its leftmost percent match. */
  lemma FirstPercentOfEighty(c: string)
    requires |c| >= 3 && c[0] == '8' && c[1] == '0' && c[2] == '%'
    ensures First(Percent, c) == Some(Match(0, 0, 2, 0))
  {
    assert IsDigit(c[0]) && IsDigit(c[1]) && !IsDigit(c[2]);
    DigitRunIs(c, 0, 3, 2);
    assert TokenAt(c, 0, 0) == Match(0, 0, 2, 0);
    assert SpaceRun(c, 2) == 0;
  }

  lemma CascadeOfEighty(c: string)
    requires |c| >= 3 && c[0] == '8' && c[1] == '0' && c[2] == '%'
    ensures Cascade(c, ContainerTags) == Some(Hit(8000, Some("80"), PercentInContainer))
  {
    FirstPercentOfEighty(c);
    EightyValue(c, Match(0, 0, 2, 0));
  }

  /**
   * When the first container's text starts with `80%`, the extractor reports
   * `8%`, whatever else the containers and the page hold: the zero stripper
   * eats the integer zero. The intended rendering is `80%`.
   */
  lemma EightyReadsAsEight(containers: seq<string>, page: string)
    requires |containers| >= 1
    requires var c := containers[0]; |c| >= 3 && c[0] == '8' && c[1] == '0' && c[2] == '%'
    ensures Extract(containers, page, AsWritten) == Found("8%", PercentInContainer)
    ensures Extract(containers, page, Intended) == Found("80%", PercentInContainer)
  {
    var hit := Some(Hit(8000, Some("80"), PercentInContainer));
    CascadeOfEighty(containers[0]);
    ContainersFirst(containers, page, AsWritten, 0);
    ContainersFirst(containers, page, Intended, 0);
    StripZerosEighty();
    assert "8" + "%" == "8%";
    assert "80" + "%" == "80%";
  }

  /** A text that starts with `0%` has the number 0 at 0 as its leftmost percent match. */
  lemma FirstPercentOfZero(c: string)
    requires |c| >= 2 && c[0] == '0' && c[1] == '%'
    ensures First(Percent, c) == Some(Match(0, 0, 1, 0))
  {
    assert IsDigit(c[0]) && !IsDigit(c[1]);
    DigitRunIs(c, 0, 3, 1);
    assert TokenAt(c, 0, 0) == Match(0, 0, 1, 0);
    assert SpaceRun(c, 1) == 0;
  }

  /**
   * When the first container's text starts with `0%`, the extractor reports
   * a bare `%`: the zero stripper eats the whole number. The intended
   * rendering is `0%`.
   */
  lemma ZeroReadsAsBare(containers: seq<string>, page: string)
    requires |containers| >= 1
    requires var c := containers[0]; |c| >= 2 && c[0] == '0' && c[1] == '%'
    ensures Extract(containers, page, AsWritten) == Found("%", PercentInContainer)
    ensures Extract(containers, page, Intended) == Found("0%", PercentInContainer)
  {
    FirstPercentOfZero(containers[0]);
    ZeroValue(containers[0], Match(0, 0, 1, 0));
    assert Cascade(containers[0], ContainerTags) == Some(Hit(0, Some("0"), PercentInContainer));
    ContainersFirst(containers, page, AsWritten, 0);
    ContainersFirst(containers, page, Intended, 0);
    StripZerosZero();
    assert "" + "%" == "%";
    assert "0" + "%" == "0%";
  }
}
