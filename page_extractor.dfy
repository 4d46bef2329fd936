/**
 * The extractor `playwright_attendance.py` evaluates in the page (the
 * `extractor_js` string). Container texts arrive in visit order: first the
 * `div` (or parent) around each element mentioning "Present Term", then the
 * candidates around each element mentioning "Attendance". Tiers: Present-Term
 * cascades, Attendance-vicinity cascades, parenthesised numbers nearest the
 * anchor, percentages anywhere, else not found.
 */
module PageExtractor {
  import opened Wrappers
  import opened Text
  import opened Numeric
  import opened Matching
  import opened Nearest
  import opened Engine

  const PresentTermTags := Tags(PresentTermPercent, PresentTermParen, PresentTermToken)
  const SiblingTags := Tags(AttendanceSiblingPercent, AttendanceSiblingParen, AttendanceSiblingToken)

  /**
   * Parenthesised numbers near the anchor: only when there is at least one
   * and "attendance" occurs; tried nearest first, the first accepted wins.
   */
  function ParenNearAttTier(page: string): Option<Hit>
  {
    var ms := All(Paren, page);
    AllMatchesWellFormed(Paren, page);
    if ms == [] then None
    else match Anchor(page)
      case None => None
      case Some(a) =>
        SortedWellFormed(page, ms, a);
        var sorted := SortByDistance(ms, a);
        match FirstAccepted(page, sorted)
        case Some(k) => Some(ValueHit(page, sorted[k], ParenNearAtt))
        case None => None
  }

  /** The parenthesised-number loop over the sorted candidates. */
  method ParenNearAttRun(page: string) returns (r: Option<Hit>)
    ensures r == ParenNearAttTier(page)
  {
    var parenAll := All(Paren, page);
    AllMatchesWellFormed(Paren, page);
    if |parenAll| == 0 {
      return None;
    }
    var attIdx := Anchor(page);
    if attIdx.None? {
      return None;
    }
    var sorted := SortByDistance(parenAll, attIdx.value);
    SortedWellFormed(page, parenAll, attIdx.value);
    var k := FirstAcceptedLoop(page, sorted);
    if k.Some? {
      return Some(ValueHit(page, sorted[k.value], ParenNearAtt));
    }
    return None;
  }

  /** The first tier that succeeds, in the code's order. */
  function Chosen(presentTerm: seq<string>, siblings: seq<string>, page: string): Option<Hit>
  {
    Or(ContainerScan(presentTerm, PresentTermTags),
    Or(ContainerScan(siblings, SiblingTags),
    Or(ParenNearAttTier(page), PctTier(page, PctNearAtt, PctAny))))
  }

  function Extract(presentTerm: seq<string>, siblings: seq<string>, page: string, rendering: Rendering): Outcome
  {
    Conclude(Chosen(presentTerm, siblings, page), page, rendering)
  }

  /** The extractor's body: the tiers in order, each returning early on success. */
  method Run(presentTerm: seq<string>, siblings: seq<string>, page: string, rendering: Rendering) returns (r: Outcome)
    ensures r == Extract(presentTerm, siblings, page, rendering)
  {
    var hit := ScanContainers(presentTerm, PresentTermTags);
    if hit.None? {
      hit := ScanContainers(siblings, SiblingTags);
    }
    if hit.None? {
      hit := ParenNearAttRun(page);
    }
    if hit.None? {
      hit := PctTier(page, PctNearAtt, PctAny);
    }
    return Conclude(hit, page, rendering);
  }

  /** Without "attendance" on the page the paren tier never fires. */
  lemma ParenNeedsAnchor(page: string)
    requires Anchor(page).None?
    ensures ParenNearAttTier(page).None?
  {
  }

  /**
   * The paren tier's value comes from an accepted parenthesised number, and
   * every other accepted one is farther from the anchor, or as far and later.
   */
  lemma ParenNearAttNearest(page: string) returns (m: Match)
    requires ParenNearAttTier(page).Some?
    ensures Anchor(page).Some?
    ensures m in All(Paren, page) && WellFormed(page, m) && Accepted(page, m)
    ensures ParenNearAttTier(page).value == ValueHit(page, m, ParenNearAtt)
    ensures forall o | o in All(Paren, page) && WellFormed(page, o) && Accepted(page, o) && o != m ::
      Before(m, o, Anchor(page).value)
  {
    var ms := All(Paren, page);
    var a := Anchor(page).value;
    AllMatchesWellFormed(Paren, page);
    SortedWellFormed(page, ms, a);
    AllFromIncreasing(Paren, page, 0);
    m := FirstAcceptedIsNearest(page, ms, a);
  }

  /**
   * The tiers are tried in order and the first success decides: a
   * Present-Term hit wins over everything, an Attendance-vicinity hit over
   * the page-wide tiers, the paren tier over the percent tier.
   */
  lemma TierOrder(presentTerm: seq<string>, siblings: seq<string>, page: string, rendering: Rendering)
    ensures var p := ContainerScan(presentTerm, PresentTermTags);
      p.Some? ==> Extract(presentTerm, siblings, page, rendering) == Conclude(p, page, rendering)
    ensures var p := ContainerScan(presentTerm, PresentTermTags); var s := ContainerScan(siblings, SiblingTags);
      p.None? && s.Some? ==> Extract(presentTerm, siblings, page, rendering) == Conclude(s, page, rendering)
    ensures var p := ContainerScan(presentTerm, PresentTermTags); var s := ContainerScan(siblings, SiblingTags);
      var n := ParenNearAttTier(page);
      p.None? && s.None? && n.Some? ==> Extract(presentTerm, siblings, page, rendering) == Conclude(n, page, rendering)
    ensures var p := ContainerScan(presentTerm, PresentTermTags); var s := ContainerScan(siblings, SiblingTags);
      var n := ParenNearAttTier(page);
      p.None? && s.None? && n.None? ==>
        Extract(presentTerm, siblings, page, rendering) == Conclude(PctTier(page, PctNearAtt, PctAny), page, rendering)
  {
  }

  /**
   * A found value ends in `%`, carries one of this extractor's nine tags and
   * a value between 0 and 100; not found carries the first 2000 characters.
   */
  lemma ExtractShape(presentTerm: seq<string>, siblings: seq<string>, page: string, rendering: Rendering)
    ensures var r := Extract(presentTerm, siblings, page, rendering);
      r.Found? ==> r.via in {PresentTermPercent, PresentTermParen, PresentTermToken,
                             AttendanceSiblingPercent, AttendanceSiblingParen, AttendanceSiblingToken,
                             ParenNearAtt, PctNearAtt, PctAny}
                   && |r.value| >= 1 && r.value[|r.value| - 1] == '%'
    ensures var r := Extract(presentTerm, siblings, page, rendering);
      r.Found? && rendering == Intended ==>
        var t := r.value[..|r.value| - 1];
        IsDigit(t[0]) && NumEnd(TokenAt(t, 0, 0)) == |t| && InRange(t, TokenAt(t, 0, 0))
    ensures var r := Extract(presentTerm, siblings, page, rendering);
      r.NotFound? ==> |r.snippet| == (if |page| < 2000 then |page| else 2000) && r.snippet == page[..|r.snippet|]
  {
    var hit := Chosen(presentTerm, siblings, page);
    assert Sensibly(hit) && (hit.Some? ==> hit.value.via in {PresentTermPercent, PresentTermParen, PresentTermToken,
                             AttendanceSiblingPercent, AttendanceSiblingParen, AttendanceSiblingToken,
                             ParenNearAtt, PctNearAtt, PctAny}) by {
      ContainerScanSensible(presentTerm, PresentTermTags);
      ContainerScanTags(presentTerm, PresentTermTags);
      ContainerScanSensible(siblings, SiblingTags);
      ContainerScanTags(siblings, SiblingTags);
      PctTierSensible(page, PctNearAtt, PctAny);
    }
    ConcludeFound(hit, page, rendering);
  }
}
