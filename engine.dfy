/**
 * The pieces both in-page attendance extractors share: the method tags, a
 * hit and how it is rendered, the per-container cascade (percent, then
 * parenthesised number, then bare token), the scan over container texts in
 * visit order, the anchor "attendance", the "anywhere" tiers and the
 * not-found outcome.
 */
module Engine {
  import opened Wrappers
  import opened Text
  import opened Numeric
  import opened Matching
  import opened Nearest

  /**
   * The environment check both scripts make before anything runs: all six
   * variables set and non-empty (`!X` in JavaScript, `all([...])` in Python).
   */
  const RequiredEnv: seq<string> :=
    ["COLLEGE_USER", "COLLEGE_PASS", "MY_PHONE_NUMBER", "TWILIO_PHONE_NUMBER", "TWILIO_SID", "TWILIO_TOKEN"]

  predicate EnvComplete(env: map<string, string>)
  {
    AllSet(env, RequiredEnv)
  }

  /** The check passes exactly when every one of the six variables is set and non-empty. */
  lemma EnvCompleteIff(env: map<string, string>)
    ensures EnvComplete(env) <==> forall name | name in RequiredEnv :: name in env && env[name] != ""
  {
    AllSetIff(env, RequiredEnv);
    assert forall name | name in RequiredEnv :: exists k | 0 <= k < |RequiredEnv| :: RequiredEnv[k] == name;
  }

  /** The `method` field of a found result. */
  datatype Method =
    | PercentInContainer | ParenInContainer | TokenInContainer
    | ParenAnywhere | PctAnywhereNearAtt | PctAnywhereLargest
    | PresentTermPercent | PresentTermParen | PresentTermToken
    | AttendanceSiblingPercent | AttendanceSiblingParen | AttendanceSiblingToken
    | ParenNearAtt | PctNearAtt | PctAny

  function Tag(m: Method): string
  {
    match m
    case PercentInContainer => "percent-in-container"
    case ParenInContainer => "paren-in-container"
    case TokenInContainer => "token-in-container"
    case ParenAnywhere => "paren-anywhere"
    case PctAnywhereNearAtt => "pct-anywhere-near-att"
    case PctAnywhereLargest => "pct-anywhere-largest"
    case PresentTermPercent => "presentterm-percent"
    case PresentTermParen => "presentterm-paren"
    case PresentTermToken => "presentterm-token"
    case AttendanceSiblingPercent => "attendance-sibling-percent"
    case AttendanceSiblingParen => "attendance-sibling-paren"
    case AttendanceSiblingToken => "attendance-sibling-token"
    case ParenNearAtt => "paren-near-att"
    case PctNearAtt => "pct-near-att"
    case PctAny => "pct-any"
  }

  /**
   * A value a tier settled on: its exact value in hundredths, the matched
   * text when the code strips zeros off the regex group itself (`raw`), or
   * None when it strips them off `String(Number(...))`, and the tag that says which rule found it.
   */
  datatype Hit = Hit(hundredths: nat, raw: Option<string>, via: Method)

  /** The matched text as written, or the correct decimal rendering (see Findings). */
  datatype Rendering = AsWritten | Intended

  datatype Outcome = Found(value: string, via: Method) | NotFound(snippet: string)

  /** The three tags of one cascade. */
  datatype Tags = Tags(percent: Method, paren: Method, token: Method)

  /** Not in date context and `0 <= Number(tok) <= 100`. */
  predicate Accepted(s: string, m: Match)
    requires WellFormed(s, m)
  {
    !IsDateContext(s, m.at, NumLen(m)) && InRange(s, m)
  }

  predicate AllWellFormed(s: string, ms: seq<Match>)
  {
    forall k | 0 <= k < |ms| :: WellFormed(s, ms[k])
  }

  /** The index of the first accepted match at or after i: a `for` loop with `continue` and an early `return`. */
  function FirstAcceptedFrom(s: string, ms: seq<Match>, i: nat): (r: Option<nat>)
    requires AllWellFormed(s, ms)
    decreases |ms| - i
    ensures r.Some? ==> i <= r.value < |ms| && Accepted(s, ms[r.value])
    ensures r.Some? ==> forall j | i <= j < r.value :: !Accepted(s, ms[j])
    ensures r.None? ==> forall j | i <= j < |ms| :: !Accepted(s, ms[j])
  {
    if i >= |ms| then None
    else if Accepted(s, ms[i]) then Some(i)
    else FirstAcceptedFrom(s, ms, i + 1)
  }

  function FirstAccepted(s: string, ms: seq<Match>): Option<nat>
    requires AllWellFormed(s, ms)
  {
    FirstAcceptedFrom(s, ms, 0)
  }

  /** The loop over candidates, skipping date contexts and out-of-range values. */
  method FirstAcceptedLoop(s: string, ms: seq<Match>) returns (r: Option<nat>)
    requires AllWellFormed(s, ms)
    ensures r == FirstAccepted(s, ms)
  {
    var i := 0;
    while i < |ms|
      invariant i <= |ms|
      invariant FirstAcceptedFrom(s, ms, i) == FirstAccepted(s, ms)
    {
      if IsDateContext(s, ms[i].at, NumLen(ms[i])) {
        i := i + 1;
        continue;
      }
      if InRange(s, ms[i]) {
        return Some(i);
      }
      i := i + 1;
    }
    return None;
  }

  lemma AllMatchesWellFormed(p: Pattern, s: string)
    ensures AllWellFormed(s, All(p, s))
  {
    AllFromMatches(p, s, 0);
  }

  lemma TokensWellFormed(s: string)
    ensures AllWellFormed(s, Tokens(s))
  {
  }

  /** A hit whose rendering strips zeros off the matched text. */
  function RawHit(s: string, m: Match, tag: Method): Hit
    requires WellFormed(s, m)
  {
    Hit(Hundredths(s, m), Some(NumberText(s, m)), tag)
  }

  /** A hit whose rendering strips zeros off `String(Number(...))`. */
  function ValueHit(s: string, m: Match, tag: Method): Hit
    requires WellFormed(s, m)
  {
    Hit(Hundredths(s, m), None, tag)
  }

  /**
   * One container's cascade: the first percent match if it is at most 100,
   * else the first parenthesised number if it is at most 100, else the first
   * bare token that is accepted.
   */
  function Cascade(s: string, tags: Tags): Option<Hit>
  {
    var pct := First(Percent, s);
    if pct.Some? && InRange(s, pct.value) then Some(RawHit(s, pct.value, tags.percent))
    else
      var par := First(Paren, s);
      if par.Some? && InRange(s, par.value) then Some(RawHit(s, par.value, tags.paren))
      else
        var toks := Tokens(s);
        match FirstAccepted(s, toks)
        case Some(k) => Some(ValueHit(s, toks[k], tags.token))
        case None => None
  }

  /** The cascade as the code runs it: two `match` calls, then the token loop. */
  method CascadeText(s: string, tags: Tags) returns (r: Option<Hit>)
    ensures r == Cascade(s, tags)
  {
    var pct := First(Percent, s);
    if pct.Some? && InRange(s, pct.value) {
      return Some(RawHit(s, pct.value, tags.percent));
    }
    var par := First(Paren, s);
    if par.Some? && InRange(s, par.value) {
      return Some(RawHit(s, par.value, tags.paren));
    }
    var toks := FindNumericTokens(s);
    var k := FirstAcceptedLoop(s, toks);
    if k.Some? {
      return Some(ValueHit(s, toks[k.value], tags.token));
    }
    return None;
  }

  /** The containers in visit order; the first one whose cascade succeeds decides. */
  function ContainerScan(cs: seq<string>, tags: Tags): (r: Option<Hit>)
  {
    if cs == [] then None
    else if Cascade(cs[0], tags).Some? then Cascade(cs[0], tags)
    else ContainerScan(cs[1..], tags)
  }

  method ScanContainers(cs: seq<string>, tags: Tags) returns (r: Option<Hit>)
    ensures r == ContainerScan(cs, tags)
  {
    var i := 0;
    while i < |cs|
      invariant i <= |cs|
      invariant ContainerScan(cs[i..], tags) == ContainerScan(cs, tags)
    {
      assert cs[i..][1..] == cs[i + 1..];
      var h := CascadeText(cs[i], tags);
      if h.Some? {
        return h;
      }
      i := i + 1;
    }
    return None;
  }

  /** The first container whose cascade succeeds gives the result, whatever the later ones hold. */
  lemma {:induction false} ContainerScanFirst(cs: seq<string>, tags: Tags, i: nat)
    requires i < |cs| && Cascade(cs[i], tags).Some?
    requires forall j | 0 <= j < i :: Cascade(cs[j], tags).None?
    ensures ContainerScan(cs, tags) == Cascade(cs[i], tags)
  {
    if i > 0 {
      assert cs[1..][i - 1] == cs[i];
      ContainerScanFirst(cs[1..], tags, i - 1);
    }
  }

  /** The scan yields nothing exactly when no container's cascade succeeds. */
  lemma {:induction false} ContainerScanNone(cs: seq<string>, tags: Tags)
    ensures ContainerScan(cs, tags).None? <==> forall j | 0 <= j < |cs| :: Cascade(cs[j], tags).None?
  {
    if cs != [] {
      ContainerScanNone(cs[1..], tags);
      assert forall j | 1 <= j < |cs| :: cs[j] == cs[1..][j - 1];
    }
  }

  /** `text.toLowerCase().indexOf('attendance')`, None for -1. */
  function Anchor(page: string): Option<nat>
  {
    IndexOfFrom(Lower(page), "attendance", 0)
  }

  /** The sorted copy keeps the matches' own facts. */
  lemma SortedWellFormed(s: string, ms: seq<Match>, anchor: nat)
    requires AllWellFormed(s, ms)
    ensures AllWellFormed(s, SortByDistance(ms, anchor))
  {
    var r := SortByDistance(ms, anchor);
    forall k | 0 <= k < |r|
      ensures WellFormed(s, r[k])
    {
      SortedFrom(ms, anchor, k);
    }
  }

  /**
   * Trying candidates nearest first, the first accepted one is the nearest
   * accepted candidate: every other accepted one is farther, or as far and
   * later in the document.
   */
  lemma FirstAcceptedIsNearest(s: string, ms: seq<Match>, a: nat) returns (m: Match)
    requires AllWellFormed(s, ms) && Increasing(ms)
    requires AllWellFormed(s, SortByDistance(ms, a)) && FirstAccepted(s, SortByDistance(ms, a)).Some?
    ensures m == SortByDistance(ms, a)[FirstAccepted(s, SortByDistance(ms, a)).value]
    ensures m in ms && WellFormed(s, m) && Accepted(s, m)
    ensures forall o | o in ms && WellFormed(s, o) && Accepted(s, o) && o != m :: Before(m, o, a)
  {
    var sorted := SortByDistance(ms, a);
    SortedByDistance(ms, a);
    var k := FirstAccepted(s, sorted).value;
    m := sorted[k];
    SortedFrom(ms, a, k);
    forall o | o in ms && WellFormed(s, o) && Accepted(s, o) && o != m
      ensures Before(m, o, a)
    {
      var j := SortedPlace(ms, a, o);
      assert j != k;
      assert !(j < k);
    }
  }

  /** `ms.map(x => Number(x.v))`, in hundredths. */
  function Numbers(s: string, ms: seq<Match>): (r: seq<nat>)
    requires AllWellFormed(s, ms)
    ensures |r| == |ms| && forall k | 0 <= k < |ms| :: r[k] == Hundredths(s, ms[k])
  {
    seq(|ms|, k requires 0 <= k < |ms| => Hundredths(s, ms[k]))
  }

  /** `.filter(x => x >= 0 && x <= 100)`. */
  function Sensible(xs: seq<nat>): (r: seq<nat>)
    ensures forall x :: x in r <==> x in xs && x <= 10000
  {
    if xs == [] then []
    else
      assert xs == [xs[0]] + xs[1..];
      (if xs[0] <= 10000 then [xs[0]] else []) + Sensible(xs[1..])
  }

  /** `Math.max(...xs)` of a non-empty list. */
  function Max(xs: seq<nat>): (r: nat)
    requires xs != []
    ensures r in xs && forall x | x in xs :: x <= r
  {
    if |xs| == 1 then xs[0]
    else
      assert xs == [xs[0]] + xs[1..];
      var m := Max(xs[1..]);
      if xs[0] > m then xs[0] else m
  }

  /**
   * The percent tier over the whole page text: with the anchor, only the
   * match nearest to it (ties in document order) is considered and the tier
   * fails when that one is over 100; without it, the largest in-range value.
   */
  function PctTier(page: string, near: Method, any: Method): Option<Hit>
  {
    var ms := All(Percent, page);
    AllMatchesWellFormed(Percent, page);
    if ms == [] then None
    else match Anchor(page)
      case Some(a) =>
        SortedWellFormed(page, ms, a);
        var nearest := SortByDistance(ms, a)[0];
        if InRange(page, nearest) then Some(ValueHit(page, nearest, near)) else None
      case None =>
        var nums := Sensible(Numbers(page, ms));
        if nums != [] then Some(Hit(Max(nums), None, any)) else None
  }

  /** A found value: the hit rendered as the code does, or as intended, then `%`. */
  function Render(hit: Hit, rendering: Rendering): string
  {
    match rendering
    case AsWritten =>
      StripZeros(match hit.raw case Some(t) => t case None => Canonical(hit.hundredths)) + "%"
    case Intended => Canonical(hit.hundredths) + "%"
  }

  /** The first hit of the cascade of tiers, or the not-found snippet (`slice(0, 2000)`). */
  function Conclude(hit: Option<Hit>, page: string, rendering: Rendering): Outcome
  {
    match hit
    case Some(h) => Found(Render(h, rendering), h.via)
    case None => NotFound(Slice(page, 0, 2000))
  }

  function Or(a: Option<Hit>, b: Option<Hit>): Option<Hit>
  {
    if a.Some? then a else b
  }

  /** Every hit of the cascade is at most 100. */
  lemma CascadeInRange(s: string, tags: Tags)
    ensures Cascade(s, tags).Some? ==> Cascade(s, tags).value.hundredths <= 10000
  {
    TokensWellFormed(s);
  }

  /** The not-found snippet is the page's first 2000 characters (all of it when shorter). */
  lemma SnippetIsPrefix(page: string)
    ensures |Slice(page, 0, 2000)| == (if |page| < 2000 then |page| else 2000)
    ensures Slice(page, 0, 2000) == page[..|Slice(page, 0, 2000)|]
  {
  }

  /**
   * With the intended rendering, a found value is a number the extractor
   * itself reads back whole, with the same value, at most 100, then `%`.
   */
  lemma {:induction false} IntendedReadsBack(h: nat, tag: Method)
    requires h <= 10000
    ensures var v := Render(Hit(h, None, tag), Intended); var t := v[..|v| - 1];
      v[|v| - 1] == '%' && IsDigit(t[0]) && NumEnd(TokenAt(t, 0, 0)) == |t|
      && Hundredths(t, TokenAt(t, 0, 0)) == h && InRange(t, TokenAt(t, 0, 0))
  {
    var v := Render(Hit(h, None, tag), Intended);
    assert v[..|v| - 1] == Canonical(h);
    CanonicalRoundTrip(h);
  }

  /** Every hit of a tier carries a value between 0 and 100. */
  predicate Sensibly(hit: Option<Hit>)
  {
    hit.Some? ==> hit.value.hundredths <= 10000
  }

  lemma {:induction false} ContainerScanSensible(cs: seq<string>, tags: Tags)
    ensures Sensibly(ContainerScan(cs, tags))
  {
    if cs != [] {
      CascadeInRange(cs[0], tags);
      ContainerScanSensible(cs[1..], tags);
    }
  }

  /** A container scan's hit carries one of the cascade's three tags. */
  lemma {:induction false} ContainerScanTags(cs: seq<string>, tags: Tags)
    ensures ContainerScan(cs, tags).Some? ==> ContainerScan(cs, tags).value.via in {tags.percent, tags.paren, tags.token}
  {
    if cs != [] {
      ContainerScanTags(cs[1..], tags);
    }
  }

  /**
   * With the anchor present, the percent tier looks at one match only: the
   * one nearest the anchor, the earliest among equally near ones. It fails
   * when that match is over 100, whatever the other matches hold.
   */
  lemma PctTierNearest(page: string, near: Method, any: Method) returns (m: Match)
    requires All(Percent, page) != [] && Anchor(page).Some?
    ensures m in All(Percent, page) && WellFormed(page, m)
    ensures forall o | o in All(Percent, page) && o != m :: Before(m, o, Anchor(page).value)
    ensures PctTier(page, near, any) == if InRange(page, m) then Some(ValueHit(page, m, near)) else None
  {
    var ms := All(Percent, page);
    var a := Anchor(page).value;
    AllFromIncreasing(Percent, page, 0);
    AllMatchesWellFormed(Percent, page);
    SortedByDistance(ms, a);
    var sorted := SortByDistance(ms, a);
    assert |sorted| == |ms| by {
      assert |multiset(sorted)| == |multiset(ms)|;
    }
    m := sorted[0];
    SortedFrom(ms, a, 0);
    forall o | o in ms && o != m
      ensures Before(m, o, a)
    {
      var j := SortedPlace(ms, a, o);
    }
  }

  /** Without the anchor, the percent tier fails only when no percent match is at most 100. */
  lemma PctTierLargestExists(page: string, near: Method, any: Method)
    requires Anchor(page).None?
    ensures AllWellFormed(page, All(Percent, page))
    ensures PctTier(page, near, any).Some? <==> exists k :: 0 <= k < |All(Percent, page)| && InRange(page, All(Percent, page)[k])
  {
    var ms := All(Percent, page);
    AllMatchesWellFormed(Percent, page);
    var xs := Numbers(page, ms);
    if exists k :: 0 <= k < |ms| && InRange(page, ms[k]) {
      var k :| 0 <= k < |ms| && InRange(page, ms[k]);
      assert xs[k] in Sensible(xs);
    }
    if Sensible(xs) != [] {
      var h := Sensible(xs)[0];
      assert h in xs;
    }
  }

  /** Without the anchor, the percent tier's value is the largest one at most 100 among the percent matches. */
  lemma PctTierLargest(page: string, near: Method, any: Method) returns (k: nat)
    requires Anchor(page).None? && PctTier(page, near, any).Some?
    ensures AllWellFormed(page, All(Percent, page))
    ensures k < |All(Percent, page)| && InRange(page, All(Percent, page)[k])
    ensures PctTier(page, near, any).value.hundredths == Hundredths(page, All(Percent, page)[k])
    ensures forall j | 0 <= j < |All(Percent, page)| && InRange(page, All(Percent, page)[j]) ::
      Hundredths(page, All(Percent, page)[j]) <= Hundredths(page, All(Percent, page)[k])
  {
    var ms := All(Percent, page);
    AllMatchesWellFormed(Percent, page);
    var xs := Numbers(page, ms);
    var h := Max(Sensible(xs));
    assert h in xs;
    k :| 0 <= k < |xs| && xs[k] == h;
    forall j | 0 <= j < |ms| && InRange(page, ms[j])
      ensures Hundredths(page, ms[j]) <= h
    {
      assert xs[j] in Sensible(xs);
    }
  }

  lemma PctTierSensible(page: string, near: Method, any: Method)
    ensures Sensibly(PctTier(page, near, any))
  {
    if All(Percent, page) != [] {
      if Anchor(page).Some? {
        var m := PctTierNearest(page, near, any);
      } else if PctTier(page, near, any).Some? {
        var k := PctTierLargest(page, near, any);
      }
    }
  }

  /** A found value ends in `%`, and with the intended rendering it is a number between 0 and 100 followed by `%`. */
  lemma ConcludeFound(hit: Option<Hit>, page: string, rendering: Rendering)
    requires Sensibly(hit)
    ensures Conclude(hit, page, rendering).Found? <==> hit.Some?
    ensures Conclude(hit, page, rendering).Found? ==>
      var v := Conclude(hit, page, rendering).value;
      |v| >= 1 && v[|v| - 1] == '%' && Conclude(hit, page, rendering).via == hit.value.via
    ensures Conclude(hit, page, rendering).Found? && rendering == Intended ==>
      var v := Conclude(hit, page, rendering).value; var t := v[..|v| - 1];
      IsDigit(t[0]) && NumEnd(TokenAt(t, 0, 0)) == |t| && Hundredths(t, TokenAt(t, 0, 0)) == hit.value.hundredths
      && InRange(t, TokenAt(t, 0, 0))
    ensures Conclude(hit, page, rendering).NotFound? ==>
      var snip := Conclude(hit, page, rendering).snippet;
      |snip| == (if |page| < 2000 then |page| else 2000) && snip == page[..|snip|]
  {
    if hit.Some? && rendering == Intended {
      IntendedReadsBack(hit.value.hundredths, hit.value.via);
    }
  }
}
