/**
 * The Selenium script `main.py`: the first-number extractor with its
 * `.2f`-then-strip rendering, the element scan with its text gate, the
 * page-source fallback, the retry schedule, `whatsapp:` prefixing and the
 * message body.
 */
module SeleniumBot {
  import opened Wrappers
  import opened Text
  import opened Numeric
  import opened PyNumbers
  import opened Messaging
  import opened Forms

  /**
   * A number as `(\d{1,3}(?:\.\d+)?)` reads it at a digit: up to three
   * integer digits, then '.' and every following digit when a digit follows
   * the '.'. `flen` is 0 when there is no fraction.
   */
  datatype PyNum = PyNum(at: nat, ilen: nat, flen: nat)

  function PyEnd(n: PyNum): nat
  {
    n.at + n.ilen + (if n.flen > 0 then n.flen + 1 else 0)
  }

  predicate PyWellFormed(s: string, n: PyNum)
  {
    1 <= n.ilen <= 3 && PyEnd(n) <= |s|
    && (forall k | n.at <= k < n.at + n.ilen :: IsDigit(s[k]))
    && (n.flen > 0 ==> s[n.at + n.ilen] == '.')
    && (forall k | n.at + n.ilen + 1 <= k < PyEnd(n) :: IsDigit(s[k]))
  }

  /** The greedy (and, for these patterns, only) reading at the digit s[i]. */
  function PyNumAt(s: string, i: nat): (n: PyNum)
    requires i < |s| && IsDigit(s[i])
    ensures n.at == i && PyWellFormed(s, n)
    ensures PyEnd(n) < |s| && n.flen > 0 ==> !IsDigit(s[PyEnd(n)])
  {
    var d := DigitRun(s, i, 3);
    var j := i + d;
    if j + 1 < |s| && s[j] == '.' && IsDigit(s[j + 1]) then PyNum(i, d, DigitRun(s, j + 1, |s| - (j + 1)))
    else PyNum(i, d, 0)
  }

  function IntValue(s: string, n: PyNum): nat
    requires PyWellFormed(s, n)
  {
    assert AllDigits(s[n.at..n.at + n.ilen]);
    DigitsValue(s[n.at..n.at + n.ilen])
  }

  /** The k-th fraction digit, 0 past the end. */
  function FracDigit(s: string, n: PyNum, k: nat): nat
    requires PyWellFormed(s, n)
  {
    if k < n.flen then DigitValue(s[n.at + n.ilen + 1 + k]) else 0
  }

  /** `0 <= float(group) <= 100`, exactly. */
  predicate PyInRange(s: string, n: PyNum)
    requires PyWellFormed(s, n)
  {
    IntValue(s, n) < 100 || (IntValue(s, n) == 100 && forall k | 0 <= k < n.flen :: FracDigit(s, n, k) == 0)
  }

  /** The value rounded half-up to hundredths. */
  function Rounded(s: string, n: PyNum): nat
    requires PyWellFormed(s, n)
  {
    IntValue(s, n) * 100 + 10 * FracDigit(s, n, 0) + FracDigit(s, n, 1) + (if FracDigit(s, n, 2) >= 5 then 1 else 0)
  }

  /** `.rstrip("0").rstrip(".")`. */
  function TrimFixed(x: string): string
  {
    RStripChar(RStripChar(x, '0'), '.')
  }

  /**
   * Trimming the two-decimal rendering gives the canonical decimal: the
   * integer part is kept whole and only fraction zeros and a bare '.' go.
   */
  lemma TrimFixedIsCanonical(h: nat)
    ensures TrimFixed(Fixed2(h)) == Canonical(h)
  {
    var q := NatStr(h / 100);
    var a := DigitChar(h % 100 / 10);
    var b := DigitChar(h % 10);
    assert IsDigit(q[|q| - 1]);
    if h % 10 != 0 {
      TrimTwoDigits(q, a, b);
    } else if h % 100 != 0 {
      TrimOneDigit(q, a);
    } else {
      TrimNoDigit(q);
    }
  }

  lemma TrimTwoDigits(q: string, a: char, b: char)
    requires b != '0' && IsDigit(b)
    ensures TrimFixed(q + ['.', a, b]) == q + ['.', a, b]
  {
    RStripExact(q + ['.', a, b], "", '0');
    RStripExact(q + ['.', a, b], "", '.');
    assert q + ['.', a, b] + "" == q + ['.', a, b];
  }

  lemma TrimOneDigit(q: string, a: char)
    requires a != '0' && IsDigit(a)
    ensures TrimFixed(q + ['.', a, '0']) == q + ['.', a]
  {
    assert q + ['.', a, '0'] == (q + ['.', a]) + "0";
    RStripExact(q + ['.', a], "0", '0');
    RStripExact(q + ['.', a], "", '.');
    assert q + ['.', a] + "" == q + ['.', a];
  }

  lemma TrimNoDigit(q: string)
    requires q != [] && IsDigit(q[|q| - 1])
    ensures TrimFixed(q + ['.', '0', '0']) == q
  {
    assert q + ['.', '0', '0'] == (q + ".") + "00";
    RStripExact(q + ".", "00", '0');
    assert q + "." == q + ".";
    RStripExact(q, ".", '.');
  }

  /** The value of the number at a digit, rendered, when it is at most 100. */
  function ValueAt(s: string, i: nat): Option<string>
    requires i < |s| && IsDigit(s[i])
  {
    var n := PyNumAt(s, i);
    if PyInRange(s, n) then Some(TrimFixed(Fixed2(Rounded(s, n)))) else None
  }

  /**
   * `extract_attendance_from_text`: nothing for empty text; otherwise only
   * the first number counts, and it must lie in [0, 100].
   */
  function ExtractFromText(text: string): Option<string>
  {
    if text == "" then None
    else match FirstDigitFrom(text, 0)
      case None => None
      case Some(i) => ValueAt(text, i)
  }

  /**
   * A found value is the canonical decimal of the first number rounded to
   * hundredths: at most 100, no trailing '.', no trailing fraction zero, and
   * the integer digits kept whole.
   */
  lemma ExtractedShape(text: string)
    requires ExtractFromText(text).Some?
    ensures var i := FirstDigitFrom(text, 0).value; var n := PyNumAt(text, i); var h := Rounded(text, n);
      PyInRange(text, n) && h <= 10000 && ExtractFromText(text).value == Canonical(h)
    ensures var r := ExtractFromText(text).value;
      r[|r| - 1] != '.' && (TokenAt(r, 0, 0).flen > 0 ==> r[|r| - 1] != '0')
  {
    var i := FirstDigitFrom(text, 0).value;
    var n := PyNumAt(text, i);
    TrimFixedIsCanonical(Rounded(text, n));
    CanonicalShape(Rounded(text, n));
  }

  /** A whole number in range comes back with every integer digit: `80` gives `80`, `100` gives `100`. */
  lemma WholeNumberKept(text: string, i: nat)
    requires FirstDigitFrom(text, 0) == Some(i)
    requires PyNumAt(text, i).flen == 0 && IntValue(text, PyNumAt(text, i)) <= 100
    ensures ExtractFromText(text) == Some(NatStr(IntValue(text, PyNumAt(text, i))))
  {
    var n := PyNumAt(text, i);
    var v := IntValue(text, n);
    assert Rounded(text, n) == v * 100;
    assert PyInRange(text, n);
    TrimFixedIsCanonical(v * 100);
    assert (v * 100) / 100 == v && (v * 100) % 100 == 0;
    assert Canonical(v * 100) == NatStr(v) + "";
  }

  /** Only the first number is examined: when it exceeds 100 nothing is found, whatever follows. */
  lemma FirstNumberDecides(text: string)
    requires FirstDigitFrom(text, 0).Some?
    requires !PyInRange(text, PyNumAt(text, FirstDigitFrom(text, 0).value))
    ensures ExtractFromText(text).None?
  {
  }

  /** `\d{1,3}\.\d` can match at k: a digit, a '.', a digit. */
  predicate DecimalAt(t: string, k: nat)
  {
    k + 2 < |t| && IsDigit(t[k]) && t[k + 1] == '.' && IsDigit(t[k + 2])
  }

  predicate HasDecimalFrom(t: string, i: nat)
    decreases |t| - i
  {
    i + 2 < |t| && (DecimalAt(t, i) || HasDecimalFrom(t, i + 1))
  }

  lemma {:induction false} HasDecimalFromIff(t: string, i: nat)
    decreases |t| - i
    ensures HasDecimalFrom(t, i) <==> exists k | i <= k :: DecimalAt(t, k)
  {
    if i + 2 < |t| {
      HasDecimalFromIff(t, i + 1);
      if exists k | i <= k :: DecimalAt(t, k) {
        var k :| i <= k && DecimalAt(t, k);
        assert k == i || i + 1 <= k;
      }
    }
  }

  /** The generic scan passes a text on only when it has '%', a decimal number, or both '(' and ')'. */
  predicate Gate(t: string)
  {
    HasSubstring(t, "%") || HasDecimalFrom(t, 0) || (HasSubstring(t, "(") && HasSubstring(t, ")"))
  }

  lemma GateIff(t: string)
    ensures Gate(t) <==>
      (exists j :: OccursAt(t, "%", j))
      || (exists k | 0 <= k :: DecimalAt(t, k))
      || ((exists j :: OccursAt(t, "(", j)) && (exists j :: OccursAt(t, ")", j)))
  {
    HasSubstringIff(t, "%");
    HasSubstringIff(t, "(");
    HasSubstringIff(t, ")");
    HasDecimalFromIff(t, 0);
  }

  /** What the element loop does with one element's text. */
  function Consider(t: string, gated: bool): Option<string>
  {
    var txt := Strip(t);
    if gated && (txt == "" || !Gate(txt)) then None else ExtractFromText(txt)
  }

  /** What each element of a scan yields, in visit order. */
  function Candidates(texts: seq<string>, gated: bool): (rs: seq<Option<string>>)
    ensures |rs| == |texts|
  {
    seq(|texts|, j requires 0 <= j < |texts| => Consider(texts[j], gated))
  }

  /** The first value in rs from index k on (`if candidate: return candidate`). */
  function FirstSome(rs: seq<Option<string>>, k: nat): Option<string>
    decreases |rs| - k
  {
    if k >= |rs| then None
    else if rs[k].Some? then rs[k]
    else FirstSome(rs, k + 1)
  }

  /** A value from a scan is the first element's that yields one. */
  lemma {:induction false} FirstSomeFirst(rs: seq<Option<string>>, k: nat) returns (w: nat)
    requires FirstSome(rs, k).Some?
    decreases |rs| - k
    ensures k <= w < |rs| && rs[w] == FirstSome(rs, k)
    ensures forall j | k <= j < w :: rs[j].None?
  {
    if rs[k].Some? {
      w := k;
    } else {
      w := FirstSomeFirst(rs, k + 1);
    }
  }

  /** A scan finds nothing exactly when no element yields a value. */
  lemma {:induction false} FirstSomeNone(rs: seq<Option<string>>, k: nat)
    decreases |rs| - k
    ensures FirstSome(rs, k).None? <==> forall j | k <= j < |rs| :: rs[j].None?
  {
    if k < |rs| {
      FirstSomeNone(rs, k + 1);
    }
  }

  /** `m.group(0)` end of `(\d{1,3}(?:\.\d+)?)\s*%` at the digit s[i], if it matches there. */
  function PercentEnd(s: string, i: nat): (r: Option<nat>)
    requires i < |s| && IsDigit(s[i])
    ensures r.Some? ==> PyEnd(PyNumAt(s, i)) < r.value <= |s| && s[r.value - 1] == '%'
  {
    var e := PyEnd(PyNumAt(s, i));
    var w := SpacesFrom(s, e);
    if w < |s| && s[w] == '%' then Some(w + 1) else None
  }

  /** The end of the run of white space starting at j. */
  function SpacesFrom(s: string, j: nat): (r: nat)
    requires j <= |s|
    decreases |s| - j
    ensures j <= r <= |s| && (r < |s| ==> !IsPySpace(s[r]))
    ensures forall k | j <= k < r :: IsPySpace(s[k])
  {
    if j < |s| && IsPySpace(s[j]) then SpacesFrom(s, j + 1) else j
  }

  /** The leftmost start of a percent match at or after i. */
  function FirstPercentFrom(s: string, i: nat): (r: Option<nat>)
    decreases |s| - i
    ensures r.Some? ==> i <= r.value < |s| && IsDigit(s[r.value]) && PercentEnd(s, r.value).Some?
  {
    if i >= |s| then None
    else if IsDigit(s[i]) && PercentEnd(s, i).Some? then Some(i)
    else FirstPercentFrom(s, i + 1)
  }

  /** The page-source fallback: the extractor applied to the whole first percent match. */
  function Fallback(page: string): Option<string>
  {
    match FirstPercentFrom(page, 0)
      case None => None
      case Some(i) => ExtractFromText(page[i..PercentEnd(page, i).value])
  }

  /**
   * `find_attendance_on_page`: the texts of the elements the configured
   * selector finds (empty when it is unset or fails), the texts of all
   * span/td/div/p elements, and the page source.
   */
  function FindOnPage(selected: seq<string>, elements: seq<string>, page: string): Option<string>
  {
    match FirstSome(Candidates(selected, false), 0)
      case Some(v) => Some(v)
      case None =>
        match FirstSome(Candidates(elements, true), 0)
          case Some(v) => Some(v)
          case None => Fallback(page)
  }

  /** The loop form of `find_attendance_on_page`, with early returns. */
  method FindAttendanceOnPage(selected: seq<string>, elements: seq<string>, page: string) returns (r: Option<string>)
    ensures r == FindOnPage(selected, elements, page)
  {
    ghost var rs := Candidates(selected, false);
    for k := 0 to |selected|
      invariant FirstSome(rs, 0) == FirstSome(rs, k)
    {
      var txt := Strip(selected[k]);
      var candidate := ExtractFromText(txt);
      assert candidate == rs[k];
      if candidate.Some? {
        return candidate;
      }
    }
    ghost var es := Candidates(elements, true);
    for k := 0 to |elements|
      invariant FirstSome(es, 0) == FirstSome(es, k)
    {
      assert Consider(elements[k], true) == es[k];
      var txt := Strip(elements[k]);
      if txt == "" {
        continue;
      }
      if Gate(txt) {
        var candidate := ExtractFromText(txt);
        if candidate.Some? {
          return candidate;
        }
      }
    }
    r := Fallback(page);
  }

  /**
   * A value found in the generic scan comes from the first element whose
   * stripped text is non-empty, passes the gate and yields a number.
   */
  lemma GenericScanFirst(elements: seq<string>) returns (w: nat)
    requires FirstSome(Candidates(elements, true), 0).Some?
    ensures w < |elements| && Strip(elements[w]) != "" && Gate(Strip(elements[w]))
    ensures ExtractFromText(Strip(elements[w])) == FirstSome(Candidates(elements, true), 0)
    ensures forall j | 0 <= j < w :: Strip(elements[j]) == "" || !Gate(Strip(elements[j])) || ExtractFromText(Strip(elements[j])).None?
  {
    var rs := Candidates(elements, true);
    w := FirstSomeFirst(rs, 0);
    forall j | 0 <= j < w
      ensures Strip(elements[j]) == "" || !Gate(Strip(elements[j])) || ExtractFromText(Strip(elements[j])).None?
    {
      assert rs[j] == Consider(elements[j], true);
    }
  }

  /** Whatever tier finds it, a value is the canonical rendering of a number in [0, 100]. */
  lemma FoundIsCanonical(selected: seq<string>, elements: seq<string>, page: string) returns (h: nat)
    requires FindOnPage(selected, elements, page).Some?
    ensures h <= 10000 && FindOnPage(selected, elements, page).value == Canonical(h)
  {
    var text: string;
    var rs := Candidates(selected, false);
    var es := Candidates(elements, true);
    if FirstSome(rs, 0).Some? {
      var w := FirstSomeFirst(rs, 0);
      text := Strip(selected[w]);
    } else if FirstSome(es, 0).Some? {
      var w := FirstSomeFirst(es, 0);
      text := Strip(elements[w]);
    } else {
      var i := FirstPercentFrom(page, 0).value;
      text := page[i..PercentEnd(page, i).value];
    }
    assert ExtractFromText(text) == FindOnPage(selected, elements, page);
    ExtractedShape(text);
    h := Rounded(text, PyNumAt(text, FirstDigitFrom(text, 0).value));
  }

  /** The page source is consulted only when neither element scan yields a value. */
  lemma FallbackLast(selected: seq<string>, elements: seq<string>, page: string)
    requires forall j | 0 <= j < |selected| :: ExtractFromText(Strip(selected[j])).None?
    requires forall j | 0 <= j < |elements| :: Consider(elements[j], true).None?
    ensures FindOnPage(selected, elements, page) == Fallback(page)
  {
    var rs := Candidates(selected, false);
    var es := Candidates(elements, true);
    assert forall j | 0 <= j < |rs| :: rs[j] == Consider(selected[j], false);
    FirstSomeNone(rs, 0);
    FirstSomeNone(es, 0);
  }

  function Pow2(n: nat): (r: nat)
    ensures r >= 1
  {
    if n == 0 then 1 else 2 * Pow2(n - 1)
  }

  /**
   * `get_attendance_with_retries`: `once(n)` is what the n-th call of
   * `get_attendance_once` returns; the sleeps are recorded in order.
   * `RETRY_BACKOFF` is read by `int()` and may be negative: the first
   * sleep then raises ValueError, reported as `raised`.
   */
  method AttendanceWithRetries(maxAttempts: int, backoff: int, once: nat -> Option<string>)
    returns (r: Option<string>, calls: nat, sleeps: seq<int>, raised: bool)
    ensures calls <= (if maxAttempts < 0 then 0 else maxAttempts)
    ensures forall n | 1 <= n < calls :: !Truthy(once(n))
    ensures raised <==> backoff < 0 && maxAttempts >= 1 && !Truthy(once(1))
    ensures raised ==> r.None? && calls == 1 && sleeps == []
    ensures r.Some? ==> !raised && calls >= 1 && r == once(calls) && Truthy(r)
    ensures r.None? && !raised ==> calls == (if maxAttempts < 0 then 0 else maxAttempts) && (calls >= 1 ==> !Truthy(once(calls)))
    ensures !raised ==> |sleeps| == (if r.Some? then calls - 1 else calls)
    ensures forall j | 0 <= j < |sleeps| :: sleeps[j] == backoff * Pow2(j) && sleeps[j] >= 0
  {
    var attempt: nat := 1;
    calls, sleeps, raised := 0, [], false;
    while attempt <= maxAttempts
      invariant calls == attempt - 1 && calls <= (if maxAttempts < 0 then 0 else maxAttempts)
      invariant forall n | 1 <= n <= calls :: !Truthy(once(n))
      invariant |sleeps| == calls
      invariant calls >= 1 ==> backoff >= 0
      invariant forall j | 0 <= j < |sleeps| :: sleeps[j] == backoff * Pow2(j) && sleeps[j] >= 0
      decreases maxAttempts - attempt
    {
      var a := once(attempt);
      calls := calls + 1;
      if Truthy(a) {
        return a, calls, sleeps, false;
      }
      var sleepFor := backoff * Pow2(attempt - 1);
      if sleepFor < 0 {
        return None, calls, sleeps, true;
      }
      sleeps := sleeps + [sleepFor];
      attempt := attempt + 1;
    }
    r := None;
  }

  /** The variables `send_whatsapp_message` reads; it prefixes both addresses. */
  const MainTwilio: TwilioVars := TwilioVars("TWILIO_SID", "TWILIO_TOKEN", "TWILIO_PHONE_NUMBER", "MY_PHONE_NUMBER")

  /** `send_whatsapp_message` sends nothing unless all four of its variables are set and non-empty. */
  lemma MainSendGuard(env: map<string, string>)
    ensures SendRoute(env, MainTwilio).None? <==>
      !Present(env, "TWILIO_SID") || !Present(env, "TWILIO_TOKEN")
      || !Present(env, "TWILIO_PHONE_NUMBER") || !Present(env, "MY_PHONE_NUMBER")
  {
  }

  /** The opening of the update message, in the characters the script holds. */
  const UpdateLead: string := "\U{F8FF}\U{FC}\U{EC}\U{E4} MGIT Attendance Update: "

  /** The fixed failure message, in the characters the script holds. */
  const FailureBody: string :=
    "\U{201A}\U{F6}\U{2020}\U{D4}\U{220F}\U{E8} MGIT Attendance Bot: could not retrieve attendance. Check the workflow logs for an HTML snippet to help fix selectors."

  /** The message `main` sends. */
  function Body(attendance: Option<string>): (r: string)
  {
    if Truthy(attendance) then UpdateLead + attendance.value + "%" else FailureBody
  }

  /** A found value appears in the body followed by '%'; otherwise the body is the fixed failure text. */
  lemma BodyShape(attendance: Option<string>)
    ensures Truthy(attendance) ==>
      var r := Body(attendance); var a := attendance.value;
      |r| == |UpdateLead| + |a| + 1 && r[|UpdateLead|..|r| - 1] == a && r[|r| - 1] == '%'
    ensures !Truthy(attendance) ==> Body(attendance) == FailureBody
  {
  }
}
