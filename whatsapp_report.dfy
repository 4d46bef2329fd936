/**
 * attendance_whatsapp.py, the parts that parse: the credential guard and
 * address prefixing of `send_whatsapp_message`, and from `get_attendance`
 * the form URL resolution, the login data with its field detection, the
 * failed-login test, the overall-percentage emoji, and the filter that
 * picks subject rows out of the attendance table.
 */
module WhatsappReport {
  import opened Wrappers
  import opened Text
  import opened Numeric
  import opened Collections
  import opened Forms
  import opened Messaging
  import opened PyNumbers
  import Tracker

  const BaseUrl: string := "https://mgit.winnou.net"

  /** The variables `send_whatsapp_message` reads; it prefixes both addresses. */
  const ReportTwilio: TwilioVars :=
    TwilioVars("TWILIO_ACCOUNT_SID", "TWILIO_AUTH_TOKEN", "TWILIO_WHATSAPP_FROM", "YOUR_WHATSAPP_NUMBER")

  /** Nothing is sent unless all four variables are set; the addresses then carry `whatsapp:` exactly once at the front. */
  lemma CredentialGuard(env: map<string, string>)
    ensures SendRoute(env, ReportTwilio).None? <==>
      !Present(env, "TWILIO_ACCOUNT_SID") || !Present(env, "TWILIO_AUTH_TOKEN")
      || !Present(env, "TWILIO_WHATSAPP_FROM") || !Present(env, "YOUR_WHATSAPP_NUMBER")
    ensures SendRoute(env, ReportTwilio).Some? ==>
      var r := SendRoute(env, ReportTwilio).value;
      r.from == Whatsapp(env["TWILIO_WHATSAPP_FROM"]) && r.to == Whatsapp(env["YOUR_WHATSAPP_NUMBER"])
      && Whatsapp(r.from) == r.from && Whatsapp(r.to) == r.to
  {
    if SendRoute(env, ReportTwilio).Some? {
      WhatsappIdempotent(env["TWILIO_WHATSAPP_FROM"]);
      WhatsappIdempotent(env["YOUR_WHATSAPP_NUMBER"]);
    }
  }

  /** A link or form action made absolute: kept when it starts with "http", otherwise put under the base URL. */
  function Resolve(url: string): string
  {
    if StartsWith(url, "http") then url
    else if StartsWith(url, "/") then BaseUrl + url
    else BaseUrl + "/" + url
  }

  /** Not starting with "http": the base, then the URL if it starts with '/', else '/' and the URL. */
  lemma ResolveShape(url: string)
    ensures StartsWith(url, "http") ==> Resolve(url) == url
    ensures !StartsWith(url, "http") ==>
      Resolve(url) == BaseUrl + "/" + (if StartsWith(url, "/") then url[1..] else url)
    ensures StartsWith(Resolve(url), "http")
  {
    if !StartsWith(url, "http") {
      if StartsWith(url, "/") {
        assert url == "/" + url[1..];
        AppendAssoc(BaseUrl, "/", url[1..]);
      }
      PrefixExtends("http", BaseUrl, "/" + (if StartsWith(url, "/") then url[1..] else url));
      AppendAssoc(BaseUrl, "/", if StartsWith(url, "/") then url[1..] else url);
    }
  }

  const DefaultAction: string := "/login"

  /** `login_url`: the form's action resolved, `/login` when it has none. */
  function LoginUrl(form: Form): string
  {
    Resolve(Attr(form.action, DefaultAction))
  }

  /** An input the scan takes for the user-name field. */
  predicate UsernameCandidate(inp: Input)
  {
    var t := Lower(Attr(inp.kind, ""));
    var n := Lower(Attr(inp.name, ""));
    t == "text" || HasSubstring(n, "user") || HasSubstring(n, "roll") || HasSubstring(n, "id")
  }

  /** An input the scan takes for the password field: only when it is not taken for the user name. */
  predicate PasswordCandidate(inp: Input)
  {
    var t := Lower(Attr(inp.kind, ""));
    var n := Lower(Attr(inp.name, ""));
    !UsernameCandidate(inp) && (t == "password" || HasSubstring(n, "pass") || HasSubstring(n, "pwd"))
  }

  /** The `name` of the last input satisfying p (None when no input does, or when that input has no name). */
  function FieldOf(inputs: seq<Input>, p: Input -> bool): Option<string>
  {
    match LastWhere(inputs, p)
      case Some(i) => inputs[i].name
      case None => None
  }

  lemma FieldOfSnoc(inputs: seq<Input>, k: nat, p: Input -> bool)
    requires k < |inputs|
    ensures FieldOf(inputs[..k + 1], p) == if p(inputs[k]) then inputs[k].name else FieldOf(inputs[..k], p)
  {
    LastWhereSnoc(inputs, k, p);
  }

  /** The scan that sets `username_field` and `password_field`, the later input winning. */
  method DetectFields(inputs: seq<Input>) returns (usernameField: Option<string>, passwordField: Option<string>)
    ensures usernameField == FieldOf(inputs, UsernameCandidate)
    ensures passwordField == FieldOf(inputs, PasswordCandidate)
  {
    usernameField, passwordField := None, None;
    for k := 0 to |inputs|
      invariant usernameField == FieldOf(inputs[..k], UsernameCandidate)
      invariant passwordField == FieldOf(inputs[..k], PasswordCandidate)
    {
      FieldOfSnoc(inputs, k, UsernameCandidate);
      FieldOfSnoc(inputs, k, PasswordCandidate);
      var inp := inputs[k];
      if UsernameCandidate(inp) {
        usernameField := inp.name;
      } else if PasswordCandidate(inp) {
        passwordField := inp.name;
      }
    }
    assert inputs[..|inputs|] == inputs;
  }

  /** The two fields never come from the same input. */
  lemma FieldsFromDifferentInputs(inputs: seq<Input>)
    ensures var u := LastWhere(inputs, UsernameCandidate); var p := LastWhere(inputs, PasswordCandidate);
      u.Some? && p.Some? ==> u.value != p.value
  {
  }

  /** The form's hidden inputs (`find_all('input', type='hidden')`). */
  function HiddenOnly(inp: Input): Option<Input>
  {
    if inp.kind == Some("hidden") then Some(inp) else None
  }

  function Hidden(inputs: seq<Input>): seq<Input>
  {
    FilterMap(inputs, HiddenOnly)
  }

  const NoFormText: string := "\U{274C} Cannot find login form. Website structure may have changed."
  const NoFieldsText: string := "\U{274C} Cannot identify login form fields. Please check website manually."
  const LoginFailedText: string := "\U{274C} Login failed. Please verify your MGIT username and password."

  /** The POST the script makes to log in. */
  datatype Post = Post(url: string, data: Dict<string>)

  /**
   * What `get_attendance` posts to log in, or the text it returns instead:
   * no form, or a field it cannot identify. The credentials come from
   * `os.environ.get` and may be None; `requests` leaves such fields out.
   */
  function Login(form: Option<Form>, username: Option<string>, password: Option<string>): Result<Post, string>
  {
    match form
      case None => Err(NoFormText)
      case Some(f) =>
        var u := FieldOf(f.inputs, UsernameCandidate);
        var p := FieldOf(f.inputs, PasswordCandidate);
        if !Truthy(u) || !Truthy(p) then Err(NoFieldsText)
        else Ok(Post(LoginUrl(f), Encoded(Put(Put(Lift(Fill([], Hidden(f.inputs))), u.value, username), p.value, password))))
  }

  /** The steps of `get_attendance` from the form to the POST. */
  method PrepareLogin(form: Option<Form>, username: Option<string>, password: Option<string>) returns (r: Result<Post, string>)
    ensures r == Login(form, username, password)
  {
    if form.None? {
      return Err(NoFormText);
    }
    var f := form.value;
    var formAction := Attr(f.action, DefaultAction);
    var loginUrl;
    if !StartsWith(formAction, "http") {
      loginUrl := if StartsWith(formAction, "/") then BaseUrl + formAction else BaseUrl + "/" + formAction;
    } else {
      loginUrl := formAction;
    }
    var loginData := FillNamed([], Hidden(f.inputs));
    var usernameField, passwordField := DetectFields(f.inputs);
    if !Truthy(usernameField) || !Truthy(passwordField) {
      return Err(NoFieldsText);
    }
    var withCreds := Lift(loginData);
    withCreds := Put(withCreds, usernameField.value, username);
    withCreds := Put(withCreds, passwordField.value, password);
    r := Ok(Post(loginUrl, Encoded(withCreds)));
  }

  /** The fixed refusals: no form, or no named user-name or password field. */
  lemma LoginRefusals(form: Option<Form>, username: Option<string>, password: Option<string>)
    ensures form.None? ==> Login(form, username, password) == Err(NoFormText)
    ensures form.Some? ==>
      (Login(form, username, password) == Err(NoFieldsText) <==>
         !Truthy(FieldOf(form.value.inputs, UsernameCandidate)) || !Truthy(FieldOf(form.value.inputs, PasswordCandidate)))
  {
  }

  /**
   * The password sits under the password field; the user name under the
   * user-name field unless both inputs share a name, where the password
   * wins; an unset credential is not posted; every other key holds the
   * last hidden input named by it.
   */
  lemma LoginDataFields(form: Option<Form>, username: Option<string>, password: Option<string>, key: string)
    requires Login(form, username, password).Ok?
    ensures var d := Login(form, username, password).value.data;
      var u := FieldOf(form.value.inputs, UsernameCandidate).value;
      var p := FieldOf(form.value.inputs, PasswordCandidate).value;
      var hidden := Hidden(form.value.inputs);
      DistinctKeys(d)
      && Get(d, p) == password
      && (u != p ==> Get(d, u) == username)
      && (key != u && key != p ==>
            Get(d, key) == match LastWhere(hidden, PostedUnder(key))
                             case Some(i) => Some(Attr(hidden[i].value, ""))
                             case None => None)
  {
    var f := form.value;
    var d0 := Fill([], Hidden(f.inputs));
    var u := FieldOf(f.inputs, UsernameCandidate).value;
    var p := FieldOf(f.inputs, PasswordCandidate).value;
    FillGet([], Hidden(f.inputs), key);
    AssignTwoEncoded(d0, u, username, p, password, key);
  }

  /** After the POST: still on a URL with "login" in it (any case) means the login failed. */
  function AfterLogin(finalUrl: string): Option<string>
  {
    if HasSubstring(Lower(finalUrl), "login") then Some(LoginFailedText) else None
  }

  lemma AfterLoginIff(finalUrl: string)
    ensures AfterLogin(finalUrl) == Some(LoginFailedText) <==> exists j :: OccursAt(Lower(finalUrl), "login", j)
    ensures AfterLogin(finalUrl).None? <==> forall j :: !OccursAt(Lower(finalUrl), "login", j)
  {
    HasSubstringIff(Lower(finalUrl), "login");
  }

  /**
   * The value of `\((\d+\.?\d*)\)` matched at s[i]: '(' then all the
   * digits there (at least one), then either ')' or '.', all the digits
   * after it, and ')'. Backtracking finds no other way to match.
   */
  function ParenAt(s: string, i: nat): Option<Decimal>
    requires i <= |s|
  {
    if i < |s| && s[i] == '(' then
      var a := DigitRun(s, i + 1, |s|);
      var j := i + 1 + a;
      if a == 0 || j == |s| then None
      else if s[j] == ')' then Some(Decimal(false, DigitsValue(s[i + 1..j]), 0))
      else if s[j] == '.' then
        var b := DigitRun(s, j + 1, |s|);
        var k := j + 1 + b;
        if k < |s| && s[k] == ')' then
          assert AllDigits(s[i + 1..j] + s[j + 1..k]);
          Some(Decimal(false, DigitsValue(s[i + 1..j] + s[j + 1..k]), b))
        else None
      else None
    else None
  }

  /** `re.search` of that pattern from i: the leftmost position where it matches. */
  function FirstParenFrom(s: string, i: nat): (r: Option<Decimal>)
    requires i <= |s|
    decreases |s| - i
    ensures r.None? ==> forall j | i <= j <= |s| :: ParenAt(s, j).None?
    ensures r.Some? ==> exists j | i <= j <= |s| :: r == ParenAt(s, j) && forall j' | i <= j' < j :: ParenAt(s, j').None?
  {
    if i == |s| then None
    else if ParenAt(s, i).Some? then ParenAt(s, i)
    else FirstParenFrom(s, i + 1)
  }

  /** The emoji of the overall percentage found in the attendance row's text, if any. */
  function OverallEmoji(rowText: string): Option<string>
  {
    match FirstParenFrom(rowText, 0)
      case Some(d) => Some(Tracker.Band(d))
      case None => None
  }

  /** A whole number in brackets gets its band: 75 and up, 65 and up, below. */
  lemma OverallEmojiWhole(rowText: string, digits: string)
    requires digits != [] && AllDigits(digits) && rowText == "(" + digits + ")"
    ensures var v := DigitsValue(digits);
      OverallEmoji(rowText) == Some(if v >= 75 then Tracker.Tick else if v >= 65 then Tracker.Warn else Tracker.Red)
  {
    var n := |digits|;
    assert forall k | 1 <= k < 1 + n :: rowText[k] == digits[k - 1];
    DigitRunIs(rowText, 1, |rowText|, n);
    assert rowText[1..1 + n] == digits;
    assert ParenAt(rowText, 0) == Some(Decimal(false, DigitsValue(digits), 0));
  }

  /** A row the subject filter keeps: the subject and the first later cell with '%' in it, if any. */
  datatype SubjectRow = SubjectRow(subject: string, percentage: Option<string>)

  const HeaderWords: seq<string> := ["subject", "course", "name"]

  /** The first cell at or after j whose stripped text contains '%'. */
  function FirstPercentCell(cols: seq<string>, j: nat): (r: Option<nat>)
    decreases |cols| - j
    ensures r.Some? ==>
      && j <= r.value < |cols| && '%' in Strip(cols[r.value])
      && forall c | j <= c < r.value :: '%' !in Strip(cols[c])
    ensures r.None? ==> forall c | j <= c < |cols| :: '%' !in Strip(cols[c])
  {
    if j >= |cols| then None
    else if '%' in Strip(cols[j]) then Some(j)
    else FirstPercentCell(cols, j + 1)
  }

  /** The percentage of a row: the text of the first cell after the subject with '%' in it. */
  function PercentageOf(cols: seq<string>): Option<string>
  {
    match FirstPercentCell(cols, 1)
      case Some(c) => Some(Strip(cols[c]))
      case None => None
  }

  /** The inner loop over `cols[1:]`, leaving at the first cell with '%'. */
  method FindPercentage(cols: seq<string>) returns (percentage: Option<string>)
    ensures percentage == PercentageOf(cols)
  {
    percentage := None;
    var c := 1;
    while c < |cols|
      invariant 1 <= c
      invariant FirstPercentCell(cols, 1) == FirstPercentCell(cols, c)
      decreases |cols| - c
    {
      var colText := Strip(cols[c]);
      if '%' in colText {
        percentage := Some(colText);
        return;
      }
      c := c + 1;
    }
  }

  /** A subject the filter skips: empty, or a header word in any case. */
  predicate HeaderLike(subject: string)
  {
    subject == "" || Lower(subject) in HeaderWords
  }

  /**
   * A row of three or more cells whose subject is neither empty nor a
   * header word, with its percentage; None for a row the loop skips.
   */
  function SubjectOf(cols: seq<string>): Option<SubjectRow>
  {
    if |cols| < 3 then None
    else
      var subject := Strip(cols[0]);
      if HeaderLike(subject) then None else Some(SubjectRow(subject, PercentageOf(cols)))
  }

  /** The rows after the first, filtered. */
  function SubjectRows(rows: seq<seq<string>>): seq<SubjectRow>
  {
    FilterMap(if rows == [] then [] else rows[1..], SubjectOf)
  }

  /** The loop over `rows[1:]`, with its inner search for a cell with '%'. */
  method ScanSubjects(rows: seq<seq<string>>) returns (found: seq<SubjectRow>)
    ensures found == SubjectRows(rows)
  {
    var body := if rows == [] then [] else rows[1..];
    found := [];
    for k := 0 to |body|
      invariant found == FilterMap(body[..k], SubjectOf)
    {
      FilterMapSnoc(body, k, SubjectOf);
      var cols := body[k];
      if |cols| < 3 {
        continue;
      }
      var subject := Strip(cols[0]);
      if HeaderLike(subject) {
        continue;
      }
      var percentage := FindPercentage(cols);
      found := found + [SubjectRow(subject, percentage)];
    }
    assert body[..|body|] == body;
  }

  /**
   * Every kept row is a row after the first with three or more cells and a
   * real subject, in table order, and every such row is kept.
   */
  lemma SubjectRowsFilter(rows: seq<seq<string>>) returns (idx: seq<nat>)
    ensures |idx| == |SubjectRows(rows)|
    ensures forall k | 0 <= k < |idx| ::
      1 <= idx[k] < |rows| && |rows[idx[k]]| >= 3
      && SubjectRows(rows)[k].subject == Strip(rows[idx[k]][0])
      && !HeaderLike(Strip(rows[idx[k]][0]))
    ensures forall k, k' | 0 <= k < k' < |idx| :: idx[k] < idx[k']
    ensures forall j | 1 <= j < |rows| && SubjectOf(rows[j]).Some? :: j in idx
  {
    var body := if rows == [] then [] else rows[1..];
    var p := FilterMapPositions(body, SubjectOf);
    idx := seq(|p|, k requires 0 <= k < |p| => p[k] + 1);
    forall j | 1 <= j < |rows| && SubjectOf(rows[j]).Some? ensures j in idx {
      assert body[j - 1] == rows[j];
      var k :| 0 <= k < |p| && p[k] == j - 1;
      assert idx[k] == j;
    }
  }

  /** A kept row's percentage is the first cell after the subject whose text has '%', or none when no cell has. */
  lemma PercentageIsFirst(cols: seq<string>)
    requires SubjectOf(cols).Some?
    ensures var pct := SubjectOf(cols).value.percentage;
      (pct.None? <==> forall c | 1 <= c < |cols| :: '%' !in Strip(cols[c]))
      && (pct.Some? ==> exists c | 1 <= c < |cols| ::
            pct.value == Strip(cols[c]) && '%' in pct.value && forall c' | 1 <= c' < c :: '%' !in Strip(cols[c']))
  {
    var f := FirstPercentCell(cols, 1);
    if f.Some? {
      var c := f.value;
      assert SubjectOf(cols).value.percentage == Some(Strip(cols[c]));
    }
  }
}
