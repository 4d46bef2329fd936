/**
 * attendance_bot.py: the login payload built from the login page's inputs,
 * the guess at which of its keys take the credentials, the first number of
 * the dashboard's text reported as the attendance, and the message `main`
 * hands to Twilio.
 */
module Bot {
  import opened Wrappers
  import opened Text
  import opened Numeric
  import opened Collections
  import opened Forms

  /** A key that looks like the user-name field. */
  predicate IsUserKey(k: string)
  {
    var l := Lower(k);
    HasSubstring(l, "user") || HasSubstring(l, "email") || HasSubstring(l, "roll")
  }

  /** A key that looks like the password field. */
  predicate IsPassKey(k: string)
  {
    HasSubstring(Lower(k), "pass")
  }

  /** The last key satisfying p, if any: what a loop that reassigns the field on every hit ends with. */
  function LastKey(keys: seq<string>, p: string -> bool): Option<string>
  {
    match LastWhere(keys, p)
      case Some(i) => Some(keys[i])
      case None => None
  }

  /** One step of that loop. */
  lemma LastKeySnoc(keys: seq<string>, k: nat, p: string -> bool)
    requires k < |keys|
    ensures LastKey(keys[..k + 1], p) == if p(keys[k]) then Some(keys[k]) else LastKey(keys[..k], p)
  {
    LastWhereSnoc(keys, k, p);
  }

  /**
   * The field a scan over the keys settles on: the last key satisfying p,
   * or the default when no key does.
   */
  function LastKeyOr(keys: seq<string>, p: string -> bool, default: string): (r: string)
    ensures (forall j | 0 <= j < |keys| :: !p(keys[j])) ==> r == default
    ensures (exists j | 0 <= j < |keys| :: p(keys[j])) ==>
      exists i | 0 <= i < |keys| :: r == keys[i] && p(keys[i]) && forall j | i < j < |keys| :: !p(keys[j])
  {
    match LastKey(keys, p)
      case Some(k) => k
      case None => default
  }

  /** A key with "user" or "pass" in it is never empty, so `if not field` only catches "no key found". */
  lemma MatchingKeyNonEmpty(k: string)
    requires IsUserKey(k) || IsPassKey(k)
    ensures k != ""
  {
  }

  /** `user_field` and `pass_field` after the scan over the payload's keys and the defaults. */
  method DetectFields(keys: seq<string>) returns (userField: string, passField: string)
    ensures userField == LastKeyOr(keys, IsUserKey, "username")
    ensures passField == LastKeyOr(keys, IsPassKey, "password")
  {
    var user: Option<string> := None;
    var pass: Option<string> := None;
    for k := 0 to |keys|
      invariant user == LastKey(keys[..k], IsUserKey)
      invariant pass == LastKey(keys[..k], IsPassKey)
    {
      LastKeySnoc(keys, k, IsUserKey);
      LastKeySnoc(keys, k, IsPassKey);
      if IsUserKey(keys[k]) {
        user := Some(keys[k]);
      }
      if IsPassKey(keys[k]) {
        pass := Some(keys[k]);
      }
    }
    assert keys[..|keys|] == keys;
    if user.Some? {
      MatchingKeyNonEmpty(user.value);
    }
    if pass.Some? {
      MatchingKeyNonEmpty(pass.value);
    }
    userField := if user.None? || user.value == "" then "username" else user.value;
    passField := if pass.None? || pass.value == "" then "password" else pass.value;
  }

  /**
   * The payload posted to the login URL: the named inputs, then the
   * credentials under the detected keys. The credentials come from
   * `os.getenv` and may be None; `requests` leaves such fields out.
   */
  function LoginPayload(inputs: seq<Input>, user: Option<string>, pass: Option<string>): Dict<string>
  {
    var p := Fill([], inputs);
    var keys := Keys(p);
    Encoded(Put(Put(Lift(p), LastKeyOr(keys, IsUserKey, "username"), user), LastKeyOr(keys, IsPassKey, "password"), pass))
  }

  /** Steps 2 and 3 of `get_attendance`: fill the payload, detect the fields, insert the credentials, encode. */
  method BuildPayload(inputs: seq<Input>, user: Option<string>, pass: Option<string>) returns (payload: Dict<string>)
    ensures payload == LoginPayload(inputs, user, pass)
  {
    var filled := FillNamed([], inputs);
    var userField, passField := DetectFields(Keys(filled));
    var withCreds := Lift(filled);
    withCreds := Put(withCreds, userField, user);
    withCreds := Put(withCreds, passField, pass);
    payload := Encoded(withCreds);
  }

  /**
   * The password sits under the password field; the user name under the
   * user field unless the two are the same key, where the password wins;
   * an unset credential is not posted at all; every other key keeps the
   * value of the last input named by it.
   */
  lemma PayloadFields(inputs: seq<Input>, user: Option<string>, pass: Option<string>, key: string)
    ensures var p := LoginPayload(inputs, user, pass);
      var keys := Keys(Fill([], inputs));
      var uf := LastKeyOr(keys, IsUserKey, "username");
      var pf := LastKeyOr(keys, IsPassKey, "password");
      DistinctKeys(p)
      && Get(p, pf) == pass
      && (uf != pf ==> Get(p, uf) == user)
      && (key != uf && key != pf ==>
            Get(p, key) == match LastWhere(inputs, PostedUnder(key))
                             case Some(i) => Some(Attr(inputs[i].value, ""))
                             case None => None)
  {
    var p0 := Fill([], inputs);
    var keys := Keys(p0);
    var uf := LastKeyOr(keys, IsUserKey, "username");
    var pf := LastKeyOr(keys, IsPassKey, "password");
    FillGet([], inputs, key);
    AssignTwoEncoded(p0, uf, user, pf, pass, key);
  }

  const NotFound: string := "Not Found"

  /**
   * Step 5 of `get_attendance`: `re.search(r"(\d{1,3}(?:\.\d{1,2})?)\s*%?")`
   * always matches at the first digit, so the group is the greedy token
   * there; it is reported with '%' appended, whatever its size.
   */
  function ExtractAttendance(text: string): string
  {
    match FirstDigitFrom(text, 0)
      case None => NotFound
      case Some(i) => NumberText(text, TokenAt(text, i, i)) + "%"
  }

  /**
   * "Not Found" exactly when the text has no digit; otherwise the token at
   * the first digit followed by '%'.
   */
  lemma ExtractFirstToken(text: string, i: nat)
    requires i < |text| && IsDigit(text[i]) && forall j | 0 <= j < i :: !IsDigit(text[j])
    ensures ExtractAttendance(text) == NumberText(text, TokenAt(text, i, i)) + "%"
    ensures ExtractAttendance(text) != NotFound
  {
    var r := ExtractAttendance(text);
    assert FirstDigitFrom(text, 0) == Some(i);
    assert r[|r| - 1] == '%';
  }

  lemma ExtractNoDigit(text: string)
    requires forall j | 0 <= j < |text| :: !IsDigit(text[j])
    ensures ExtractAttendance(text) == NotFound
  {
  }

  /** No range check: three digits are reported as they stand, "999" as "999%". */
  lemma ExtractNoRangeCheck(text: string)
    requires |text| == 3 && AllDigits(text)
    ensures ExtractAttendance(text) == text + "%"
  {
    assert FirstDigitFrom(text, 0) == Some(0);
    DigitRunIs(text, 0, 3, 3);
    var m := TokenAt(text, 0, 0);
    assert m.ilen == 3 && m.flen == 0;
    assert text[0..3] == text;
  }

  const Lead: string := "\U{1F4E2} College Attendance Update\nYour current attendance is: "
  const Closing: string := "\n\U{1F552} Have a great day!"

  /** The text `send_whatsapp_message` sends. */
  function Message(attendance: string): string
  {
    Lead + attendance + Closing
  }

  /**
   * `main`: the message handed to Twilio, or nothing when fetching the
   * attendance raised (the error is printed and swallowed). `fetched` is
   * the dashboard text `get_attendance` reads, or the error it raised.
   */
  function Run(fetched: Result<string, string>): Option<string>
  {
    match fetched
      case Ok(text) => Some(Message(ExtractAttendance(text)))
      case Err(_) => None
  }

  /** A message goes out exactly when the fetch succeeded, and it carries the extracted value between the fixed lines. */
  lemma RunReports(fetched: Result<string, string>)
    ensures Run(fetched).Some? <==> fetched.Ok?
    ensures fetched.Ok? ==>
      var m := Run(fetched).value; var a := ExtractAttendance(fetched.value);
      StartsWith(m, Lead) && EndsWith(m, Closing) && m[|Lead|..|m| - |Closing|] == a
  {
    if fetched.Ok? {
      var m := Run(fetched).value;
      var a := ExtractAttendance(fetched.value);
      assert m == Lead + a + Closing;
      assert m[..|Lead|] == Lead;
      assert m[|m| - |Closing|..] == Closing;
      assert m[|Lead|..|m| - |Closing|] == a;
    }
  }
}
