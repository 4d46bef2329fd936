/**
 * `attendance_tracker.py`: the tracker object with its credential check,
 * the table rows turned into subject records, and the WhatsApp message
 * with greeting, per-subject emoji, overall percentage and the "classes
 * needed" alert.
 */
module Tracker {
  import opened Wrappers
  import opened Text
  import opened Collections
  import opened PyNumbers

  const TrackerVars: seq<string> :=
    ["MGIT_USERNAME", "MGIT_PASSWORD", "TWILIO_ACCOUNT_SID", "TWILIO_AUTH_TOKEN", "TWILIO_WHATSAPP_NUMBER", "MY_WHATSAPP_NUMBER"]

  /** The required variables that are unset or empty, in declared order. */
  function MissingVars(env: map<string, string>): seq<string>
  {
    FilterMap(TrackerVars, IfAbsent(env))
  }

  /** The list comprehension's filter: a name is kept when its variable is absent. */
  function IfAbsent(env: map<string, string>): string -> Option<string>
  {
    (name: string) => if Present(env, name) then None else Some(name)
  }

  /** The ValueError text. */
  function MissingMessage(missing: seq<string>): string
  {
    "Missing environment variables: " + Join(missing, ", ")
  }

  /** Exactly the absent variables are listed, each once, in the order they are declared. */
  lemma MissingVarsListed(env: map<string, string>) returns (idx: seq<nat>)
    ensures |idx| == |MissingVars(env)|
    ensures forall k | 0 <= k < |idx| :: idx[k] < |TrackerVars| && TrackerVars[idx[k]] == MissingVars(env)[k]
    ensures forall k | 0 <= k < |idx| :: !Present(env, MissingVars(env)[k])
    ensures forall k, k' | 0 <= k < k' < |idx| :: idx[k] < idx[k']
    ensures forall j | 0 <= j < |TrackerVars| && !Present(env, TrackerVars[j]) :: j in idx
  {
    idx := FilterMapPositions(TrackerVars, IfAbsent(env));
  }

  /** One subject's row. */
  datatype Record = Record(subject: string, present: string, total: string, percentage: string)

  /** A row of cell texts becomes a record when it has three cells and none of the first three is blank. */
  function RowRecord(cols: seq<string>): (r: Option<Record>)
    ensures r.Some? <==> |cols| >= 3 && Strip(cols[0]) != "" && Strip(cols[1]) != "" && Strip(cols[2]) != ""
    ensures r.Some? ==> r.value.subject == Strip(cols[0]) && r.value.present == Strip(cols[1]) && r.value.total == Strip(cols[2])
    ensures r.Some? ==> r.value.percentage == if |cols| > 3 then Strip(cols[3]) else "N/A"
  {
    if |cols| < 3 then None
    else
      var subject := Strip(cols[0]);
      var present := Strip(cols[1]);
      var total := Strip(cols[2]);
      var percentage := if |cols| > 3 then Strip(cols[3]) else "N/A";
      if subject != "" && present != "" && total != "" then Some(Record(subject, present, total, percentage)) else None
  }

  /** The rows after the header row. */
  function Body(rows: seq<seq<string>>): seq<seq<string>>
  {
    if rows == [] then [] else rows[1..]
  }

  function Records(rows: seq<seq<string>>): seq<Record>
  {
    FilterMap(Body(rows), RowRecord)
  }

  /** What `get_attendance` returns for a table (None when the page has no table). */
  function Attendance(table: Option<seq<seq<string>>>): Option<seq<Record>>
  {
    match table
      case None => None
      case Some(rows) => if Records(rows) == [] then None else Some(Records(rows))
  }

  /**
   * Every record comes from a row after the header, in row order; every
   * such row with three non-blank leading cells gives one; and no records
   * means None, never an empty list.
   */
  lemma AttendanceRows(rows: seq<seq<string>>) returns (idx: seq<nat>)
    ensures Attendance(Some(rows)).Some? ==> Attendance(Some(rows)).value != []
    ensures Body(rows) == if rows == [] then [] else rows[1..]
    ensures |idx| == |Records(rows)|
    ensures forall k | 0 <= k < |idx| :: idx[k] < |Body(rows)| && RowRecord(Body(rows)[idx[k]]) == Some(Records(rows)[k])
    ensures forall k, k' | 0 <= k < k' < |idx| :: idx[k] < idx[k']
    ensures forall j | 0 <= j < |Body(rows)| && RowRecord(Body(rows)[j]).Some? :: j in idx
  {
    idx := FilterMapPositions(Body(rows), RowRecord);
  }

  const CrossMark: char := '\U{274C}'
  const ErrorText: string := [CrossMark] + " Unable to fetch attendance data from MGIT portal"
  const Rule: string := "=============================="
  const Footer: string := "\n_Powered by MGIT Tracker_ \U{1F916}"

  const Tick: string := "\U{2705}"
  const Warn: string := "\U{26A0}\U{FE0F}"
  const Red: string := "\U{1F534}"
  const Chart: string := "\U{1F4CA}"

  function Greeting(hour: int): string
  {
    if hour < 12 then "Good Morning! \U{1F305}"
    else if hour < 17 then "Good Afternoon! \U{2600}\U{FE0F}"
    else "Good Evening! \U{1F306}"
  }

  /** The band of a percentage: 75 and up, 65 and up, or below. */
  function Band(d: Decimal): (r: string)
    ensures r == Tick <==> AtLeast(d, 75)
    ensures r == Warn <==> !AtLeast(d, 75) && AtLeast(d, 65)
    ensures r == Red <==> !AtLeast(d, 65)
  {
    if AtLeast(d, 75) then Tick else if AtLeast(d, 65) then Warn else Red
  }

  /** The emoji for a percentage text: its band, or the chart when it is not a number. */
  function Emoji(percentage: string): string
  {
    match ParseFloat(RStripChar(percentage, '%'))
      case None => Chart
      case Some(d) => Band(d)
  }

  /** For a whole-number percentage the thresholds are 75 and 65, inclusive. */
  lemma EmojiOfWhole(digits: string)
    requires digits != [] && AllDigits(digits)
    ensures var v := DigitsValue(digits);
      Emoji(digits + "%") == if v >= 75 then Tick else if v >= 65 then Warn else Red
  {
    RStripExact(digits, "%", '%');
    ParseFloatDigits(digits);
  }

  /**
   * For a decimal percentage a.b% the thresholds compare the digits of
   * a and b, read as one number, with 75 and 65 scaled by the digits
   * after the point.
   */
  lemma EmojiOfDecimal(a: string, b: string)
    requires AllDigits(a) && AllDigits(b) && |a| + |b| >= 1
    ensures var v := DigitsValue(a + b); var u := Pow10(|b|);
      Emoji(a + "." + b + "%") == if v >= 75 * u then Tick else if v >= 65 * u then Warn else Red
  {
    var t := a + "." + b;
    assert t[|t| - 1] != '%';
    RStripExact(t, "%", '%');
    ParseFloatPoint(a, b);
  }

  /** Text that does not read as a number gets the chart emoji. */
  lemma EmojiUnparsable(percentage: string)
    requires ParseFloat(RStripChar(percentage, '%')).None?
    ensures Emoji(percentage) == Chart
  {
  }

  /** The lines after the greeting: title, time stamp, rule. */
  function HeaderTail(stamp: string): string
  {
    "\U{1F4DA} *MGIT Attendance Update*\n" + "\U{1F4C5} " + stamp + "\n" + Rule + "\n\n"
  }

  function Header(hour: int, stamp: string): string
  {
    Greeting(hour) + "\n\n" + HeaderTail(stamp)
  }

  function SubjectBlock(item: Record): string
  {
    Emoji(item.percentage) + " *" + item.subject + "*\n"
    + "   Classes: " + item.present + "/" + item.total + "\n"
    + "   Percentage: " + item.percentage + "\n\n"
  }

  /** The subject blocks, in record order. */
  function Blocks(items: seq<Record>): (r: seq<string>)
    ensures |r| == |items| && forall k | 0 <= k < |items| :: r[k] == SubjectBlock(items[k])
  {
    seq(|items|, k requires 0 <= k < |items| => SubjectBlock(items[k]))
  }

  /** `sum(...)` over values already read by `int()`: None as soon as one of them raised. */
  function SumInts(vals: seq<Option<int>>): Option<int>
  {
    if vals == [] then Some(0)
    else match SumInts(vals[..|vals| - 1])
      case None => None
      case Some(s) =>
        match vals[|vals| - 1]
          case None => None
          case Some(v) => Some(s + v)
  }

  /** The sum exists exactly when every value is an integer. */
  lemma {:induction false} SumIntsDefined(vals: seq<Option<int>>)
    ensures SumInts(vals).Some? <==> forall k | 0 <= k < |vals| :: vals[k].Some?
  {
    if vals != [] {
      var n := |vals| - 1;
      SumIntsDefined(vals[..n]);
      assert forall k | 0 <= k < n :: vals[..n][k] == vals[k];
    }
  }

  /** `int(item['present'])` for each item. */
  function Presents(items: seq<Record>): (r: seq<Option<int>>)
    ensures |r| == |items| && forall k | 0 <= k < |items| :: r[k] == ParseInt(items[k].present)
  {
    seq(|items|, k requires 0 <= k < |items| => ParseInt(items[k].present))
  }

  /** `int(item['total'])` for each item. */
  function Totals(items: seq<Record>): (r: seq<Option<int>>)
    ensures |r| == |items| && forall k | 0 <= k < |items| :: r[k] == ParseInt(items[k].total)
  {
    seq(|items|, k requires 0 <= k < |items| => ParseInt(items[k].total))
  }

  /** Python's `int(x / y)`: the quotient truncated toward zero. */
  function TruncDiv(x: int, y: int): int
    requires y > 0
  {
    if x >= 0 then x / y else -((-x) / y)
  }

  /**
   * `int((0.75 * total - present) / 0.25) + 1`: attending that many more
   * classes, all present, lifts the ratio to at least 75%.
   */
  function ClassesNeeded(present: int, total: int): (n: int)
    ensures n == 3 * total - 4 * present + 1
    ensures 4 * (present + n) >= 3 * (total + n)
  {
    TruncDiv(75 * total - 100 * present, 25) + 1
  }

  /** One class fewer than the alert asks for already reaches exactly 75%. */
  lemma OneFewerReaches(present: int, total: int)
    requires total > 0 && 4 * present < 3 * total
    ensures var n := ClassesNeeded(present, total);
      n >= 2 && 4 * (present + n - 1) == 3 * (total + n - 1)
  {
  }

  /** `f"{present / total * 100:.2f}"`, or `0.00` when there are no classes; exact, rounded half up. */
  function OverallText(present: int, total: int): (r: string)
  {
    if total <= 0 then "0.00"
    else
      var mag := if present < 0 then -present else present;
      (if present < 0 then "-" else "") + Fixed2((20000 * mag + total) / (2 * total))
  }

  /** Below 75% (a total of zero or less reads as 0%). */
  predicate Below75(present: int, total: int) { total <= 0 || 4 * present < 3 * total }

  /** At least 90%. */
  predicate AtLeast90(present: int, total: int) { total > 0 && 10 * present >= 9 * total }

  /** The line of the alert that names the number of classes. */
  function NeedText(n: int): string
  {
    "Need " + IntStr(n) + " more classes to reach 75%\n"
  }

  function AlertText(present: int, total: int): string
  {
    if Below75(present, total) then
      "\n\U{26A0}\U{FE0F} *Alert:* Below 75%!\n" + NeedText(ClassesNeeded(present, total))
    else if AtLeast90(present, total) then "\n\U{1F389} Excellent attendance! Keep it up!\n"
    else ""
  }

  /** The overall block; empty when some count is not an integer, since the sums raise before anything is added. */
  function Overall(items: seq<Record>): string
  {
    match (SumInts(Presents(items)), SumInts(Totals(items)))
      case (Some(p), Some(t)) => OverallBlock(p, t)
      case _ => ""
  }

  /** The rule, the overall percentage line and the alert, for summed counts. */
  function OverallBlock(p: int, t: int): string
  {
    Rule + "\n" + "\U{1F4CA} *Overall Attendance: " + OverallText(p, t) + "%*\n" + AlertText(p, t)
  }

  /** What `format_message` returns at the given hour and time stamp. */
  function Message(data: Option<seq<Record>>, hour: int, stamp: string): string
  {
    if data.None? || data.value == [] then ErrorText
    else Header(hour, stamp) + Concat(Blocks(data.value)) + Overall(data.value) + Footer
  }

  lemma ErrorTextStart()
    ensures |ErrorText| > 0 && ErrorText[0] == CrossMark
  {
  }

  lemma GreetingStart(hour: int)
    ensures |Greeting(hour)| > 0 && Greeting(hour)[0] == 'G'
  {
  }

  /** A text that starts with g differs from every text whose first character is not g's. */
  lemma PrefixesDiffer(m: string, g: string, e: string)
    requires g != [] && StartsWith(m, g) && e != [] && e[0] != g[0]
    ensures m != e
  {
    assert m[0] == m[..|g|][0];
  }

  /** The fixed error text comes back exactly when there are no records; a report always opens with a greeting. */
  lemma MessageErrorIff(data: Option<seq<Record>>, hour: int, stamp: string)
    ensures Message(data, hour, stamp) == ErrorText <==> data.None? || data.value == []
  {
    if data.Some? && data.value != [] {
      MessageGreets(data.value, hour, stamp);
      GreetingStart(hour);
      ErrorTextStart();
      PrefixesDiffer(Message(data, hour, stamp), Greeting(hour) + "\n\n", ErrorText);
    }
  }

  lemma MessageParts(items: seq<Record>, hour: int, stamp: string)
    requires items != []
    ensures Message(Some(items), hour, stamp) == Header(hour, stamp) + Concat(Blocks(items)) + Overall(items) + Footer
  {
  }

  /** The message for some records opens with the greeting for the hour. */
  lemma MessageGreets(items: seq<Record>, hour: int, stamp: string)
    requires items != []
    ensures StartsWith(Message(Some(items), hour, stamp), Greeting(hour) + "\n\n")
  {
    var g := Greeting(hour) + "\n\n";
    var h := Header(hour, stamp);
    var b := Concat(Blocks(items));
    var o := Overall(items);
    assert StartsWith(g, g);
    PrefixExtends(g, g, HeaderTail(stamp));
    PrefixExtends(g, h, b);
    PrefixExtends(g, h + b, o);
    PrefixExtends(g, h + b + o, Footer);
  }

  /** Every record's block occurs in the message, after the header. */
  lemma MessageHoldsBlock(items: seq<Record>, hour: int, stamp: string, k: nat) returns (off: nat)
    requires k < |items|
    ensures |Header(hour, stamp)| <= off
    ensures OccursAt(Message(Some(items), hour, stamp), Blocks(items)[k], off)
  {
    MessageParts(items, hour, stamp);
    off := PartOccurs(Message(Some(items), hour, stamp), Header(hour, stamp), Blocks(items), Overall(items), Footer, k);
  }

  /** When some count is not an integer, only the overall block is dropped. */
  lemma MessageWithoutOverall(items: seq<Record>, hour: int, stamp: string, j: nat)
    requires j < |items| && (ParseInt(items[j].present).None? || ParseInt(items[j].total).None?)
    ensures Message(Some(items), hour, stamp) == Header(hour, stamp) + Concat(Blocks(items)) + Footer
  {
    SumIntsDefined(Presents(items));
    SumIntsDefined(Totals(items));
    assert Presents(items)[j].None? || Totals(items)[j].None?;
    assert Overall(items) == "";
    MessageParts(items, hour, stamp);
    AppendEmpty(Header(hour, stamp) + Concat(Blocks(items)));
  }

  /** When the counts are integers and below 75%, the alert closes with a number of classes that suffices. */
  lemma AlertSuffices(items: seq<Record>, p: int, t: int)
    requires SumInts(Presents(items)) == Some(p) && SumInts(Totals(items)) == Some(t)
    requires t > 0 && 4 * p < 3 * t
    ensures var n := ClassesNeeded(p, t);
      n >= 1 && 4 * (p + n) >= 3 * (t + n) && EndsWith(Overall(items), NeedText(n))
  {
    var n := ClassesNeeded(p, t);
    var need := NeedText(n);
    var lead := "\n\U{26A0}\U{FE0F} *Alert:* Below 75%!\n";
    var ob := Rule + "\n" + "\U{1F4CA} *Overall Attendance: " + OverallText(p, t) + "%*\n";
    assert EndsWith(need, need);
    SuffixExtends(lead, need, need);
    assert AlertText(p, t) == lead + need;
    SuffixExtends(ob, AlertText(p, t), need);
    assert Overall(items) == ob + AlertText(p, t);
  }

  /** The tracker object, its settings taken from the environment when it is built. */
  class MGITAttendanceTracker {
    const baseUrl: string
    var username: string
    var password: string
    var twilioSid: string
    var twilioToken: string
    var twilioWhatsapp: string
    var myWhatsapp: string

    constructor (u: string, p: string, sid: string, token: string, from: string, to: string)
      ensures baseUrl == "https://mgit.winnou.net"
      ensures username == u && password == p && twilioSid == sid && twilioToken == token
      ensures twilioWhatsapp == from && myWhatsapp == to
    {
      baseUrl := "https://mgit.winnou.net";
      username, password, twilioSid, twilioToken, twilioWhatsapp, myWhatsapp := u, p, sid, token, from, to;
    }

    /** `MGITAttendanceTracker()`: a ValueError naming every missing variable, or the object. */
    static method Create(env: map<string, string>) returns (r: Result<MGITAttendanceTracker, string>)
      ensures r.Err? <==> MissingVars(env) != []
      ensures r.Err? ==> r.error == MissingMessage(MissingVars(env))
      ensures r.Ok? ==> fresh(r.value) && forall k | 0 <= k < |TrackerVars| :: Present(env, TrackerVars[k])
      ensures r.Ok? ==>
        (&& "MGIT_USERNAME" in env && r.value.username == env["MGIT_USERNAME"]
         && "MGIT_PASSWORD" in env && r.value.password == env["MGIT_PASSWORD"]
         && "TWILIO_ACCOUNT_SID" in env && r.value.twilioSid == env["TWILIO_ACCOUNT_SID"]
         && "TWILIO_AUTH_TOKEN" in env && r.value.twilioToken == env["TWILIO_AUTH_TOKEN"]
         && "TWILIO_WHATSAPP_NUMBER" in env && r.value.twilioWhatsapp == env["TWILIO_WHATSAPP_NUMBER"]
         && "MY_WHATSAPP_NUMBER" in env && r.value.myWhatsapp == env["MY_WHATSAPP_NUMBER"])
    {
      var missing: seq<string> := [];
      for k := 0 to |TrackerVars|
        invariant missing == FilterMap(TrackerVars[..k], IfAbsent(env))
      {
        FilterMapSnoc(TrackerVars, k, IfAbsent(env));
        if !Present(env, TrackerVars[k]) {
          missing := missing + [TrackerVars[k]];
        }
      }
      assert TrackerVars[..|TrackerVars|] == TrackerVars;
      if missing != [] {
        return Err(MissingMessage(missing));
      }
      var idx := MissingVarsListed(env);
      assert forall j | 0 <= j < |TrackerVars| :: Present(env, TrackerVars[j]);
      assert Present(env, TrackerVars[0]) && Present(env, TrackerVars[1]) && Present(env, TrackerVars[2]);
      assert Present(env, TrackerVars[3]) && Present(env, TrackerVars[4]) && Present(env, TrackerVars[5]);
      var t := new MGITAttendanceTracker(env["MGIT_USERNAME"], env["MGIT_PASSWORD"], env["TWILIO_ACCOUNT_SID"],
        env["TWILIO_AUTH_TOKEN"], env["TWILIO_WHATSAPP_NUMBER"], env["MY_WHATSAPP_NUMBER"]);
      r := Ok(t);
    }

    /** The row loop of `get_attendance`, once the page's table (if any) has been found. */
    method GetAttendance(table: Option<seq<seq<string>>>) returns (r: Option<seq<Record>>)
      ensures r == Attendance(table)
    {
      if table.None? {
        return None;
      }
      var rows := Body(table.value);
      var data: seq<Record> := [];
      for k := 0 to |rows|
        invariant data == FilterMap(rows[..k], RowRecord)
      {
        FilterMapSnoc(rows, k, RowRecord);
        var cols := rows[k];
        if |cols| >= 3 {
          var subject := Strip(cols[0]);
          var present := Strip(cols[1]);
          var total := Strip(cols[2]);
          var percentage := if |cols| > 3 then Strip(cols[3]) else "N/A";
          if subject != "" && present != "" && total != "" {
            data := data + [Record(subject, present, total, percentage)];
          }
        }
      }
      assert rows[..|rows|] == rows;
      if data != [] {
        return Some(data);
      }
      return None;
    }

    /** `format_message`, with the clock read as `hour` and `stamp`. */
    method FormatMessage(data: Option<seq<Record>>, hour: int, stamp: string) returns (message: string)
      ensures message == Message(data, hour, stamp)
    {
      if data.None? || data.value == [] {
        return ErrorText;
      }
      var items := data.value;
      ghost var bs := Blocks(items);
      var head := Header(hour, stamp);
      message := head;
      for k := 0 to |items|
        invariant message == head + Concat(bs[..k])
      {
        ConcatSnoc(bs, k);
        AppendAssoc(head, Concat(bs[..k]), bs[k]);
        message := message + SubjectBlock(items[k]);
      }
      assert bs[..|items|] == bs;
      message := message + Overall(items);
      message := message + Footer;
    }
  }
}
