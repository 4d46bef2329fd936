/**
 * scrape_and_notify.py: the items read from the attendance table (or,
 * failing that, from the summary elements), the message listing the first
 * ten of them, and the run that sends it only when the snapshot's hash
 * differs from the one cached after the last successful send.
 */
module Notify {
  import opened Wrappers
  import opened Text
  import opened Collections
  import opened Messaging

  /** One entry of `items`: a table row, or a summary item. */
  datatype Item =
    | Row(subject: string, present: string, total: string, percent: string)
    | Summary(subject: string, value: string)

  /** The dictionary `scrape_attendance` returns. */
  datatype Snapshot = Snapshot(scrapedAt: string, items: seq<Item>)

  /** A table row's cells: three or more give a row item, the fourth (if any) its percent. */
  function RowItem(cols: seq<string>): (r: Option<Item>)
    ensures r.Some? <==> |cols| >= 3
    ensures r.Some? ==>
      && r.value.Row? && r.value.subject == Strip(cols[0])
      && r.value.present == Strip(cols[1]) && r.value.total == Strip(cols[2])
      && r.value.percent == (if |cols| > 3 then Strip(cols[3]) else "")
  {
    if |cols| < 3 then None
    else Some(Row(Strip(cols[0]), Strip(cols[1]), Strip(cols[2]), if |cols| > 3 then Strip(cols[3]) else ""))
  }

  /** A summary element: the texts of its `.title` and `.value` children, None when one is missing. */
  datatype SummaryElem = SummaryElem(title: Option<string>, value: Option<string>)

  /** The summary items; None when some element lacks a child, where the script raises. */
  function SummaryItems(elems: seq<SummaryElem>): (r: Option<seq<Item>>)
    ensures r.Some? <==> forall j | 0 <= j < |elems| :: elems[j].title.Some? && elems[j].value.Some?
    ensures r.Some? ==> |r.value| == |elems| && forall j | 0 <= j < |elems| ::
      r.value[j] == Summary(Strip(elems[j].title.value), Strip(elems[j].value.value))
  {
    if elems == [] then Some([])
    else
      var e := elems[|elems| - 1];
      match SummaryItems(elems[..|elems| - 1])
        case None => None
        case Some(init) =>
          if e.title.Some? && e.value.Some?
          then Some(init + [Summary(Strip(e.title.value), Strip(e.value.value))])
          else None
  }

  /** The items: the table's rows, or the summary items when the table gave none. */
  function Items(rows: seq<seq<string>>, elems: seq<SummaryElem>): Option<seq<Item>>
  {
    var subjects := FilterMap(rows, RowItem);
    if subjects != [] then Some(subjects) else SummaryItems(elems)
  }

  /** The two loops of `scrape_attendance` that build `subjects`. */
  method ScrapeItems(rows: seq<seq<string>>, elems: seq<SummaryElem>) returns (r: Option<seq<Item>>)
    ensures r == Items(rows, elems)
  {
    var subjects: seq<Item> := [];
    for k := 0 to |rows|
      invariant subjects == FilterMap(rows[..k], RowItem)
    {
      FilterMapSnoc(rows, k, RowItem);
      var cols := rows[k];
      if |cols| < 3 {
        continue;
      }
      var percent := if |cols| > 3 then Strip(cols[3]) else "";
      subjects := subjects + [Row(Strip(cols[0]), Strip(cols[1]), Strip(cols[2]), percent)];
    }
    assert rows[..|rows|] == rows;
    if subjects == [] {
      for k := 0 to |elems|
        invariant SummaryItems(elems[..k]) == Some(subjects)
      {
        assert elems[..k + 1][..k] == elems[..k];
        var e := elems[k];
        if e.title.None? || e.value.None? {
          return None;
        }
        subjects := subjects + [Summary(Strip(e.title.value), Strip(e.value.value))];
      }
      assert elems[..|elems|] == elems;
    }
    r := Some(subjects);
  }

  /**
   * The table decides when one of its rows has three cells, and the
   * summary elements are read only when none has.
   */
  lemma SummaryOnlyWithoutTable(rows: seq<seq<string>>, elems: seq<SummaryElem>)
    ensures (exists j | 0 <= j < |rows| :: |rows[j]| >= 3) ==>
      Items(rows, elems) == Some(FilterMap(rows, RowItem)) && FilterMap(rows, RowItem) != []
    ensures (forall j | 0 <= j < |rows| :: |rows[j]| < 3) ==> Items(rows, elems) == SummaryItems(elems)
  {
    FilterMapEmpty(rows, RowItem);
  }

  /** Each table item comes from its own row of three or more cells, in row order, and every such row gives one. */
  lemma TableItems(rows: seq<seq<string>>) returns (idx: seq<nat>)
    ensures |idx| == |FilterMap(rows, RowItem)|
    ensures forall k | 0 <= k < |idx| ::
      idx[k] < |rows| && |rows[idx[k]]| >= 3 && Some(FilterMap(rows, RowItem)[k]) == RowItem(rows[idx[k]])
    ensures forall k, k' | 0 <= k < k' < |idx| :: idx[k] < idx[k']
    ensures forall j | 0 <= j < |rows| && |rows[j]| >= 3 :: j in idx
  {
    idx := FilterMapPositions(rows, RowItem);
  }

  /** The message's first line. */
  function Header(scrapedAt: string): string
  {
    "Attendance update (" + scrapedAt + ")"
  }

  /** An item's line: percent and counts when the percent is non-empty, else the summary value, else the counts. */
  function ItemLine(it: Item): string
  {
    match it
      case Row(s, p, t, pc) => if pc != "" then s + ": " + pc + " (" + p + "/" + t + ")" else s + ": " + p + "/" + t
      case Summary(s, v) => s + ": " + v
  }

  /** At most ten items are listed. */
  const Limit: nat := 10

  function Min(a: nat, b: nat): nat { if a <= b then a else b }

  /** The lines of the message: the header and one line per listed item. */
  function MessageLines(att: Snapshot): (r: seq<string>)
  {
    [Header(att.scrapedAt)] + seq(Min(Limit, |att.items|), k requires 0 <= k < Min(Limit, |att.items|) => ItemLine(att.items[k]))
  }

  function FormatMessage(att: Snapshot): string
  {
    Join(MessageLines(att), "\n")
  }

  /** `format_message`: the loop that appends one line per listed item, then the join. */
  method FormatMessageLoop(att: Snapshot) returns (msg: string)
    ensures msg == FormatMessage(att)
  {
    var lines := [Header(att.scrapedAt)];
    var listed := att.items[..Min(Limit, |att.items|)];
    for k := 0 to |listed|
      invariant lines == MessageLines(att)[..k + 1]
    {
      lines := lines + [ItemLine(listed[k])];
    }
    assert lines == MessageLines(att);
    msg := Join(lines, "\n");
  }

  /** One header line and at most ten item lines, the k-th item's line at k + 1. */
  lemma MessageShape(att: Snapshot)
    ensures var ls := MessageLines(att);
      |ls| <= 1 + Limit && |ls| == 1 + Min(Limit, |att.items|)
      && ls[0] == Header(att.scrapedAt)
      && forall k | 0 <= k < |ls| - 1 :: ls[k + 1] == ItemLine(att.items[k])
  {
  }

  /** Items past the tenth never reach the message. */
  lemma {:induction false} OnlyFirstTen(scrapedAt: string, items: seq<Item>, more: seq<Item>)
    requires |items| >= Limit
    ensures FormatMessage(Snapshot(scrapedAt, items + more)) == FormatMessage(Snapshot(scrapedAt, items))
  {
    assert MessageLines(Snapshot(scrapedAt, items + more)) == MessageLines(Snapshot(scrapedAt, items));
  }

  /** Each item line starts with the subject and a colon; a row with a percent ends with the counts in brackets. */
  lemma ItemLineShape(it: Item)
    ensures StartsWith(ItemLine(it), it.subject + ": ")
    ensures it.Row? && it.percent != "" ==> EndsWith(ItemLine(it), " (" + it.present + "/" + it.total + ")")
    ensures it.Row? && it.percent == "" ==> ItemLine(it) == it.subject + ": " + it.present + "/" + it.total
    ensures it.Summary? ==> ItemLine(it) == it.subject + ": " + it.value
  {
    var l := ItemLine(it);
    var head := it.subject + ": ";
    match it
      case Row(s, p, t, pc) =>
        var tail := " (" + p + "/" + t + ")";
        if pc != "" {
          assert l == head + (pc + tail);
          assert l == (head + pc) + tail;
          PrefixExtends(head, head, pc + tail);
          SuffixExtends(head + pc, tail, tail);
        } else {
          assert l == head + (p + "/" + t);
          PrefixExtends(head, head, p + "/" + t);
        }
      case Summary(s, v) =>
        PrefixExtends(head, head, v);
  }

  /** A value of the cache file: a string, the saved snapshot, or anything else JSON can hold. */
  datatype Value = Str(s: string) | Payload(att: Snapshot) | OtherJson

  /** `new_hash != cache.get("last_hash")`: a missing entry counts as different. */
  predicate Changed(cache: map<string, Value>, newHash: string)
  {
    !("last_hash" in cache && cache["last_hash"] == Str(newHash))
  }

  /** The cache after a successful send: the three entries set, every other entry as it was. */
  function Recorded(cache: map<string, Value>, newHash: string, now: string, att: Snapshot): (r: map<string, Value>)
    ensures "last_hash" in r && r["last_hash"] == Str(newHash)
    ensures "last_sent_at" in r && r["last_sent_at"] == Str(now)
    ensures "last_payload" in r && r["last_payload"] == Payload(att)
    ensures forall k | k != "last_hash" && k != "last_sent_at" && k != "last_payload" ::
      (k in r <==> k in cache) && (k in cache ==> r[k] == cache[k])
  {
    cache["last_hash" := Str(newHash)]["last_sent_at" := Str(now)]["last_payload" := Payload(att)]
  }

  /** After a successful send the same snapshot is not sent again. */
  lemma NoResendAfterSuccess(cache: map<string, Value>, newHash: string, now: string, att: Snapshot)
    ensures !Changed(Recorded(cache, newHash, now, att), newHash)
  {
  }

  /**
   * `hash_obj(att)` covers `scraped_at`, a time stamp taken on every run.
   * With a hash that tells snapshots apart, a snapshot whose items are
   * unchanged still counts as changed after the last send, so the cache
   * never holds back a message.
   */
  lemma TimestampDefeatsCache(cache: map<string, Value>, hash: Snapshot -> string, now: string, sent: Snapshot, next: Snapshot)
    requires forall x: Snapshot, y: Snapshot :: hash(x) == hash(y) ==> x == y
    requires sent.items == next.items && sent.scrapedAt != next.scrapedAt
    ensures Changed(Recorded(cache, hash(sent), now, sent), hash(next))
  {
    assert sent != next;
  }

  /** A hash of the items alone, leaving the time stamp out. */
  function ItemsHash(itemsHash: seq<Item> -> string): Snapshot -> string
  {
    (att: Snapshot) => itemsHash(att.items)
  }

  /**
   * Hashing the items alone: after a send, a snapshot with the same items
   * is not sent again, whatever its time stamp, and one with other items
   * is, when the items' hash tells them apart.
   */
  lemma ItemsHashSuppresses(cache: map<string, Value>, itemsHash: seq<Item> -> string, now: string, sent: Snapshot, next: Snapshot)
    ensures sent.items == next.items ==>
      !Changed(Recorded(cache, ItemsHash(itemsHash)(sent), now, sent), ItemsHash(itemsHash)(next))
    ensures itemsHash(sent.items) != itemsHash(next.items) ==>
      Changed(Recorded(cache, ItemsHash(itemsHash)(sent), now, sent), ItemsHash(itemsHash)(next))
  {
  }

  /** The variables `send_whatsapp` reads; it does not prefix the addresses. */
  const NotifyTwilio: TwilioVars := TwilioVars("TWILIO_ACCOUNT_SID", "TWILIO_AUTH_TOKEN", "TWILIO_WHATSAPP_FROM", "USER_WHATSAPP_TO")

  /** `send_whatsapp` returns False without calling the service when any variable is missing. */
  lemma SendGuard(env: map<string, string>, delivered: bool)
    ensures !Present(env, "TWILIO_ACCOUNT_SID") || !Present(env, "TWILIO_AUTH_TOKEN")
      || !Present(env, "TWILIO_WHATSAPP_FROM") || !Present(env, "USER_WHATSAPP_TO")
      ==> PlainSend(env, NotifyTwilio, delivered) == Skipped && !Sent(PlainSend(env, NotifyTwilio, delivered))
  {
  }

  /** The two files `main` writes: `attendance.json` and `last_sent.json` (an absent file reads as {}). */
  class Files {
    var current: Option<Snapshot>
    var cache: map<string, Value>

    constructor(current: Option<Snapshot>, cache: map<string, Value>)
      ensures this.current == current && this.cache == cache
    {
      this.current := current;
      this.cache := cache;
    }

    /**
     * `main`. `scraped` is what `scrape_attendance` returned (None: it
     * raised, and so does `main`); `hash` stands for `hash_obj`; `env`
     * holds the Twilio variables; `delivered` is what the service would
     * answer; `now` the time stamp. Returns the body handed to the sender,
     * if it got that far.
     */
    method Run(scraped: Option<Snapshot>, hash: Snapshot -> string, env: map<string, string>, delivered: bool, now: string)
      returns (body: Option<string>)
      modifies this
      ensures scraped.None? ==> current == old(current) && cache == old(cache) && body.None?
      ensures scraped.Some? ==> current == scraped
      ensures scraped.Some? ==>
        var att := scraped.value; var h := hash(att);
        (body.Some? <==> Changed(old(cache), h))
        && (body.Some? ==> body.value == FormatMessage(att))
        && cache == (if Changed(old(cache), h) && Sent(PlainSend(env, NotifyTwilio, delivered))
                     then Recorded(old(cache), h, now, att) else old(cache))
    {
      if scraped.None? {
        return None;
      }
      var att := scraped.value;
      current := Some(att);
      var newHash := hash(att);
      if Changed(cache, newHash) {
        var msg := FormatMessageLoop(att);
        body := Some(msg);
        var ok := PlainSend(env, NotifyTwilio, delivered);
        if Sent(ok) {
          var c := cache;
          c := c["last_hash" := Str(newHash)];
          c := c["last_sent_at" := Str(now)];
          c := c["last_payload" := Payload(att)];
          cache := c;
        }
      } else {
        body := None;
      }
    }
  }
}
