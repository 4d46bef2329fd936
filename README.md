# MGIT attendance notifier, modelled in Dafny

The repository logs in to the MGIT student portal (`https://mgit.winnou.net`),
finds the student's attendance percentage on the page and sends it by
WhatsApp through Twilio. It does this in several independent scripts, and
this project models the logic of each of them:

- **The attendance extraction engine.** There are two JavaScript variants
  that run inside the browser page: the `page.evaluate` body of
  `playwright_attendance.js` and the `extractor_js` string of
  `playwright_attendance.py`. Both tokenize numbers of the form
  `\d{1,3}(?:\.\d{1,2})?`, skip numbers in date context, and try a cascade of
  tiers, each of which returns early on success:
  - a percent sign after the number;
  - a number in parentheses;
  - bare tokens;
  - the percentage nearest the word "attendance";
  - the largest percentage.

  They render the value with a zero stripper and return a snippet when
  nothing is found (modules `Numeric`, `Matching`, `Nearest`, `Engine`,
  `DomExtractor`, `PageExtractor`).
- **`main.py`, the Selenium bot** (module `SeleniumBot`): the first-number
  extractor with its `.2f` rendering, the three-stage page search, the
  retry loop with exponential back-off, the Twilio guard with its
  `whatsapp:` prefixing, and the message.
- **`attendance_tracker.py`** (module `Tracker`): the tracker class with
  its required-variable check, the subject records read from the table
  rows, and the report message. The report has a greeting by hour, an
  emoji band per subject, the overall percentage, and an alert giving the
  number of classes needed to reach 75%.
- **`scrape_and_notify.py`** (module `Notify`):
  - the items read from the table or the summary elements;
  - the ten-item message;
  - the change detection against the hash cache;
  - the cache update after a successful send.
- **`attendance_bot.py`** (module `Bot`): the login payload, the guess at
  which keys hold the credentials, the first number on the dashboard, and
  the message.
- **`scraper.py`** (module `Scraper`): the three fixed refusals, the form
  data, the normalised POST URL, and the table rendered as text.
- **`attendance_whatsapp.py`** (module `WhatsappReport`): the intact parts
  of this file, namely the credential guard, URL resolution, the hidden
  fields, user-name and password field detection, the login-failure check,
  the overall emoji, and the subject-row filter.

Shared modules:
- `Text`: characters, strings, `strip`, `lower` and `join`.
- `PyNumbers`: Python's `int()`, `str()`, `float()` on plain decimals, and `.2f`.
- `Collections`: Python dictionaries as insertion-ordered association
  lists, and the filter/append and "last match wins" loops. A dictionary
  whose values may be None is encoded as `requests` posts it: the None
  entries are left out. The credentials read by `os.getenv` in
  attendance_bot.py and attendance_whatsapp.py are optional for this
  reason.
- `Forms`: `<input>` elements and the dictionary of named inputs.
- `Messaging`: the Twilio variable guard and the `whatsapp:` prefix.

Every page, HTTP response, environment, clock and Twilio reply reaches
the model as a parameter:
- container texts in visit order;
- the page text;
- the form found, if any;
- the table rows as cell texts;
- the environment as a `map`;
- the hour and time stamp;
- whether Twilio delivered.

Numbers are exact. A token carries its value in hundredths, and Python
floats in the tracker are exact decimals.

The order of the tiers and the range check, as the code has them:
- Containers are tried before the page-wide tiers. After them:
  - `playwright_attendance.js` takes the first accepted parenthesised
    number in document order;
  - `playwright_attendance.py` takes the one nearest "attendance";
  - only after that do both try percentages.
- Values outside [0, 100] are rejected, not clamped, and the search moves
  on.
- The value `80` renders as `8%` (see Findings).

## Model

| member | source | states |
|---|---|---|
| Numeric.TokenAt | playwright_attendance.js:107-115 | the reading at a digit is a well-formed `\d{1,3}(?:\.\d{1,2})?` number starting there |
| Numeric.DigitRunIs | playwright_attendance.js:108 | a run of at most `cap` digits that ends at a non-digit, the cap or the end is exactly what the digit counter returns |
| Numeric.CanonicalIntPart | playwright_attendance.js:160 | the canonical text of a value begins with its integer digits, and the tokenizer reads exactly those as the integer part |
| Numeric.CanonicalRoundTrip | playwright_attendance.js:160 | `String(Number(tok))` read back by the tokenizer is one whole token with the same value: rendering and reading are inverse |
| Numeric.CanonicalShape | playwright_attendance.py:203 | the canonical rendering has no leading zero, no trailing fraction zero and no trailing '.' |
| Numeric.TrailingZeros | playwright_attendance.py:179 | the count is exactly the maximal run of '0' that ends the text |
| Numeric.StripZerosLeftmost | playwright_attendance.py:179 | `replace(/\.?0+$/, '')` cuts at the leftmost position where the pattern matches and nowhere earlier, and changes nothing exactly when there is no match |
| Numeric.StripZerosPrefix | playwright_attendance.js:148 | the stripper keeps a prefix and leaves text not ending in '0' unchanged |
| Numeric.Slice | playwright_attendance.js:102-103 | `slice(a, b)` has the clamped length and the characters of the original at the same offsets |
| Numeric.HasDateCharIff | playwright_attendance.js:104 | the date test on a window holds exactly when the window contains '-' or '/' |
| Numeric.SliceHasDateChar | playwright_attendance.py:181-183 | a window holds a date character exactly when some position of the text in [a, b) does |
| Numeric.DateContextIff | playwright_attendance.js:101-105 | `isDateContext` holds exactly when '-' or '/' lies among the six characters before the number or the six after it |
| Numeric.StripZerosEighty | playwright_attendance.py:179 | the stripper turns the integer text `80` into `8`, while the canonical decimal of 80 is `80` |
| Numeric.EightyValue | playwright_attendance.js:146-147 | the text `80` is read as the value 80.00 with the group text `80` |
| Matching.SpaceRun | playwright_attendance.js:146 | `\s*` consumes exactly the maximal run of white space |
| Matching.MatchOf | playwright_attendance.js:146-151 | a match found at i is a well-formed number whose whole match starts at i |
| Matching.MatchEnd | playwright_attendance.js:171 | the `lastIndex` after a match lies strictly after its start and within the text |
| Matching.GreedyUnique | playwright_attendance.js:146 | any reading of the number shape that ends before a non-digit, non-'.' character is the greedy one, so backtracking cannot find another match at the same start |
| Matching.PercentMatchUnique | playwright_attendance.js:146 | a number followed by `\s*%` is exactly the percent match at its start |
| Matching.ParenMatchUnique | playwright_attendance.js:151 | a number between '(' and ')' is exactly the parenthesised match at the '(' |
| Matching.FirstFrom | playwright_attendance.js:146-151 | `text.match(re)` returns the leftmost match at or after the start and there is none before it; None means no match anywhere |
| Matching.AllFromMatches | playwright_attendance.js:171 | every element of `matchAll` is a real match at or after the search start |
| Matching.AllFromAfter | playwright_attendance.js:184 | a global search resumed at `from` finds nothing before `from` |
| Matching.AllFromIncreasing | playwright_attendance.js:171 | `matchAll` yields its matches in strictly increasing document order |
| Matching.NoMatchInIff | playwright_attendance.js:146 | "no match in [a, b)" means no position in [a, b) starts a match |
| Matching.TokensFrom | playwright_attendance.js:107-115 | every token found is the greedy token at a digit at or after the start |
| Matching.TokensOrdered | playwright_attendance.js:107-115 | the tokens come in document order and never overlap |
| Matching.TokensCover | playwright_attendance.js:107-115 | every digit of the text lies inside some token, so the exec loop skips no number |
| Matching.FindNumericTokens | playwright_attendance.js:107-115 | the `re.exec` loop returns exactly the token list, each a real greedy token |
| Nearest.InsertByDistance | playwright_attendance.js:188 | insertion adds exactly the one element: the result is a permutation of the list plus x |
| Nearest.SortByDistance | playwright_attendance.js:188 | the sort returns a permutation of its input |
| Nearest.InsertKeepsSorted | playwright_attendance.js:188 | inserting a later match after all as-near ones keeps the (distance, position) order |
| Nearest.SortedByDistance | playwright_attendance.js:188 | sorting matches given in document order by distance to the anchor, stably, yields them ordered by distance and then by position, and as a permutation |
| Nearest.SortedFrom | playwright_attendance.py:244 | every element of the sorted list is an input match |
| Nearest.SortedPlace | playwright_attendance.py:244 | every input match has a place in the sorted list |
| Engine.EnvCompleteIff | playwright_attendance.js:17 | the start-up check passes exactly when all six variables are set and non-empty |
| Engine.FirstAcceptedFrom | playwright_attendance.js:158-163 | the index is the first candidate that is out of date context and in [0, 100], with every earlier one rejected; None means all are rejected |
| Engine.FirstAcceptedLoop | playwright_attendance.js:158-163 | the `for` loop with `continue` and early return finds that first accepted candidate |
| Engine.CascadeText | playwright_attendance.js:144-164 | one container's percent match, then parenthesised match, then token loop, computes the cascade |
| Engine.ScanContainers | playwright_attendance.js:143-166 | the container loop returns the scan's result |
| Engine.ContainerScanFirst | playwright_attendance.js:143-166 | the first container whose cascade succeeds decides the result, whatever later containers hold |
| Engine.ContainerScanNone | playwright_attendance.js:143-166 | the scan finds nothing exactly when every container's cascade fails |
| Engine.FirstAcceptedIsNearest | playwright_attendance.py:244-249 | after the stable sort, the first accepted candidate is the nearest accepted one: every other accepted match is farther, or as near and later |
| Engine.Sensible | playwright_attendance.js:193 | the filter keeps exactly the values in [0, 100] |
| Engine.Max | playwright_attendance.js:195 | `Math.max` of a non-empty list is an element of the list and no element exceeds it |
| Engine.CascadeInRange | playwright_attendance.js:147-161 | every value a cascade accepts is at most 100 |
| Engine.SnippetIsPrefix | playwright_attendance.js:201 | the not-found snippet is the first 2000 characters of the text, or all of it when shorter |
| Engine.IntendedReadsBack | playwright_attendance.js:148 | with the corrected rendering, a found value is a number the tokenizer reads back whole, with the same value, in range, followed by `%` |
| Engine.ContainerScanSensible | playwright_attendance.js:143-166 | every container-scan hit carries a value in [0, 100] |
| Engine.ContainerScanTags | playwright_attendance.js:143-166 | a container-scan hit carries one of the cascade's three method tags |
| Engine.PctTierNearest | playwright_attendance.js:186-190 | with the anchor present, only the percent match nearest the anchor (earliest among ties) is considered, and the tier fails when it is over 100, whatever the others hold |
| Engine.PctTierLargestExists | playwright_attendance.js:191-197 | without the anchor, the tier fails only when no percent match is at most 100 |
| Engine.PctTierLargest | playwright_attendance.js:191-197 | without the anchor, the tier's value is the largest percent value in [0, 100] |
| Engine.PctTierSensible | playwright_attendance.js:184-199 | a percent-tier hit carries a value in [0, 100] |
| Engine.ConcludeFound | playwright_attendance.js:148-201 | found exactly when a tier hit; a found value ends in `%` and keeps the tier's tag; corrected, it reads back as the hit's value; not found carries the 2000-character prefix |
| DomExtractor.NumericOkIsInRange | playwright_attendance.js:22-24 | `numericOk` holds exactly for values in [0, 100] |
| DomExtractor.Run | playwright_attendance.js:99-202 | the `page.evaluate` loops with their early returns compute the extractor's result |
| DomExtractor.ExtractShape | playwright_attendance.js:143-201 | a found value ends in `%` and carries one of the six tags, and with the corrected rendering it is a number in [0, 100]; not found carries the snippet |
| DomExtractor.ParenAnywhereFirst | playwright_attendance.js:170-181 | the parenthesised tier takes the first match in document order that is outside date context (measured at the '(' with the number's length) and at most 100, and rejects every earlier one |
| DomExtractor.ContainersFirst | playwright_attendance.js:125-166 | a container whose cascade succeeds decides the result, and no page-wide tier is consulted |
| DomExtractor.FirstPercentOfEighty | playwright_attendance.js:146 | in a text starting `80%`, the leftmost percent match is the number 80 at 0 |
| DomExtractor.CascadeOfEighty | playwright_attendance.js:146-148 | a container starting `80%` yields 80.00 from the percent rule |
| DomExtractor.EightyReadsAsEight | playwright_attendance.js:146-148 | when the first container starts with `80%`, the code as written reports `8%`; the corrected rendering reports `80%` |
| DomExtractor.ZeroReadsAsBare | playwright_attendance.js:146-148 | when the first container starts with `0%`, the code as written reports a bare `%`; the corrected rendering reports `0%` |
| PageExtractor.ParenNearAttRun | playwright_attendance.py:238-251 | the loop over the sorted parenthesised candidates computes the tier |
| PageExtractor.Run | playwright_attendance.py:178-267 | the extractor's body, with its early returns, computes the tier function |
| PageExtractor.ParenNeedsAnchor | playwright_attendance.py:242-243 | without "attendance" on the page, the parenthesised tier never fires |
| PageExtractor.ParenNearAttNearest | playwright_attendance.py:238-251 | the parenthesised tier's value is an accepted match nearer the anchor than every other accepted one, or as near and earlier |
| PageExtractor.TierOrder | playwright_attendance.py:186-264 | the tiers are tried in order and the first success decides: Present Term, then the Attendance vicinity, then parentheses near the anchor, then percentages |
| PageExtractor.ExtractShape | playwright_attendance.py:186-266 | a found value ends in `%` and carries one of the nine tags, and with the corrected rendering it is a number in [0, 100]; not found carries the snippet |
| PyNumbers.IntStr | attendance_tracker.py:186 | `str(i)` is non-empty and has a leading '-' exactly for negatives |
| PyNumbers.ParseIntRoundTrip | attendance_tracker.py:186-187 | `int()` reads back what `str()` writes |
| PyNumbers.StripPlain | attendance_tracker.py:116 | `strip` leaves text without surrounding white space unchanged |
| PyNumbers.CharIndex | attendance_tracker.py:170 | the index is the first occurrence of the character, and None means it does not occur |
| PyNumbers.ParseFloatDigits | attendance_tracker.py:170 | `float()` of a run of digits is that whole number |
| PyNumbers.Fixed2 | main.py:89 | `.2f` gives the integer digits, then '.' third from the end |
| PyNumbers.Fixed2ReadsBack | main.py:89 | `float()` reads the `.2f` text of h hundredths back as exactly h hundredths |
| PyNumbers.ParseFloatPoint | attendance_tracker.py:170 | `float()` of digits, '.', digits is the digits' value over ten to the number of fraction digits |
| SeleniumBot.PyNumAt | main.py:84 | `(\d{1,3}(?:\.\d+)?)` at a digit reads a well-formed number, and a fraction takes every following digit |
| SeleniumBot.TrimFixedIsCanonical | main.py:89 | `f"{val:.2f}".rstrip("0").rstrip(".")` equals the canonical decimal, and integer digits are never lost |
| SeleniumBot.TrimTwoDigits | main.py:89 | two significant decimals stay |
| SeleniumBot.TrimOneDigit | main.py:89 | a trailing fraction zero goes |
| SeleniumBot.TrimNoDigit | main.py:89 | `.00` goes entirely and the integer part stays whole |
| SeleniumBot.ExtractedShape | main.py:81-92 | a found value is the canonical decimal of the first number, rounded to hundredths and in [0, 100], with no trailing '.' or fraction zero |
| SeleniumBot.WholeNumberKept | main.py:84-89 | a whole number in range comes back with every digit (`80` stays `80`) |
| SeleniumBot.FirstNumberDecides | main.py:84-88 | only the first number is examined: if it is out of range, nothing is found, whatever follows |
| SeleniumBot.HasDecimalFromIff | main.py:211 | the decimal search finds a match exactly when a digit, '.', digit sequence occurs |
| SeleniumBot.GateIff | main.py:211 | an element's text is considered exactly when it has '%', a decimal number, or both '(' and ')' |
| SeleniumBot.FirstSomeFirst | main.py:196-200 | a scan's value is that of the first element yielding one, and all earlier elements yield none |
| SeleniumBot.FirstSomeNone | main.py:207-214 | a scan finds nothing exactly when no element yields a value |
| SeleniumBot.PercentEnd | main.py:221 | the whole match `\d…\s*%` ends just after a '%' beyond the number |
| SeleniumBot.SpacesFrom | main.py:221 | `\s*` consumes exactly the maximal run of white space |
| SeleniumBot.FirstPercentFrom | main.py:221 | the search result starts at a digit where the percent pattern matches |
| SeleniumBot.FindAttendanceOnPage | main.py:188-227 | the three stages with their early returns compute the page search |
| SeleniumBot.GenericScanFirst | main.py:205-214 | the generic scan's value comes from the first element whose stripped text is non-empty, passes the gate and yields a number |
| SeleniumBot.FoundIsCanonical | main.py:188-227 | whichever stage finds it, a value is the canonical rendering of a number in [0, 100] |
| SeleniumBot.FallbackLast | main.py:218-225 | the page source is consulted only when neither element scan yields a value |
| SeleniumBot.AttendanceWithRetries | main.py:303-315 | the loop makes at most `MAX_ATTEMPTS` calls and stops at the first truthy result; when all fail it makes exactly `MAX_ATTEMPTS` calls; the sleeps are `backoff * 2^(n-1)`, one after each failed call; a negative backoff raises at the first sleep, exactly when the first call fails |
| SeleniumBot.MainSendGuard | main.py:325-327 | nothing is sent unless all four Twilio variables are set and non-empty |
| SeleniumBot.BodyShape | main.py:343-349 | a found value appears in the body followed by '%'; otherwise the body is the fixed failure text |
| Messaging.Whatsapp | main.py:329-331 | the address always starts with `whatsapp:`, and is unchanged exactly when it already did |
| Messaging.WhatsappIdempotent | attendance_whatsapp.py:31-32 | prefixing twice is the same as prefixing once |
| Collections.PutGet | attendance_bot.py:37 | `d[k] = v` makes k read v, leaves every other key as it was, and keeps the keys distinct |
| Collections.LastWhere | attendance_bot.py:42-46 | the index is the last element satisfying the test, and None means none does |
| Forms.FillNamed | attendance_bot.py:32-37 | the input loop computes the named-input dictionary |
| Forms.FillGet | scraper.py:28-33 | a key some input is named by holds the last such input's value (or ""), every other key keeps its earlier value, and keys stay distinct |
| Forms.NamedInputsOnly | attendance_bot.py:33-37 | starting from `{}`, a key is present exactly when some input has that truthy name |
| Bot.LastKeyOr | attendance_bot.py:40-51 | the field is the last key passing the test, or the default when none does |
| Bot.MatchingKeyNonEmpty | attendance_bot.py:48-51 | a key that passes either test is non-empty, so `if not field` only catches "no key found" |
| Bot.DetectFields | attendance_bot.py:39-51 | the key scan settles on the last user-like key and the last password-like key, with their defaults |
| Bot.BuildPayload | attendance_bot.py:31-54 | the steps compute the login payload |
| Bot.PayloadFields | attendance_bot.py:32-54 | the password sits under the password field; the user name sits under the user field unless both are the same key; an unset credential is not posted; other keys hold the last input's value |
| Bot.ExtractFirstToken | attendance_bot.py:64-69 | with a digit in the text, the reported value is the greedy token at the first digit followed by '%', never "Not Found" |
| Bot.ExtractNoDigit | attendance_bot.py:68-69 | a text without digits gives "Not Found" |
| Bot.ExtractNoRangeCheck | attendance_bot.py:68-69 | there is no range check: three digits are reported as they stand, e.g. `999%` |
| Bot.RunReports | attendance_bot.py:72-92 | a message goes out exactly when fetching succeeded, and it carries the extracted value between the fixed lines |
| Scraper.PostUrlOneSlash | scraper.py:40-42 | an absolute action is kept; a relative one is joined to the base with exactly one slash, after only its leading slashes are dropped |
| Scraper.FormDataFields | scraper.py:28-37 | the secrets sit under `username` and `passwd`; every other key holds the last input's value |
| Scraper.RenderRows | scraper.py:58-66 | the row loop and the join compute the rendered table |
| Scraper.RenderedRows | scraper.py:58-66 | every row with cells gives one line, in order: its stripped cells joined by " \| "; rows without cells are dropped |
| Scraper.LoginAndGetAttendance | scraper.py:9-66 | the function refuses missing secrets, a missing form and a missing table with its fixed texts; it raises on a form without an action; otherwise it posts the form data to the normalised URL and returns the rendered table |
| Tracker.MissingVarsListed | attendance_tracker.py:29-37 | exactly the absent variables are listed, once each, in declared order |
| Tracker.AttendanceRows | attendance_tracker.py:110-135 | the records come from the rows after the header, in order, and every qualifying row gives one; no records gives None, never an empty list |
| Tracker.EmojiOfWhole | attendance_tracker.py:169-176 | for a whole-number percentage the thresholds are 75 and 65, inclusive |
| Tracker.EmojiOfDecimal | attendance_tracker.py:169-176 | for a decimal percentage `a.b%` the emoji is ✅ exactly when the number is at least 75, ⚠️ exactly when it is in [65, 75), 🔴 below |
| Tracker.EmojiUnparsable | attendance_tracker.py:177-178 | text that does not read as a number gets 📊 |
| Tracker.SumIntsDefined | attendance_tracker.py:185-187 | the sums exist exactly when every count is an integer |
| Tracker.ClassesNeeded | attendance_tracker.py:194 | the formula equals 3T − 4P + 1, and attending that many more classes lifts the ratio to at least 75% |
| Tracker.OneFewerReaches | attendance_tracker.py:194 | one class fewer than the alert asks for already reaches exactly 75% |
| Tracker.MessageErrorIff | attendance_tracker.py:146-147 | the error text comes back exactly when there are no records |
| Tracker.MessageGreets | attendance_tracker.py:150-162 | a report opens with the greeting for the hour |
| Tracker.MessageHoldsBlock | attendance_tracker.py:168-182 | every record's block occurs in the report after the header |
| Tracker.MessageWithoutOverall | attendance_tracker.py:185-201 | when some count is not an integer, only the overall block is dropped |
| Tracker.AlertSuffices | attendance_tracker.py:193-196 | below 75%, the alert ends by naming a number of classes that suffices to reach 75% |
| Tracker.MGITAttendanceTracker.constructor | attendance_tracker.py:14-26 | the object holds the base URL and the six settings it is given |
| Tracker.MGITAttendanceTracker.Create | attendance_tracker.py:14-37 | a ValueError naming the missing variables is raised exactly when some are missing; otherwise the object holds the environment's values |
| Tracker.MGITAttendanceTracker.GetAttendance | attendance_tracker.py:106-135 | the row loop returns the records of the table, or None |
| Tracker.MGITAttendanceTracker.FormatMessage | attendance_tracker.py:144-205 | the method returns the report whose properties the Message lemmas state: the error text exactly without records, the greeting, every block, the alert |
| Notify.SummaryItems | scrape_and_notify.py:95-99 | the summary items exist exactly when every element has both children, one item per element in order |
| Notify.ScrapeItems | scrape_and_notify.py:76-99 | the two loops compute the item list |
| Notify.SummaryOnlyWithoutTable | scrape_and_notify.py:92-99 | the table decides when one of its rows has three cells; the summary elements are read only when none has |
| Notify.TableItems | scrape_and_notify.py:78-91 | each item comes from its own row of three or more cells, in order, and every such row gives one |
| Notify.FormatMessageLoop | scrape_and_notify.py:107-117 | the line loop and the join compute the message |
| Notify.MessageShape | scrape_and_notify.py:107-117 | the message has one header line and then one line per item, the k-th item's line at k + 1, up to ten items |
| Notify.OnlyFirstTen | scrape_and_notify.py:110 | items past the tenth never reach the message |
| Notify.ItemLineShape | scrape_and_notify.py:111-116 | each line starts with the subject and a colon; a row with a percent ends with the counts in brackets |
| Notify.Recorded | scrape_and_notify.py:141-143 | the cache after a send has the three entries set and every other entry unchanged |
| Notify.NoResendAfterSuccess | scrape_and_notify.py:137-144 | after a successful send, the same snapshot does not count as changed |
| Notify.TimestampDefeatsCache | scrape_and_notify.py:101-104 | as written, a snapshot with the same items but a new time stamp counts as changed after the last send, under a hash that tells snapshots apart |
| Notify.ItemsHashSuppresses | scrape_and_notify.py:130-137 | hashing the items alone, a snapshot with the same items is not sent again, and one whose items hash differently is |
| Notify.SendGuard | scrape_and_notify.py:38-40 | the service is not called when any variable is missing |
| Notify.Files.constructor | scrape_and_notify.py:29-33 | the files hold the given snapshot and cache |
| Notify.Files.Run | scrape_and_notify.py:119-148 | the snapshot is written; a message goes out exactly when the hash changed; the cache is updated only after a successful send |
| WhatsappReport.CredentialGuard | attendance_whatsapp.py:22-32 | nothing is sent unless all four variables are set; the addresses then carry `whatsapp:` exactly once at the front |
| WhatsappReport.ResolveShape | attendance_whatsapp.py:92-95 | an absolute URL is kept; otherwise the result is the base, then the URL if it starts with '/', else '/' and the URL |
| WhatsappReport.DetectFields | attendance_whatsapp.py:111-123 | the scan settles on the names of the last user-name-like input and the last password-like input |
| WhatsappReport.FieldsFromDifferentInputs | attendance_whatsapp.py:118-123 | the two fields never come from the same input |
| WhatsappReport.PrepareLogin | attendance_whatsapp.py:79-131 | the steps from the form to the POST compute the login request or its refusal |
| WhatsappReport.LoginRefusals | attendance_whatsapp.py:81-127 | no form gives the no-form text; a form gives the no-fields text exactly when the user-name or password field is missing or empty |
| WhatsappReport.LoginDataFields | attendance_whatsapp.py:100-131 | the password sits under the password field; the user name sits under its field unless both fields share a name; an unset credential is not posted; other keys hold the last hidden input's value |
| WhatsappReport.AfterLoginIff | attendance_whatsapp.py:147-153 | login counts as failed exactly when the final URL contains "login" in any case |
| WhatsappReport.FirstParenFrom | attendance_whatsapp.py:182 | `re.search(r'\((\d+\.?\d*)\)')` finds the leftmost match, with none earlier; None means there is no match |
| WhatsappReport.OverallEmojiWhole | attendance_whatsapp.py:181-185 | a whole number in brackets gets its band: 75 and up, 65 and up, below |
| WhatsappReport.FirstPercentCell | attendance_whatsapp.py:243-247 | the index is the first cell whose stripped text contains '%', and None means no cell does |
| WhatsappReport.FindPercentage | attendance_whatsapp.py:242-247 | the inner loop over `cols[1:]` finds the row's percentage |
| WhatsappReport.ScanSubjects | attendance_whatsapp.py:228-247 | the row loop computes the kept subject rows |
| WhatsappReport.SubjectRowsFilter | attendance_whatsapp.py:232-239 | each kept row is a row after the first with three or more cells and a real subject, in table order, and every such row is kept |
| WhatsappReport.PercentageIsFirst | attendance_whatsapp.py:241-247 | a kept row's percentage is the first cell after the subject whose text has '%', and it is None exactly when no cell has one |

## Left out

- Browsers, HTTP and Twilio are not modelled. This covers Playwright, Selenium, `requests`, BeautifulSoup/lxml, the DOM queries and Twilio's client. Their results enter as parameters: container texts in visit order, the page text, forms and tables as values, and the service's answer as a boolean. Timeouts and `raise_for_status` are taken to succeed.
- How containers are chosen is not modelled: `closest`, parent, siblings and `new Set` de-duplication all arrive as an already ordered list of texts.
- JavaScript `innerText` and BeautifulSoup `get_text` are taken as given strings. JavaScript's `\s` and Python's `\s` and `str.strip` white space are the full Unicode sets. JavaScript's `\d` is ASCII by definition. Python's `\d` (any Unicode decimal digit) is narrowed to ASCII digits, and `toLowerCase` and `lower()` fold ASCII letters only.
- JavaScript indexes strings by UTF-16 code units; the model counts Unicode scalar values. `slice` windows, `m.index`, `indexOf`, `matchAll` positions, anchor distances and the 2000-character snippet are therefore counted in scalars, and differ from the browser's when the text holds characters outside the Basic Multilingual Plane.
- Binary floating point is not modelled. Values are exact decimals, and `String(Number(tok))` is the shortest decimal for numbers with at most two decimals. `.2f` rounding of values with more decimals (main.py) is half-up on the exact value. The tracker's overall `:.2f` is rendered exactly.
- Python `float()` and `int()` are modelled only for plain ASCII decimal text with an optional sign and surrounding white space. Exponents, `inf`, `nan`, `_` separators and non-ASCII decimal digits read as unparsable.
- `hash_obj` (SHA-256 of the JSON) is the `hash` parameter. The JSON file contents are the `Files` fields. Time stamps, `datetime.now()` and `time.sleep` are parameters or recorded values.
- `try_fill_by_selectors`, `get_attendance_once`, `create_driver` and `dump_page_snippet` (main.py) drive the browser and are not modelled. `get_attendance_once` enters the retry loop as the `once` parameter.
- In attendance_whatsapp.py, the following are not modelled:
  - lines 248-310 are corrupted, including the truncated decimal-column check at 248-250;
  - lines 345-402 duplicate `main`;
  - the page-level search `Attendance.*?\((\d+\.?\d*)\)` at line 218;
  - the report text assembled around the fragments.
- scheduler.py and whatsapp.py are not part of this model.
- Bot.RunReports: `send_whatsapp_message` in attendance_bot.py prefixes both addresses unconditionally and does not check the credentials. The model records the message body only.
- Nearest.SortByDistance: the in-place `Array.prototype.sort` is modelled as a function returning the sorted sequence, a stable insertion sort. Mutation of `pctAll` and `parenAll` in place is not modelled.
- WhatsappReport.OverallEmojiWhole: the emoji is proved for whole numbers in brackets. For decimal values it is the band of the exact decimal, without the float-formatting of the message line.
- Tracker.MGITAttendanceTracker.FormatMessage: the hour and the formatted time stamp are parameters instead of `datetime.now()`.

## Findings

| source | as written | input that shows it | evidently intended | confidence | as-written member | corrected member |
|---|---|---|---|---|---|---|
| playwright_attendance.js:148 (also playwright_attendance.py:179) | `value.replace(/\.?0+$/, '')` strips trailing zeros even when there is no decimal point, so the integer part loses its zeros | a container whose text starts with `80%`: reported as `8%` (likewise `100%` as `1%`) | strip zeros only from a fractional part, giving `80%` | not executed | DomExtractor.EightyReadsAsEight | Engine.IntendedReadsBack |
| playwright_attendance.js:148 (also playwright_attendance.py:179) | the same replacement removes the whole of a value `0` | a container whose text starts with `0%`: reported as a bare `%` | `0%` | not executed | DomExtractor.ZeroReadsAsBare | Engine.IntendedReadsBack |
| scrape_and_notify.py:101-104, 130, 137 | `hash_obj(att)` hashes the whole snapshot, including `scraped_at`, a time stamp to the second taken on every run | two runs a second or more apart whose items are identical: the hashes differ, so the second run sends again | the cache holds back a message whose items did not change, so only the items are hashed | not executed | Notify.TimestampDefeatsCache | Notify.ItemsHashSuppresses |
