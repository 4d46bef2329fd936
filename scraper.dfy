/**
 * scraper.py: `login_and_get_attendance` with its three fixed refusals,
 * the form data it posts, the normalised post URL, and the attendance
 * table rendered as text. The two pages come in as the login form found
 * (if any) and the attendance table's rows of cell texts (if any).
 */
module Scraper {
  import opened Wrappers
  import opened Text
  import opened Collections
  import opened Forms

  const BaseUrl: string := "https://mgit.winnou.net"

  const MissingSecret: string := "Missing username or password secret!"
  const NoForm: string := "Unable to find login form!"
  const NoTable: string := "Attendance table not found!"

  /** The POST the script makes to log in. */
  datatype Post = Post(url: string, data: Dict<string>)

  /** What the function returns, or that it raised (an action-less form: `None.startswith`). */
  datatype Reply = Returned(text: string) | Raised

  /** `post_url`: kept when it starts with "http", otherwise joined to the base after its leading slashes are dropped. */
  function PostUrl(action: string): string
  {
    if StartsWith(action, "http") then action else BaseUrl + "/" + LStripChar(action, '/')
  }

  /**
   * A relative action is joined with exactly one slash: the result is the
   * base, '/', and the action without its leading slashes, whose first
   * character is not a slash.
   */
  lemma PostUrlOneSlash(action: string)
    ensures StartsWith(action, "http") ==> PostUrl(action) == action
    ensures !StartsWith(action, "http") ==>
      var r := PostUrl(action); var rest := r[|BaseUrl| + 1..];
      StartsWith(r, BaseUrl + "/")
      && (rest == [] || rest[0] != '/')
      && |rest| <= |action| && rest == action[|action| - |rest|..]
      && forall k | 0 <= k < |action| - |rest| :: action[k] == '/'
  {
    if !StartsWith(action, "http") {
      var r := PostUrl(action);
      var rest := LStripChar(action, '/');
      assert r == (BaseUrl + "/") + rest;
      assert r[..|BaseUrl + "/"|] == BaseUrl + "/";
      assert r[|BaseUrl| + 1..] == rest;
    }
  }

  /** The form data: every named input, then `username` and `passwd` overwritten with the secrets. */
  function FormData(inputs: seq<Input>, username: string, password: string): Dict<string>
  {
    Put(Put(Fill([], inputs), "username", username), "passwd", password)
  }

  /** The secrets sit under `username` and `passwd`; every other key holds the last input named by it. */
  lemma FormDataFields(inputs: seq<Input>, username: string, password: string, key: string)
    ensures var d := FormData(inputs, username, password);
      DistinctKeys(d)
      && Get(d, "username") == Some(username)
      && Get(d, "passwd") == Some(password)
      && (key != "username" && key != "passwd" ==>
            Get(d, key) == match LastWhere(inputs, PostedUnder(key))
                             case Some(i) => Some(Attr(inputs[i].value, ""))
                             case None => None)
  {
    var d0 := Fill([], inputs);
    FillGet([], inputs, key);
    PutGet(d0, "username", username);
    PutGet(Put(d0, "username", username), "passwd", password);
  }

  /** Every cell's text stripped. */
  function StripAll(cells: seq<string>): (r: seq<string>)
    ensures |r| == |cells| && forall k | 0 <= k < |cells| :: r[k] == Strip(cells[k])
  {
    seq(|cells|, k requires 0 <= k < |cells| => Strip(cells[k]))
  }

  /** A row's line: its stripped cells joined by " | "; a row without cells gives none. */
  function RowLine(cells: seq<string>): Option<string>
  {
    if cells == [] then None else Some(Join(StripAll(cells), " | "))
  }

  function Lines(rows: seq<seq<string>>): seq<string>
  {
    FilterMap(rows, RowLine)
  }

  /** The text returned for a found table. */
  function Render(rows: seq<seq<string>>): string
  {
    Join(Lines(rows), "\n")
  }

  /** The loop that appends one line per row, then the join. */
  method RenderRows(rows: seq<seq<string>>) returns (text: string)
    ensures text == Render(rows)
  {
    var result: seq<string> := [];
    for k := 0 to |rows|
      invariant result == FilterMap(rows[..k], RowLine)
    {
      FilterMapSnoc(rows, k, RowLine);
      var cols := StripAll(rows[k]);
      if cols != [] {
        result := result + [Join(cols, " | ")];
      }
    }
    assert rows[..|rows|] == rows;
    text := Join(result, "\n");
  }

  /**
   * The lines come from the rows that have cells, one each and in order,
   * each the row's stripped cells joined by " | "; rows without cells are
   * dropped.
   */
  lemma RenderedRows(rows: seq<seq<string>>) returns (idx: seq<nat>)
    ensures |idx| == |Lines(rows)|
    ensures forall k | 0 <= k < |idx| ::
      idx[k] < |rows| && rows[idx[k]] != [] && Lines(rows)[k] == Join(StripAll(rows[idx[k]]), " | ")
    ensures forall k, k' | 0 <= k < k' < |idx| :: idx[k] < idx[k']
    ensures forall j | 0 <= j < |rows| && rows[j] != [] :: j in idx
  {
    idx := FilterMapPositions(rows, RowLine);
  }

  /**
   * `login_and_get_attendance`. `env` holds the process environment,
   * `form` the login form the login page has (if any), `table` the rows of
   * the attendance page's first table (if it has one). The HTTP calls are
   * taken to succeed.
   */
  method LoginAndGetAttendance(env: map<string, string>, form: Option<Form>, table: Option<seq<seq<string>>>)
    returns (reply: Reply, post: Option<Post>)
    ensures !Present(env, "MGIT_USERNAME") || !Present(env, "MGIT_PASSWORD") ==>
      reply == Returned(MissingSecret) && post.None?
    ensures Present(env, "MGIT_USERNAME") && Present(env, "MGIT_PASSWORD") ==>
      if form.None? then reply == Returned(NoForm) && post.None?
      else if form.value.action.None? then reply == Raised && post.None?
      else
        post == Some(Post(PostUrl(form.value.action.value),
                          FormData(form.value.inputs, env["MGIT_USERNAME"], env["MGIT_PASSWORD"])))
        && reply == (if table.None? then Returned(NoTable) else Returned(Render(table.value)))
  {
    post := None;
    if !Present(env, "MGIT_USERNAME") || !Present(env, "MGIT_PASSWORD") {
      return Returned(MissingSecret), post;
    }
    var username := env["MGIT_USERNAME"];
    var password := env["MGIT_PASSWORD"];
    if form.None? {
      return Returned(NoForm), post;
    }
    var data := FillNamed([], form.value.inputs);
    data := Put(data, "username", username);
    data := Put(data, "passwd", password);
    if form.value.action.None? {
      return Raised, post;
    }
    var postUrl := form.value.action.value;
    if !StartsWith(postUrl, "http") {
      postUrl := BaseUrl + "/" + LStripChar(postUrl, '/');
    }
    post := Some(Post(postUrl, data));
    if table.None? {
      return Returned(NoTable), post;
    }
    var text := RenderRows(table.value);
    reply := Returned(text);
  }
}
