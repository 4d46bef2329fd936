/**
 * Login forms as the request-based scripts read them: each `<input>`
 * element's attributes, and the dictionary of named inputs they post
 * (`d[name] = inp.get("value", "")` for every input whose name is truthy).
 */
module Forms {
  import opened Wrappers
  import opened Text
  import opened Collections

  /** An `<input>` element: its `name`, `type` and `value` attributes, None when absent. */
  datatype Input = Input(name: Option<string>, kind: Option<string>, value: Option<string>)

  /** A login form: its `action` attribute (None when absent) and its inputs. */
  datatype Form = Form(action: Option<string>, inputs: seq<Input>)

  /** `inp.get(attr, default)`. */
  function Attr(a: Option<string>, default: string): string
  {
    match a
      case Some(v) => v
      case None => default
  }

  /** Python truthiness of an optional attribute: present and non-empty. */
  predicate Truthy(a: Option<string>)
  {
    a.Some? && a.value != ""
  }

  /** The input is posted under `key`. */
  predicate NamedAs(inp: Input, key: string)
  {
    Truthy(inp.name) && inp.name.value == key
  }

  /** The predicate "posted under key", as a value for searches. */
  function PostedUnder(key: string): Input -> bool
  {
    inp => NamedAs(inp, key)
  }

  /** The dictionary d after the assignment loop over the inputs. */
  function Fill(d: Dict<string>, inputs: seq<Input>): Dict<string>
  {
    if inputs == [] then d
    else
      var init := Fill(d, inputs[..|inputs| - 1]);
      var last := inputs[|inputs| - 1];
      if Truthy(last.name) then Put(init, last.name.value, Attr(last.value, "")) else init
  }

  /** The assignment loop itself. */
  method FillNamed(d: Dict<string>, inputs: seq<Input>) returns (r: Dict<string>)
    ensures r == Fill(d, inputs)
  {
    r := d;
    for k := 0 to |inputs|
      invariant r == Fill(d, inputs[..k])
    {
      assert inputs[..k + 1][..k] == inputs[..k];
      var name := inputs[k].name;
      if name.Some? && name.value != "" {
        r := Put(r, name.value, Attr(inputs[k].value, ""));
      }
    }
    assert inputs[..|inputs|] == inputs;
  }

  /**
   * Keys stay distinct; a key some input is named by holds the value of the
   * last such input (its `value`, or "" without one); any other key keeps
   * what it held before the loop.
   */
  lemma {:induction false} FillGet(d: Dict<string>, inputs: seq<Input>, key: string)
    requires DistinctKeys(d)
    ensures DistinctKeys(Fill(d, inputs))
    ensures Get(Fill(d, inputs), key) ==
      match LastWhere(inputs, PostedUnder(key))
        case Some(i) => Some(Attr(inputs[i].value, ""))
        case None => Get(d, key)
  {
    if inputs != [] {
      var n := |inputs| - 1;
      FillGet(d, inputs[..n], key);
      var init := Fill(d, inputs[..n]);
      var last := inputs[n];
      if Truthy(last.name) {
        PutGet(init, last.name.value, Attr(last.value, ""));
      }
    }
  }

  /** Starting from nothing: a key is present exactly when some input is named by it. */
  lemma NamedInputsOnly(inputs: seq<Input>, key: string)
    ensures DistinctKeys(Fill([], inputs))
    ensures Get(Fill([], inputs), key).Some? <==> exists i | 0 <= i < |inputs| :: NamedAs(inputs[i], key)
  {
    FillGet([], inputs, key);
    if Get(Fill([], inputs), key).Some? {
      var i := LastWhere(inputs, PostedUnder(key)).value;
      assert PostedUnder(key)(inputs[i]);
    } else {
      forall i | 0 <= i < |inputs| ensures !NamedAs(inputs[i], key) {
        assert !PostedUnder(key)(inputs[i]);
      }
    }
  }
}
