/**
 * The two collection shapes the Python scripts build in loops: a list made
 * by appending what each element yields (a filter-map), and a dictionary
 * that keeps its keys in insertion order.
 */
module Collections {
  import opened Wrappers

  /** What appending `f(x)` for each x that yields something builds, in order. */
  function FilterMap<A, B>(xs: seq<A>, f: A -> Option<B>): (r: seq<B>)
    ensures |r| <= |xs|
  {
    if xs == [] then []
    else
      var init := FilterMap(xs[..|xs| - 1], f);
      match f(xs[|xs| - 1])
        case Some(b) => init + [b]
        case None => init
  }

  /**
   * Each result comes from its own element, in the elements' order, and
   * every element that yields something contributes.
   */
  lemma {:induction false} FilterMapPositions<A, B>(xs: seq<A>, f: A -> Option<B>) returns (idx: seq<nat>)
    ensures |idx| == |FilterMap(xs, f)|
    ensures forall k | 0 <= k < |idx| :: idx[k] < |xs| && f(xs[idx[k]]) == Some(FilterMap(xs, f)[k])
    ensures forall k, k' | 0 <= k < k' < |idx| :: idx[k] < idx[k']
    ensures forall j | 0 <= j < |xs| && f(xs[j]).Some? :: j in idx
  {
    if xs == [] {
      idx := [];
    } else {
      var n := |xs| - 1;
      var init := xs[..n];
      var p := FilterMapPositions(init, f);
      assert forall j | 0 <= j < n :: init[j] == xs[j];
      if f(xs[n]).Some? {
        idx := p + [n];
      } else {
        idx := p;
      }
    }
  }

  /** Nothing is built exactly when no element yields anything. */
  lemma {:induction false} FilterMapEmpty<A, B>(xs: seq<A>, f: A -> Option<B>)
    ensures FilterMap(xs, f) == [] <==> forall j | 0 <= j < |xs| :: f(xs[j]).None?
  {
    if xs != [] {
      var n := |xs| - 1;
      FilterMapEmpty(xs[..n], f);
      assert forall j | 0 <= j < n :: xs[..n][j] == xs[j];
    }
  }

  /** One step of the loop that appends. */
  lemma FilterMapSnoc<A, B>(xs: seq<A>, k: nat, f: A -> Option<B>)
    requires k < |xs|
    ensures FilterMap(xs[..k + 1], f) == FilterMap(xs[..k], f) + (if f(xs[k]).Some? then [f(xs[k]).value] else [])
  {
    assert xs[..k + 1][..k] == xs[..k];
  }

  /** The last position whose element satisfies p (what a loop that reassigns on every hit ends with). */
  function LastWhere<A>(xs: seq<A>, p: A -> bool): (r: Option<nat>)
    ensures r.Some? ==> r.value < |xs| && p(xs[r.value]) && forall j | r.value < j < |xs| :: !p(xs[j])
    ensures r.None? ==> forall j | 0 <= j < |xs| :: !p(xs[j])
  {
    if xs == [] then None
    else if p(xs[|xs| - 1]) then Some(|xs| - 1)
    else LastWhere(xs[..|xs| - 1], p)
  }

  /** One step of that loop. */
  lemma LastWhereSnoc<A>(xs: seq<A>, k: nat, p: A -> bool)
    requires k < |xs|
    ensures LastWhere(xs[..k + 1], p) == if p(xs[k]) then Some(k) else LastWhere(xs[..k], p)
  {
    assert xs[..k + 1][..k] == xs[..k];
  }

  /** A dictionary entry. */
  datatype Entry<V> = Entry(key: string, val: V)

  /** A Python dict: entries in insertion order, each key once. */
  type Dict<V> = seq<Entry<V>>

  predicate DistinctKeys<V>(d: Dict<V>)
  {
    forall i, j | 0 <= i < j < |d| :: d[i].key != d[j].key
  }

  function Keys<V>(d: Dict<V>): (r: seq<string>)
    ensures |r| == |d| && forall i | 0 <= i < |d| :: r[i] == d[i].key
  {
    seq(|d|, i requires 0 <= i < |d| => d[i].key)
  }

  /** The position of key k. */
  function Find<V>(d: Dict<V>, k: string): (r: Option<nat>)
    ensures r.Some? ==> r.value < |d| && d[r.value].key == k
    ensures r.None? ==> forall i | 0 <= i < |d| :: d[i].key != k
  {
    if d == [] then None
    else if d[|d| - 1].key == k then Some(|d| - 1)
    else Find(d[..|d| - 1], k)
  }

  function Get<V>(d: Dict<V>, k: string): Option<V>
  {
    match Find(d, k)
      case Some(i) => Some(d[i].val)
      case None => None
  }

  /** `d[k] = v`: an existing key keeps its place and takes the new value; a new key goes last. */
  function Put<V>(d: Dict<V>, k: string, v: V): (r: Dict<V>)
  {
    match Find(d, k)
      case Some(i) => d[i := Entry(k, v)]
      case None => d + [Entry(k, v)]
  }

  /** Assignment keeps keys distinct, stores the value and leaves every other key's value alone. */
  lemma PutGet<V>(d: Dict<V>, k: string, v: V)
    requires DistinctKeys(d)
    ensures DistinctKeys(Put(d, k, v))
    ensures Get(Put(d, k, v), k) == Some(v)
    ensures forall k' | k' != k :: Get(Put(d, k, v), k') == Get(d, k')
  {
    var r := Put(d, k, v);
    forall k' ensures Get(r, k') == if k' == k then Some(v) else Get(d, k') {
      var f := Find(r, k');
      if f.Some? && f.value < |d| {
        assert r[f.value].key == d[f.value].key;
      }
      var g := Find(d, k');
      if g.Some? {
        assert r[g.value].key == k';
      }
    }
  }

  /** Assignment never reorders: old keys keep their positions, a new key is appended. */
  lemma PutKeys<V>(d: Dict<V>, k: string, v: V)
    ensures Keys(Put(d, k, v)) == if k in Keys(d) then Keys(d) else Keys(d) + [k]
  {
    if k !in Keys(d) {
      assert Find(d, k).None?;
    } else {
      var i :| 0 <= i < |d| && Keys(d)[i] == k;
    }
  }

  /** A dict whose values may be None: each value wrapped in Some. */
  function Lift<V>(d: Dict<V>): (r: Dict<Option<V>>)
    ensures |r| == |d| && forall i | 0 <= i < |d| :: r[i] == Entry(d[i].key, Some(d[i].val))
  {
    seq(|d|, i requires 0 <= i < |d| => Entry(d[i].key, Some(d[i].val)))
  }

  /** Lifting keeps the keys distinct, and a key's value is its old one in Some. */
  lemma LiftGet<V>(d: Dict<V>, k: string)
    requires DistinctKeys(d)
    ensures DistinctKeys(Lift(d))
    ensures Get(Lift(d), k) == match Get(d, k) case Some(v) => Some(Some(v)) case None => None
  {
    var l := Lift(d);
    var f := Find(l, k);
    var g := Find(d, k);
    if f.Some? {
      assert d[f.value].key == k;
      assert g.Some? && g.value == f.value;
    } else {
      assert g.None?;
    }
  }

  /** The body `requests` encodes from a dict: the entries whose value is None are left out, the others kept in order. */
  function Encoded<V>(d: Dict<Option<V>>): Dict<V>
  {
    if d == [] then []
    else
      var e := d[|d| - 1];
      Encoded(d[..|d| - 1]) + (if e.val.Some? then [Entry(e.key, e.val.value)] else [])
  }

  /** A looked-up value that may be None: sent when present and not None. */
  function NoneDropped<V>(o: Option<Option<V>>): Option<V>
  {
    if o.Some? && o.value.Some? then o.value else None
  }

  /** An entry appended under another key does not change a lookup. */
  lemma GetSnocOther<V>(d: Dict<V>, e: Entry<V>, k: string)
    requires e.key != k
    ensures Get(d + [e], k) == Get(d, k)
  {
    assert (d + [e])[..|d|] == d;
  }

  /**
   * Encoding keeps the keys distinct; a key is sent with its value when
   * that value is not None, and is absent when it is None or missing.
   */
  lemma {:induction false} EncodedGet<V>(d: Dict<Option<V>>, k: string)
    requires DistinctKeys(d)
    ensures DistinctKeys(Encoded(d))
    ensures Get(Encoded(d), k) == NoneDropped(Get(d, k))
  {
    if d != [] {
      var n := |d| - 1;
      var init := d[..n];
      var e := d[n];
      assert DistinctKeys(init);
      EncodedGet(init, k);
      EncodedGet(init, e.key);
      assert Find(init, e.key).None?;
      var x := Encoded(init);
      assert Find(x, e.key).None?;
      if e.val.Some? {
        var y := x + [Entry(e.key, e.val.value)];
        assert Encoded(d) == y;
        assert forall i | 0 <= i < |x| :: y[i].key != e.key;
        if e.key != k {
          GetSnocOther(x, Entry(e.key, e.val.value), k);
        }
      } else {
        assert Encoded(d) == x;
      }
      if e.key != k {
        assert Find(d, k) == Find(init, k);
      }
    }
  }

  /**
   * `d[k1] = v1; d[k2] = v2` on a dict of strings, then encoded: k2 holds
   * v2 (sent when not None), k1 holds v1 unless k1 is k2, and every other
   * key keeps its value.
   */
  lemma AssignTwoEncoded<V>(d: Dict<V>, k1: string, v1: Option<V>, k2: string, v2: Option<V>, key: string)
    requires DistinctKeys(d)
    ensures var e := Encoded(Put(Put(Lift(d), k1, v1), k2, v2));
      DistinctKeys(e)
      && Get(e, k2) == v2
      && (k1 != k2 ==> Get(e, k1) == v1)
      && (key != k1 && key != k2 ==> Get(e, key) == Get(d, key))
  {
    var l := Lift(d);
    LiftGet(d, key);
    PutGet(l, k1, v1);
    var l1 := Put(l, k1, v1);
    PutGet(l1, k2, v2);
    var l2 := Put(l1, k2, v2);
    EncodedGet(l2, k2);
    EncodedGet(l2, k1);
    EncodedGet(l2, key);
  }
}
