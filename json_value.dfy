/**
  The values `json.dumps` accepts from the ledger: None, booleans,
  integers, strings, lists and dicts with string keys.

  A Python dict remembers insertion order, so it is modelled as the
  sequence of its (key, value) items in that order; `Set` and `Pop` are
  `d[k] = v` and `d.pop(k, None)`. Every dict Python builds has distinct
  keys (`KeyOrder.DistinctKeys`).
*/
module JsonValue {
  import opened KeyOrder

  datatype Value =
    | Null
    | Bool(b: bool)
    | Int(i: int)
    | Str(s: string)
    | Array(items: seq<Value>)
    | Object(members: seq<(string, Value)>)

  type Dict = seq<(string, Value)>

  /** The keys of `d`, in insertion order. */
  function Keys(d: Dict): (ks: seq<string>)
    ensures |ks| == |d|
    ensures forall i :: 0 <= i < |d| ==> ks[i] == d[i].0
  {
    if d == [] then [] else [d[0].0] + Keys(d[1..])
  }

  /** `d[k] = v`: replaces the value of an existing key in place, or adds the key last. */
  function Set(d: Dict, k: string, v: Value): (r: Dict)
    ensures (k, v) in r
    ensures forall p :: p in r && p.0 != k <==> p in d && p.0 != k
    ensures NoKey(d, k) ==> r == d + [(k, v)]
  {
    if d == [] then [(k, v)]
    else if d[0].0 == k then [(k, v)] + d[1..]
    else [d[0]] + Set(d[1..], k, v)
  }

  /**
    `d[k] = v` keeps a dict's keys distinct; it grows the dict by one item
    exactly when `k` is new.
  */
  lemma {:induction false} SetKeepsDistinct(d: Dict, k: string, v: Value)
    requires DistinctKeys(d)
    ensures |Set(d, k, v)| == if NoKey(d, k) then |d| + 1 else |d|
    ensures DistinctKeys(Set(d, k, v))
  {
    if d != [] && d[0].0 != k {
      assert NoKey(d[1..], d[0].0);
      assert NoKey(d, k) <==> NoKey(d[1..], k);
      SetKeepsDistinct(d[1..], k, v);
    }
  }

  /** `d.pop(k, None)`: drops the item with key `k`, keeping the others in order. */
  function Pop(d: Dict, k: string): (r: Dict)
    ensures NoKey(r, k)
    ensures forall p :: p in r <==> p in d && p.0 != k
    ensures DistinctKeys(d) ==> DistinctKeys(r)
    ensures NoKey(d, k) ==> r == d
  {
    if d == [] then []
    else if d[0].0 == k then Pop(d[1..], k)
    else
      var rest := Pop(d[1..], k);
      assert DistinctKeys(d) ==> NoKey(rest, d[0].0) by {
        if DistinctKeys(d) {
          forall i | 0 <= i < |rest| ensures rest[i].0 != d[0].0 {
            assert rest[i] in d[1..];
          }
        }
      }
      [d[0]] + rest
  }

  /** Popping a key removes what setting it put there. */
  lemma {:induction false} PopAfterSet(d: Dict, k: string, v: Value)
    ensures Pop(Set(d, k, v), k) == Pop(d, k)
  {
    if d != [] && d[0].0 != k {
      PopAfterSet(d[1..], k, v);
    }
  }

  /**
    `a` and `b` hold the same data and differ at most in the insertion
    order of dict items, at any depth: arrays agree position by position,
    dicts have distinct keys, the same keys, and equivalent values under
    each key.
  */
  predicate SameUpToOrder(a: Value, b: Value)
    decreases a
  {
    match a
    case Array(xs) =>
      b.Array? && |xs| == |b.items| &&
      forall i :: 0 <= i < |xs| ==> SameUpToOrder(xs[i], b.items[i])
    case Object(m) =>
      b.Object? && DistinctKeys(m) && DistinctKeys(b.members) &&
      multiset(Keys(m)) == multiset(Keys(b.members)) &&
      forall i, j :: 0 <= i < |m| && 0 <= j < |b.members| && m[i].0 == b.members[j].0 ==>
        SameUpToOrder(m[i].1, b.members[j].1)
    case _ => a == b
  }

  /** Every dict, at any depth, has distinct keys, as every Python dict does. */
  predicate WellFormed(v: Value)
    decreases v
  {
    match v
    case Array(xs) => forall i :: 0 <= i < |xs| ==> WellFormed(xs[i])
    case Object(m) => DistinctKeys(m) && forall i :: 0 <= i < |m| ==> WellFormed(m[i].1)
    case _ => true
  }

  /** Every value Python can build is equivalent to itself. */
  lemma {:induction false} SameUpToOrderReflexive(v: Value)
    requires WellFormed(v)
    ensures SameUpToOrder(v, v)
    decreases v
  {
    match v
    case Array(xs) =>
      forall i | 0 <= i < |xs| ensures SameUpToOrder(xs[i], xs[i]) {
        SameUpToOrderReflexive(xs[i]);
      }
    case Object(m) =>
      forall i, j | 0 <= i < |m| && 0 <= j < |m| && m[i].0 == m[j].0
        ensures SameUpToOrder(m[i].1, m[j].1)
      {
        assert i == j;
        assert m[i].1 < m[i];
        SameUpToOrderReflexive(m[i].1);
      }
    case _ =>
  }

  /** In a dict with distinct keys every key occurs once in its key list. */
  lemma {:induction false} KeyCount(d: Dict, k: string)
    requires DistinctKeys(d)
    ensures multiset(Keys(d))[k] == if k in Keys(d) then 1 else 0
  {
    if d != [] {
      assert Keys(d) == [d[0].0] + Keys(d[1..]);
      KeyCount(d[1..], k);
      if k == d[0].0 {
        assert NoKey(d[1..], k);
      }
    }
  }

  /** Rearranging the items of a dict with distinct keys rearranges its keys. */
  lemma PermutationKeys(d: Dict, e: Dict)
    requires DistinctKeys(d) && DistinctKeys(e) && multiset(d) == multiset(e)
    ensures multiset(Keys(d)) == multiset(Keys(e))
  {
    forall k ensures multiset(Keys(d))[k] == multiset(Keys(e))[k] {
      KeyCount(d, k);
      KeyCount(e, k);
      if k in Keys(d) {
        KeyInPermutation(d, e, k);
      }
      if k in Keys(e) {
        KeyInPermutation(e, d, k);
      }
    }
  }

  /** A key of a dict is a key of every rearrangement of its items. */
  lemma KeyInPermutation(d: Dict, e: Dict, k: string)
    requires multiset(d) == multiset(e) && k in Keys(d)
    ensures k in Keys(e)
  {
    var a :| 0 <= a < |d| && Keys(d)[a] == k;
    assert d[a] in multiset(e);
    var b :| 0 <= b < |e| && e[b] == d[a];
    assert Keys(e)[b] == k;
  }

  /**
    A rearrangement of a dict's items is the same dict up to item order,
    when its values are ones Python can build.
  */
  lemma PermutationSameUpToOrder(d: Dict, e: Dict)
    requires DistinctKeys(d) && multiset(d) == multiset(e)
    requires forall i :: 0 <= i < |d| ==> WellFormed(d[i].1)
    ensures SameUpToOrder(Object(d), Object(e))
  {
    DistinctKeysPermutation(d, e);
    PermutationKeys(d, e);
    forall i, j | 0 <= i < |d| && 0 <= j < |e| && d[i].0 == e[j].0
      ensures SameUpToOrder(d[i].1, e[j].1)
    {
      assert e[j] in multiset(d);
      var a :| 0 <= a < |d| && d[a] == e[j];
      assert a == i;
      SameUpToOrderReflexive(d[i].1);
    }
  }

  /** Popping `k` removes every occurrence of `k` from the multiset of keys and nothing else. */
  lemma {:induction false} PopKeys(d: Dict, k: string)
    ensures multiset(Keys(Pop(d, k))) == multiset(Keys(d))[k := 0]
  {
    if d != [] {
      PopKeys(d[1..], k);
      assert Keys(d) == [d[0].0] + Keys(d[1..]);
      if d[0].0 != k {
        assert Keys(Pop(d, k)) == [d[0].0] + Keys(Pop(d[1..], k));
      }
    }
  }

  /** Popping the same key from two equivalent dicts leaves equivalent dicts. */
  lemma PopSameUpToOrder(d: Dict, e: Dict, k: string)
    requires SameUpToOrder(Object(d), Object(e))
    ensures SameUpToOrder(Object(Pop(d, k)), Object(Pop(e, k)))
  {
    var pd, pe := Pop(d, k), Pop(e, k);
    assert DistinctKeys(d) && DistinctKeys(e);
    assert DistinctKeys(pd) && DistinctKeys(pe);
    assert multiset(Keys(pd)) == multiset(Keys(pe)) by {
      PopKeys(d, k);
      PopKeys(e, k);
    }
    forall i, j | 0 <= i < |pd| && 0 <= j < |pe| && pd[i].0 == pe[j].0
      ensures SameUpToOrder(pd[i].1, pe[j].1)
    {
      ValuesAgree(d, e, pd[i], pe[j]);
    }
  }

  /** Items with the same key in two equivalent dicts have equivalent values. */
  lemma ValuesAgree(d: Dict, e: Dict, p: (string, Value), q: (string, Value))
    requires SameUpToOrder(Object(d), Object(e))
    requires p in d && q in e && p.0 == q.0
    ensures SameUpToOrder(p.1, q.1)
  {
  }

  /** Dicts with the same keys in the same order and equivalent values under each are equivalent. */
  lemma SameUpToOrderPointwise(m: Dict, g: Dict)
    requires DistinctKeys(m) && |m| == |g|
    requires forall j :: 0 <= j < |m| ==> m[j].0 == g[j].0 && SameUpToOrder(m[j].1, g[j].1)
    ensures SameUpToOrder(Object(m), Object(g))
  {
    assert Keys(m) == Keys(g);
    forall j, k | 0 <= j < |m| && 0 <= k < |g| && m[j].0 == g[k].0
      ensures SameUpToOrder(m[j].1, g[k].1)
    {
      assert m[j].0 == m[k].0;
    }
  }

  /**
    Replacing one value of a dict by an equivalent one gives an
    equivalent dict, when every other value is equivalent to itself.
  */
  lemma SameUpToOrderReplace(d: Dict, i: nat, p: Value, q: Value)
    requires DistinctKeys(d) && i < |d| && SameUpToOrder(p, q)
    requires forall j :: 0 <= j < |d| && j != i ==> SameUpToOrder(d[j].1, d[j].1)
    ensures SameUpToOrder(Object(d[i := (d[i].0, p)]), Object(d[i := (d[i].0, q)]))
  {
    var dp, dq := d[i := (d[i].0, p)], d[i := (d[i].0, q)];
    assert DistinctKeys(dp);
    SameUpToOrderPointwise(dp, dq);
  }
}
