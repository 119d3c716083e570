/**
  Ordering of text keys and sorting of (key, value) items by key.

  Python compares `str` values lexicographically by code point; `sorted`
  on the items of a dict whose keys are distinct therefore orders them by
  key alone. This module gives that order, an insertion sort by key, and
  the fact that makes `sort_keys=True` canonical: two sorted item lists
  with the same items and distinct keys are equal.
*/
module KeyOrder {

  /** Strict lexicographic order on strings, character by character. */
  predicate Less(a: string, b: string)
    decreases |a|
  {
    if a == [] then b != []
    else b != [] && (a[0] < b[0] || (a[0] == b[0] && Less(a[1..], b[1..])))
  }

  lemma {:induction false} LessIrreflexive(a: string)
    ensures !Less(a, a)
    decreases |a|
  {
    if a != [] {
      LessIrreflexive(a[1..]);
    }
  }

  lemma {:induction false} LessTransitive(a: string, b: string, c: string)
    requires Less(a, b) && Less(b, c)
    ensures Less(a, c)
    decreases |a|
  {
    if a != [] && a[0] == b[0] && b[0] == c[0] {
      LessTransitive(a[1..], b[1..], c[1..]);
    }
  }

  lemma {:induction false} LessTotal(a: string, b: string)
    requires a != b
    ensures Less(a, b) || Less(b, a)
    decreases |a|
  {
    if a != [] && b != [] && a[0] == b[0] {
      assert a == [a[0]] + a[1..] && b == [b[0]] + b[1..];
      LessTotal(a[1..], b[1..]);
    }
  }

  /** `a` sorts no later than `b`. */
  predicate AtMost(a: string, b: string)
  {
    !Less(b, a)
  }

  lemma AtMostTransitive(a: string, b: string, c: string)
    requires AtMost(a, b) && AtMost(b, c)
    ensures AtMost(a, c)
  {
    if Less(c, a) {
      if a != b { LessTotal(a, b); LessTransitive(c, a, b); }
      if b != c { LessTotal(b, c); }
      if a != b && b != c { LessTransitive(c, a, b); LessIrreflexive(c); LessTransitive(c, b, c); }
      LessIrreflexive(c);
    }
  }

  lemma AtMostAntisymmetric(a: string, b: string)
    requires AtMost(a, b) && AtMost(b, a)
    ensures a == b
  {
    if a != b { LessTotal(a, b); }
  }

  /** Keys appear in non-decreasing order. */
  predicate Sorted<V>(s: seq<(string, V)>)
  {
    forall i, j :: 0 <= i < j < |s| ==> AtMost(s[i].0, s[j].0)
  }

  /** No key occurs twice, as in every Python dict. */
  predicate DistinctKeys<V>(s: seq<(string, V)>)
  {
    forall i, j :: 0 <= i < j < |s| ==> s[i].0 != s[j].0
  }

  /** No item of `s` has key `k`. */
  predicate NoKey<V>(s: seq<(string, V)>, k: string)
  {
    forall i :: 0 <= i < |s| ==> s[i].0 != k
  }

  lemma NoKeyPermutation<V>(s: seq<(string, V)>, t: seq<(string, V)>, k: string)
    requires multiset(s) == multiset(t) && NoKey(s, k)
    ensures NoKey(t, k)
  {
    forall j | 0 <= j < |t| ensures t[j].0 != k {
      assert t[j] in multiset(s);
    }
  }

  /** Putting in front an item whose key is at most every key keeps a list sorted. */
  lemma ConsSorted<V>(x: (string, V), s: seq<(string, V)>)
    requires Sorted(s)
    requires forall j :: 0 <= j < |s| ==> AtMost(x.0, s[j].0)
    ensures Sorted([x] + s)
  {
  }

  lemma ConsDistinct<V>(x: (string, V), s: seq<(string, V)>)
    requires DistinctKeys(s) && NoKey(s, x.0)
    ensures DistinctKeys([x] + s)
  {
  }

  /** Inserts `p` before the first item whose key is not smaller than its own. */
  function Insert<V>(p: (string, V), s: seq<(string, V)>): (r: seq<(string, V)>)
    ensures multiset(r) == multiset(s) + multiset{p}
  {
    if s == [] || AtMost(p.0, s[0].0) then [p] + s
    else
      assert s == [s[0]] + s[1..];
      [s[0]] + Insert(p, s[1..])
  }

  lemma {:induction false} InsertSorted<V>(p: (string, V), s: seq<(string, V)>)
    requires Sorted(s)
    ensures Sorted(Insert(p, s))
  {
    if s == [] || AtMost(p.0, s[0].0) {
      forall j | 0 <= j < |s| ensures AtMost(p.0, s[j].0) {
        if j > 0 { AtMostTransitive(p.0, s[0].0, s[j].0); }
      }
      ConsSorted(p, s);
    } else {
      var rest := Insert(p, s[1..]);
      InsertSorted(p, s[1..]);
      InsertHeadBound(p, s, rest);
      ConsSorted(s[0], rest);
    }
  }

  lemma {:induction false} InsertDistinct<V>(p: (string, V), s: seq<(string, V)>)
    requires DistinctKeys(s) && NoKey(s, p.0)
    ensures DistinctKeys(Insert(p, s))
  {
    if s == [] || AtMost(p.0, s[0].0) {
      ConsDistinct(p, s);
    } else {
      var rest := Insert(p, s[1..]);
      InsertDistinct(p, s[1..]);
      assert s == [s[0]] + s[1..];
      assert NoKey(s[1..], s[0].0);
      NoKeyPermutation(s[1..] + [p], rest, s[0].0);
      ConsDistinct(s[0], rest);
    }
  }

  /** After the head of `s`, which is smaller than `p`, come only items no smaller than it. */
  lemma InsertHeadBound<V>(p: (string, V), s: seq<(string, V)>, rest: seq<(string, V)>)
    requires Sorted(s) && s != [] && Less(s[0].0, p.0)
    requires multiset(rest) == multiset(s[1..]) + multiset{p}
    ensures forall j :: 0 <= j < |rest| ==> AtMost(s[0].0, rest[j].0)
  {
    forall j | 0 <= j < |rest| ensures AtMost(s[0].0, rest[j].0) {
      assert rest[j] in multiset(rest);
      if rest[j] != p {
        assert rest[j] in s[1..];
        var k :| 0 <= k < |s[1..]| && s[1..][k] == rest[j];
        assert s[k + 1] == rest[j];
      } else if Less(p.0, s[0].0) {
        LessTransitive(s[0].0, p.0, s[0].0);
        LessIrreflexive(s[0].0);
      }
    }
  }

  /** Insertion sort by key; stable, so items with equal keys keep their order. */
  function Sort<V>(s: seq<(string, V)>): (r: seq<(string, V)>)
    ensures multiset(r) == multiset(s)
  {
    if s == [] then []
    else
      assert s == [s[0]] + s[1..];
      Insert(s[0], Sort(s[1..]))
  }

  lemma {:induction false} SortSorted<V>(s: seq<(string, V)>)
    ensures Sorted(Sort(s))
  {
    if s != [] {
      SortSorted(s[1..]);
      InsertSorted(s[0], Sort(s[1..]));
    }
  }

  lemma {:induction false} SortDistinct<V>(s: seq<(string, V)>)
    requires DistinctKeys(s)
    ensures DistinctKeys(Sort(s))
  {
    if s != [] {
      assert NoKey(s[1..], s[0].0);
      SortDistinct(s[1..]);
      NoKeyPermutation(s[1..], Sort(s[1..]), s[0].0);
      InsertDistinct(s[0], Sort(s[1..]));
    }
  }

  /** Sorted distinct-key lists holding the same items start with the same item. */
  lemma SameFirst<V>(s: seq<(string, V)>, t: seq<(string, V)>)
    requires Sorted(s) && Sorted(t) && DistinctKeys(s)
    requires multiset(s) == multiset(t) && s != []
    ensures t != [] && s[0] == t[0]
  {
    assert s[0] in multiset(t);
    assert t[0] in multiset(s);
    var j :| 0 <= j < |t| && t[j] == s[0];
    var i :| 0 <= i < |s| && s[i] == t[0];
    // s[0] <= s[i] == t[0] <= t[j] == s[0]
    LessIrreflexive(s[0].0);
    LessIrreflexive(t[0].0);
    assert AtMost(s[0].0, s[i].0) by {
      if i > 0 { assert Sorted(s); }
    }
    assert AtMost(t[0].0, t[j].0) by {
      if j > 0 { assert Sorted(t); }
    }
    AtMostAntisymmetric(s[0].0, t[0].0);
    assert i == 0;
  }

  /**
    Sorting is canonical: sorted item lists with distinct keys that hold
    the same items are the same list, whatever order the items came in.
  */
  lemma {:induction false} SortedUnique<V>(s: seq<(string, V)>, t: seq<(string, V)>)
    requires Sorted(s) && Sorted(t) && DistinctKeys(s)
    requires multiset(s) == multiset(t)
    ensures s == t
    decreases |s|
  {
    if s == [] {
      assert |multiset(t)| == 0;
    } else {
      SameFirst(s, t);
      TailMultiset(s);
      TailMultiset(t);
      SortedTail(s);
      SortedTail(t);
      SortedUnique(s[1..], t[1..]);
    }
  }

  lemma TailMultiset<V>(s: seq<(string, V)>)
    requires s != []
    ensures multiset(s[1..]) == multiset(s) - multiset{s[0]}
  {
    assert s == [s[0]] + s[1..];
  }

  lemma SortedTail<V>(s: seq<(string, V)>)
    requires s != [] && Sorted(s)
    ensures Sorted(s[1..])
    ensures DistinctKeys(s) ==> DistinctKeys(s[1..])
  {
  }

  /** Sorting two arrangements of the same distinct-key items gives one result. */
  lemma SortPermutationInvariant<V>(s: seq<(string, V)>, t: seq<(string, V)>)
    requires DistinctKeys(s) && multiset(s) == multiset(t)
    ensures Sort(s) == Sort(t)
  {
    SortSorted(s);
    SortSorted(t);
    SortDistinct(s);
    SortedUnique(Sort(s), Sort(t));
  }

  /** In a list with distinct keys every item occurs at most once. */
  lemma {:induction false} DistinctCount<V>(s: seq<(string, V)>, x: (string, V))
    requires DistinctKeys(s)
    ensures multiset(s)[x] == if x in s then 1 else 0
  {
    if s != [] {
      assert s == [s[0]] + s[1..];
      DistinctCount(s[1..], x);
      if x == s[0] {
        assert NoKey(s[1..], x.0);
      }
    }
  }

  /** Two different positions of a list hold two of its items. */
  lemma PairInMultiset<V>(t: seq<(string, V)>, i: nat, j: nat)
    requires i < j < |t|
    ensures multiset{t[i], t[j]} <= multiset(t)
  {
    assert t == t[..i] + [t[i]] + t[i + 1..j] + [t[j]] + t[j + 1..];
  }

  /** A rearrangement of a list with distinct keys has distinct keys. */
  lemma DistinctKeysPermutation<V>(s: seq<(string, V)>, t: seq<(string, V)>)
    requires DistinctKeys(s) && multiset(s) == multiset(t)
    ensures DistinctKeys(t)
  {
    forall i, j | 0 <= i < j < |t| ensures t[i].0 != t[j].0 {
      if t[i].0 == t[j].0 {
        assert t[i] in multiset(s) && t[j] in multiset(s);
        var a :| 0 <= a < |s| && s[a] == t[i];
        var b :| 0 <= b < |s| && s[b] == t[j];
        PairInMultiset(t, i, j);
        DistinctCount(s, t[i]);
        assert false;
      }
    }
  }

  /** Two distinct-key lists with the same items are rearrangements of each other. */
  lemma SameItemsSameMultiset<V>(s: seq<(string, V)>, t: seq<(string, V)>)
    requires DistinctKeys(s) && DistinctKeys(t)
    requires forall x :: x in s <==> x in t
    ensures multiset(s) == multiset(t)
  {
    forall x ensures multiset(s)[x] == multiset(t)[x] {
      DistinctCount(s, x);
      DistinctCount(t, x);
    }
  }
}
