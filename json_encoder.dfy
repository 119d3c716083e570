/**
  `json.dumps(value, sort_keys=True)` with Python's other defaults:
  `ensure_ascii=True` (every character outside printable ASCII is
  written as a `\uXXXX` escape, astral characters as a surrogate pair),
  separators `", "` and `": "`, no indentation, dict items in key order,
  list items in their own order.
*/
module JsonEncoder {
  import opened KeyOrder
  import opened JsonValue
  import opened Bytes

  /** Only the characters from space to tilde. */
  predicate IsPrintable(s: string)
  {
    forall i :: 0 <= i < |s| ==> ' ' <= s[i] <= '~'
  }

  lemma PrintableIsAscii(s: string)
    requires IsPrintable(s)
    ensures IsAscii(s)
  {
  }

  /** Four lower-case hex digits, as in `'\\u{0:04x}'.format(n)`. */
  function Hex4(n: nat): (r: string)
    requires n < 0x10000
    ensures |r| == 4 && IsPrintable(r) && IsLowerHex(r)
  {
    [HexDigit(n / 0x1000), HexDigit(n / 0x100 % 16), HexDigit(n / 0x10 % 16), HexDigit(n % 16)]
  }

  /** How the ASCII string encoder writes one character. */
  function EscapeChar(c: char): (r: string)
    ensures IsPrintable(r) && |r| > 0
  {
    var n := c as int;
    if c == '"' then "\\\""
    else if c == '\\' then "\\\\"
    else if n == 0x08 then "\\b"
    else if n == 0x0C then "\\f"
    else if c == '\n' then "\\n"
    else if c == '\r' then "\\r"
    else if c == '\t' then "\\t"
    else if ' ' <= c <= '~' then [c]
    else if n < 0x10000 then "\\u" + Hex4(n)
    else
      var v := n - 0x10000;
      "\\u" + Hex4(0xD800 + v / 0x400) + "\\u" + Hex4(0xDC00 + v % 0x400)
  }

  /** The escaped text of a string: each character written out in turn, taking one or more characters. */
  function EscapeString(s: string): (r: string)
    ensures |r| >= |s|
  {
    if s == [] then [] else EscapeChar(s[0]) + EscapeString(s[1..])
  }

  lemma {:induction false} EscapeStringPrintable(s: string)
    ensures IsPrintable(EscapeString(s))
  {
    if s != [] {
      EscapeStringPrintable(s[1..]);
    }
  }

  /** A string literal: the escaped text between double quotes. */
  function Quote(s: string): (r: string)
    ensures IsPrintable(r)
  {
    EscapeStringPrintable(s);
    "\"" + EscapeString(s) + "\""
  }

  function DecimalDigit(d: nat): (c: char)
    requires d < 10
    ensures '0' <= c <= '9'
  {
    ('0' as int + d) as char
  }

  /** The decimal digits of `n`, most significant first, without leading zeros. */
  function NatToDecimal(n: nat): (r: string)
    ensures |r| > 0 && (r[0] == '0' ==> n == 0)
    ensures forall i :: 0 <= i < |r| ==> '0' <= r[i] <= '9'
  {
    if n < 10 then [DecimalDigit(n)] else NatToDecimal(n / 10) + [DecimalDigit(n % 10)]
  }

  /** The number a string of decimal digits denotes. */
  function DecimalValue(s: string): (n: nat)
    requires forall i :: 0 <= i < |s| ==> '0' <= s[i] <= '9'
  {
    if s == [] then 0 else 10 * DecimalValue(s[..|s| - 1]) + (s[|s| - 1] as int - '0' as int)
  }

  /** The digits `NatToDecimal` writes denote the number it was given. */
  lemma {:induction false} NatToDecimalRoundTrip(n: nat)
    ensures DecimalValue(NatToDecimal(n)) == n
  {
    if n >= 10 {
      var s := NatToDecimal(n);
      assert s[..|s| - 1] == NatToDecimal(n / 10);
      NatToDecimalRoundTrip(n / 10);
    }
  }

  /** `repr` of a Python int. */
  function IntToDecimal(i: int): (r: string)
    ensures IsPrintable(r) && |r| > 0
  {
    if i < 0 then "-" + NatToDecimal(-i) else NatToDecimal(i)
  }

  /** `sep.join(parts)`. */
  function Join(parts: seq<string>, sep: string): (r: string)
    ensures IsPrintable(sep) && (forall i :: 0 <= i < |parts| ==> IsPrintable(parts[i])) ==> IsPrintable(r)
  {
    if |parts| == 0 then ""
    else if |parts| == 1 then parts[0]
    else parts[0] + sep + Join(parts[1..], sep)
  }

  /** The second components, in order. */
  function Texts(items: seq<(string, string)>): (r: seq<string>)
    ensures |r| == |items| && forall i :: 0 <= i < |items| ==> r[i] == items[i].1
  {
    seq(|items|, i requires 0 <= i < |items| => items[i].1)
  }

  /** Each element written out, in order. */
  function ItemTexts(xs: seq<Value>): (r: seq<string>)
    ensures |r| == |xs|
    ensures forall i :: 0 <= i < |xs| ==> IsPrintable(r[i])
    decreases xs
  {
    seq(|xs|, i requires 0 <= i < |xs| => Dumps(xs[i]))
  }

  /**
    Each dict item written out as `"key": value`, paired with its key so
    that the items can be put in key order.
  */
  function MemberTexts(m: Dict): (r: seq<(string, string)>)
    ensures |r| == |m|
    ensures forall i :: 0 <= i < |m| ==> r[i].0 == m[i].0 && IsPrintable(r[i].1)
    decreases m
  {
    seq(|m|, i requires 0 <= i < |m| =>
      assert m[i].1 < m[i];
      (m[i].0, Quote(m[i].0) + ": " + Dumps(m[i].1)))
  }

  /** `json.dumps(v, sort_keys=True)`. */
  function Dumps(v: Value): (r: string)
    ensures IsPrintable(r)
    decreases v
  {
    match v
    case Null => "null"
    case Bool(b) => if b then "true" else "false"
    case Int(i) => IntToDecimal(i)
    case Str(s) => Quote(s)
    case Array(xs) => "[" + Join(ItemTexts(xs), ", ") + "]"
    case Object(m) => "{" + JoinInKeyOrder(MemberTexts(m)) + "}"
  }

  /** The written-out items in key order, separated by `", "`. */
  function JoinInKeyOrder(members: seq<(string, string)>): (r: string)
    requires forall i :: 0 <= i < |members| ==> IsPrintable(members[i].1)
    ensures IsPrintable(r)
    ensures exists s :: Sorted(s) && multiset(s) == multiset(members) && r == Join(Texts(s), ", ")
  {
    var sorted := Sort(members);
    SortSorted(members);
    assert forall i :: 0 <= i < |sorted| ==> IsPrintable(sorted[i].1) by {
      forall i | 0 <= i < |sorted| ensures IsPrintable(sorted[i].1) {
        assert sorted[i] in multiset(members);
      }
    }
    Join(Texts(sorted), ", ")
  }

  /**
    With distinct keys the key order is unique: the items are joined in
    the one arrangement of them that is sorted by key.
  */
  lemma JoinInKeyOrderCanonical(members: seq<(string, string)>, s: seq<(string, string)>)
    requires forall i :: 0 <= i < |members| ==> IsPrintable(members[i].1)
    requires DistinctKeys(members) && Sorted(s) && multiset(s) == multiset(members)
    ensures JoinInKeyOrder(members) == Join(Texts(s), ", ")
  {
    SortSorted(members);
    SortDistinct(members);
    SortedUnique(Sort(members), s);
  }

  /**
    The output does not depend on the order in which dict items were
    inserted, at any depth: values equal up to that order are written
    identically.
  */
  lemma {:induction false} DumpsIgnoresItemOrder(a: Value, b: Value)
    requires SameUpToOrder(a, b)
    ensures Dumps(a) == Dumps(b)
    decreases a
  {
    match a
    case Array(xs) =>
      var ys := b.items;
      forall i | 0 <= i < |xs| ensures Dumps(xs[i]) == Dumps(ys[i]) {
        DumpsIgnoresItemOrder(xs[i], ys[i]);
      }
      assert ItemTexts(xs) == ItemTexts(ys);
    case Object(m) =>
      var g := b.members;
      forall i, j | 0 <= i < |m| && 0 <= j < |g| && m[i].0 == g[j].0
        ensures Dumps(m[i].1) == Dumps(g[j].1)
      {
        assert m[i].1 < a;
        DumpsIgnoresItemOrder(m[i].1, g[j].1);
      }
      MemberTextsAgree(m, g);
    case _ =>
  }

  /** Dicts with the same keys whose values are written alike are written alike. */
  lemma MemberTextsAgree(m: Dict, g: Dict)
    requires DistinctKeys(m) && DistinctKeys(g)
    requires multiset(Keys(m)) == multiset(Keys(g))
    requires forall i, j :: 0 <= i < |m| && 0 <= j < |g| && m[i].0 == g[j].0 ==>
      Dumps(m[i].1) == Dumps(g[j].1)
    ensures Dumps(Object(m)) == Dumps(Object(g))
  {
    var mt, gt := MemberTexts(m), MemberTexts(g);
    assert DistinctKeys(mt) && DistinctKeys(gt);
    SameMemberTexts(m, g);
    SameMemberTexts(g, m);
    SameItemsSameMultiset(mt, gt);
    SortPermutationInvariant(mt, gt);
  }

  /** Every written-out item of `m` is one of `g`'s. */
  lemma SameMemberTexts(m: Dict, g: Dict)
    requires multiset(Keys(m)) == multiset(Keys(g))
    requires forall i, j :: 0 <= i < |m| && 0 <= j < |g| && m[i].0 == g[j].0 ==>
      Dumps(m[i].1) == Dumps(g[j].1)
    ensures forall x :: x in MemberTexts(m) ==> x in MemberTexts(g)
  {
    var mt, gt := MemberTexts(m), MemberTexts(g);
    forall x | x in mt ensures x in gt {
      var i :| 0 <= i < |mt| && mt[i] == x;
      var j := MatchingKey(m, g, i);
      assert gt[j] == x;
    }
  }

  /** Dicts with the same multiset of keys: the key at position `i` of `m` is somewhere in `g`. */
  lemma MatchingKey(m: Dict, g: Dict, i: nat) returns (j: nat)
    requires multiset(Keys(m)) == multiset(Keys(g)) && i < |m|
    ensures j < |g| && g[j].0 == m[i].0
  {
    assert Keys(m)[i] in multiset(Keys(g));
    j :| 0 <= j < |g| && Keys(g)[j] == m[i].0;
  }
}
