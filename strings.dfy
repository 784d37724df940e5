/** The ordinal string comparisons, filters and sorts that both combiners apply to file names. */
module Strings {
  import opened Wrappers

  // ---------------------------------------------------------------------------
  // Case-insensitive and suffix tests

  /** ASCII upper-case letters mapped to lower case; every other character unchanged. */
  function ToLower(c: char): char {
    if 'A' <= c <= 'Z' then (c as int + 32) as char else c
  }

  function LowerAll(s: string): (r: string)
    ensures |r| == |s|
  {
    if s == [] then [] else [ToLower(s[0])] + LowerAll(s[1..])
  }

  predicate StartsWith(s: string, prefix: string) {
    |prefix| <= |s| && s[..|prefix|] == prefix
  }

  /** `String.EndsWith` with an ordinal comparison. */
  predicate EndsWith(s: string, suffix: string) {
    |suffix| <= |s| && s[|s| - |suffix|..] == suffix
  }

  /** `String.Contains` with an ordinal comparison. */
  predicate Contains(s: string, sub: string)
    decreases |s|
  {
    StartsWith(s, sub) || (s != [] && Contains(s[1..], sub))
  }

  /** `String.Contains(sub, StringComparison.OrdinalIgnoreCase)` over ASCII letters. */
  predicate ContainsIgnoreCase(s: string, sub: string) {
    Contains(LowerAll(s), LowerAll(sub))
  }

  /** A name that holds `sub` verbatim also holds it ignoring case. */
  lemma {:induction false} ContainsIgnoringCase(s: string, sub: string)
    requires Contains(s, sub)
    ensures ContainsIgnoreCase(s, sub)
  {
    if StartsWith(s, sub) {
      LowerPrefix(s, |sub|);
    } else {
      ContainsIgnoringCase(s[1..], sub);
      assert LowerAll(s)[1..] == LowerAll(s[1..]);
    }
  }

  lemma {:induction false} LowerPrefix(s: string, n: nat)
    requires n <= |s|
    ensures LowerAll(s)[..n] == LowerAll(s[..n])
  {
    if n > 0 {
      LowerPrefix(s[1..], n - 1);
      assert s[..n][1..] == s[1..][..n - 1];
    }
  }

  // ---------------------------------------------------------------------------
  // Digits

  predicate IsDigit(c: char) {
    '0' <= c <= '9'
  }

  predicate AllDigits(s: string) {
    forall i | 0 <= i < |s| :: IsDigit(s[i])
  }

  /** The length of the run of ASCII digits that ends the string. */
  function TrailingDigitCount(s: string): (n: nat)
    ensures n <= |s|
    ensures AllDigits(s[|s| - n..])
    ensures n < |s| ==> !IsDigit(s[|s| - 1 - n])
  {
    if s == [] || !IsDigit(s[|s| - 1]) then 0 else 1 + TrailingDigitCount(s[..|s| - 1])
  }

  /** `int.Parse` of a string of decimal digits. */
  function ParseDigits(d: string): nat
    requires AllDigits(d)
  {
    if d == [] then 0 else 10 * ParseDigits(d[..|d| - 1]) + (d[|d| - 1] as int - '0' as int)
  }

  // ---------------------------------------------------------------------------
  // LINQ's Where and FirstOrDefault

  /** `Where(p)`, which keeps the order of the elements it keeps. */
  function Filter(s: seq<string>, p: string -> bool): (r: seq<string>)
    ensures |r| <= |s|
    ensures forall x :: x in r <==> x in s && p(x)
  {
    if s == [] then [] else (if p(s[0]) then [s[0]] else []) + Filter(s[1..], p)
  }

  /** Filtering a concatenation filters each part: what is kept keeps its relative order. */
  lemma {:induction false} FilterAppend(a: seq<string>, b: seq<string>, p: string -> bool)
    ensures Filter(a + b, p) == Filter(a, p) + Filter(b, p)
  {
    if a != [] {
      var head := if p(a[0]) then [a[0]] else [];
      assert (a + b)[0] == a[0] && (a + b)[1..] == a[1..] + b;
      assert Filter(a + b, p) == head + Filter(a[1..] + b, p);
      FilterAppend(a[1..], b, p);
    } else {
      assert a + b == b;
    }
  }

  /** `FirstOrDefault(p)`: the first element satisfying `p`, if there is one. */
  function FirstWhere(s: seq<string>, p: string -> bool): Option<string> {
    if s == [] then None
    else if p(s[0]) then Some(s[0])
    else FirstWhere(s[1..], p)
  }

  /** `FirstWhere` finds nothing exactly when no element qualifies, and otherwise the earliest one that does. */
  lemma {:induction false} FirstWhereFinds(s: seq<string>, p: string -> bool)
    ensures var r := FirstWhere(s, p);
      r.None? <==> forall x | x in s :: !p(x)
    ensures var r := FirstWhere(s, p);
      r.Some? ==> exists i | 0 <= i < |s| :: s[i] == r.value && p(s[i]) && forall j | 0 <= j < i :: !p(s[j])
  {
    if s != [] && !p(s[0]) {
      FirstWhereFinds(s[1..], p);
      var r := FirstWhere(s[1..], p);
      if r.Some? {
        var i :| 0 <= i < |s[1..]| && s[1..][i] == r.value && p(s[1..][i]) && forall j | 0 <= j < i :: !p(s[1..][j]);
        assert s[i + 1] == r.value && forall j | 0 <= j < i + 1 :: !p(s[j]);
      } else {
        assert forall x | x in s :: x == s[0] || x in s[1..];
      }
    } else if s != [] {
      assert s[0] == FirstWhere(s, p).value;
    }
  }

  // ---------------------------------------------------------------------------
  // OrderBy(key): a stable sort on a numeric key

  predicate SortedByKey<T>(s: seq<T>, key: T -> nat) {
    forall i, j | 0 <= i < j < |s| :: key(s[i]) <= key(s[j])
  }

  function InsertByKey<T>(x: T, s: seq<T>, key: T -> nat): (r: seq<T>)
    requires SortedByKey(s, key)
    ensures multiset(r) == multiset(s) + multiset{x}
    ensures SortedByKey(r, key)
  {
    if s == [] then [x]
    else if key(x) <= key(s[0]) then [x] + s
    else
      var t := InsertByKey(x, s[1..], key);
      InsertedAfterHead(x, s, key, t);
      [s[0]] + t
  }

  /** Inserting past the head keeps the head first: every key after it is at least its own. */
  lemma InsertedAfterHead<T>(x: T, s: seq<T>, key: T -> nat, t: seq<T>)
    requires s != [] && SortedByKey(s, key) && key(s[0]) < key(x)
    requires multiset(t) == multiset(s[1..]) + multiset{x} && SortedByKey(t, key)
    ensures multiset([s[0]] + t) == multiset(s) + multiset{x}
    ensures SortedByKey([s[0]] + t, key)
  {
    assert multiset(s) == multiset{s[0]} + multiset(s[1..]) by { assert s == [s[0]] + s[1..]; }
    forall k | 0 <= k < |t| ensures key(s[0]) <= key(t[k]) {
      AboveHead(x, s, key, t, k);
    }
    ConsByKey(s[0], t, key);
  }

  lemma AboveHead<T>(x: T, s: seq<T>, key: T -> nat, t: seq<T>, k: nat)
    requires s != [] && SortedByKey(s, key) && key(s[0]) < key(x)
    requires multiset(t) == multiset(s[1..]) + multiset{x} && k < |t|
    ensures key(s[0]) <= key(t[k])
  {
    var y := t[k];
    assert y in multiset(t);
    if y != x {
      assert y in multiset(s[1..]);
      var m :| 0 <= m < |s[1..]| && s[1..][m] == y;
      assert s[m + 1] == y;
    }
  }

  lemma ConsByKey<T>(h: T, t: seq<T>, key: T -> nat)
    requires SortedByKey(t, key) && forall k | 0 <= k < |t| :: key(h) <= key(t[k])
    ensures SortedByKey([h] + t, key)
  {
    var r := [h] + t;
    forall i, j | 0 <= i < j < |r| ensures key(r[i]) <= key(r[j]) {
      assert r[j] == t[j - 1];
      if i > 0 { assert r[i] == t[i - 1]; }
    }
  }

  /** `OrderBy(key)`: the elements of `s`, rearranged so that their keys ascend. */
  function SortByKey<T>(s: seq<T>, key: T -> nat): (r: seq<T>)
    ensures multiset(r) == multiset(s)
    ensures SortedByKey(r, key)
  {
    if s == [] then []
    else
      assert s == [s[0]] + s[1..];
      InsertByKey(s[0], SortByKey(s[1..], key), key)
  }

  // ---------------------------------------------------------------------------
  // OrderDescending(): ordinal order on strings

  /** Ordinal comparison: `a` sorts no later than `b`. */
  predicate LexLe(a: string, b: string) {
    if a == [] then true
    else if b == [] then false
    else if a[0] != b[0] then a[0] < b[0]
    else LexLe(a[1..], b[1..])
  }

  lemma {:induction false} LexLeTotal(a: string, b: string)
    ensures LexLe(a, b) || LexLe(b, a)
  {
    if a != [] && b != [] && a[0] == b[0] {
      LexLeTotal(a[1..], b[1..]);
    }
  }

  lemma {:induction false} LexLeTransitive(a: string, b: string, c: string)
    requires LexLe(a, b) && LexLe(b, c)
    ensures LexLe(a, c)
  {
    if a != [] && b != [] && c != [] && a[0] == b[0] && b[0] == c[0] {
      LexLeTransitive(a[1..], b[1..], c[1..]);
    }
  }

  lemma {:induction false} LexLeAntisymmetric(a: string, b: string)
    requires LexLe(a, b) && LexLe(b, a)
    ensures a == b
  {
    if a != [] && b != [] {
      LexLeAntisymmetric(a[1..], b[1..]);
      assert a == [a[0]] + a[1..] && b == [b[0]] + b[1..];
    }
  }

  predicate SortedDescending(s: seq<string>) {
    forall i, j | 0 <= i < j < |s| :: LexLe(s[j], s[i])
  }

  function InsertDescending(x: string, s: seq<string>): (r: seq<string>)
    requires SortedDescending(s)
    ensures multiset(r) == multiset(s) + multiset{x}
    ensures SortedDescending(r)
  {
    if s == [] then [x]
    else if LexLe(s[0], x) then
      assert forall j | 0 <= j < |s| :: LexLe(s[j], x) by {
        forall j | 0 <= j < |s| ensures LexLe(s[j], x) {
          if j > 0 { LexLeTransitive(s[j], s[0], x); }
        }
      }
      [x] + s
    else
      LexLeTotal(s[0], x);
      var t := InsertDescending(x, s[1..]);
      InsertedBelowHead(x, s, t);
      [s[0]] + t
  }

  /** Inserting past the head keeps the head first: every name after it is at most the head. */
  lemma InsertedBelowHead(x: string, s: seq<string>, t: seq<string>)
    requires s != [] && SortedDescending(s) && LexLe(x, s[0])
    requires multiset(t) == multiset(s[1..]) + multiset{x} && SortedDescending(t)
    ensures multiset([s[0]] + t) == multiset(s) + multiset{x}
    ensures SortedDescending([s[0]] + t)
  {
    assert multiset(s) == multiset{s[0]} + multiset(s[1..]) by { assert s == [s[0]] + s[1..]; }
    forall k | 0 <= k < |t| ensures LexLe(t[k], s[0]) {
      BelowHead(x, s, t, k);
    }
    ConsDescending(s[0], t);
  }

  lemma BelowHead(x: string, s: seq<string>, t: seq<string>, k: nat)
    requires s != [] && SortedDescending(s) && LexLe(x, s[0])
    requires multiset(t) == multiset(s[1..]) + multiset{x} && k < |t|
    ensures LexLe(t[k], s[0])
  {
    var y := t[k];
    assert y in multiset(t);
    if y != x {
      assert y in multiset(s[1..]);
      var m :| 0 <= m < |s[1..]| && s[1..][m] == y;
      assert s[m + 1] == y;
    }
  }

  lemma ConsDescending(h: string, t: seq<string>)
    requires SortedDescending(t) && forall k | 0 <= k < |t| :: LexLe(t[k], h)
    ensures SortedDescending([h] + t)
  {
    var r := [h] + t;
    forall i, j | 0 <= i < j < |r| ensures LexLe(r[j], r[i]) {
      assert r[j] == t[j - 1];
      if i > 0 { assert r[i] == t[i - 1]; }
    }
  }

  /** `OrderDescending()` with ordinal comparison: the names of `s`, latest first. */
  function SortDescending(s: seq<string>): (r: seq<string>)
    ensures multiset(r) == multiset(s)
    ensures SortedDescending(r)
  {
    if s == [] then []
    else
      assert s == [s[0]] + s[1..];
      InsertDescending(s[0], SortDescending(s[1..]))
  }
}
