/** The building blocks of the store's queries over rows held in insertion
    order: `ORDER BY` on a TEXT column as SQLite's default BINARY collation
    compares it (code point by code point, a proper prefix first), `WHERE`
    as a filter, and `LIMIT`. */
module Query {

  /** `a` sorts no later than `b`. */
  predicate LexLe(a: string, b: string)
    decreases |a|
  {
    |a| == 0 || (|b| > 0 && (a[0] < b[0] || (a[0] == b[0] && LexLe(a[1..], b[1..]))))
  }

  lemma {:induction false} LexLeTotal(a: string, b: string)
    ensures LexLe(a, b) || LexLe(b, a)
    decreases |a|
  {
    if |a| > 0 && |b| > 0 && a[0] == b[0] {
      LexLeTotal(a[1..], b[1..]);
    }
  }

  lemma {:induction false} LexLeTransitive(a: string, b: string, c: string)
    requires LexLe(a, b) && LexLe(b, c)
    ensures LexLe(a, c)
    decreases |a|
  {
    if |a| > 0 && a[0] == b[0] && b[0] == c[0] {
      LexLeTransitive(a[1..], b[1..], c[1..]);
    }
  }

  /** Two texts that sort no later than each other are equal. */
  lemma {:induction false} LexLeAntisymmetric(a: string, b: string)
    requires LexLe(a, b) && LexLe(b, a)
    ensures a == b
    decreases |a|
  {
    if |a| > 0 {
      LexLeAntisymmetric(a[1..], b[1..]);
      assert a == [a[0]] + a[1..];
      assert b == [b[0]] + b[1..];
    }
  }

  /** `x` may precede `y` in an `ORDER BY key` (or `ORDER BY key DESC`) result. */
  predicate Before<T>(key: T -> string, descending: bool, x: T, y: T) {
    if descending then LexLe(key(y), key(x)) else LexLe(key(x), key(y))
  }

  lemma BeforeTotal<T>(key: T -> string, descending: bool, x: T, y: T)
    ensures Before(key, descending, x, y) || Before(key, descending, y, x)
  {
    LexLeTotal(key(x), key(y));
  }

  lemma BeforeTransitive<T>(key: T -> string, descending: bool, x: T, y: T, z: T)
    requires Before(key, descending, x, y) && Before(key, descending, y, z)
    ensures Before(key, descending, x, z)
  {
    if descending {
      LexLeTransitive(key(z), key(y), key(x));
    } else {
      LexLeTransitive(key(x), key(y), key(z));
    }
  }

  ghost predicate SortedBy<T>(s: seq<T>, key: T -> string, descending: bool) {
    forall i, j :: 0 <= i < j < |s| ==> Before(key, descending, s[i], s[j])
  }

  /** Inserts `x` in front of the first element it may precede. */
  function Insert<T>(x: T, s: seq<T>, key: T -> string, descending: bool): (r: seq<T>)
    requires SortedBy(s, key, descending)
    ensures SortedBy(r, key, descending)
    ensures multiset(r) == multiset(s) + multiset{x}
    ensures |r| == |s| + 1
    decreases |s|
  {
    if |s| == 0 then [x]
    else if Before(key, descending, x, s[0]) then
      assert forall j :: 0 <= j < |s| ==> Before(key, descending, x, s[j]) by {
        forall j | 0 <= j < |s| ensures Before(key, descending, x, s[j]) {
          if j > 0 { BeforeTransitive(key, descending, x, s[0], s[j]); }
        }
      }
      [x] + s
    else
      BeforeTotal(key, descending, x, s[0]);
      var rest := Insert(x, s[1..], key, descending);
      assert s == [s[0]] + s[1..];
      assert forall j :: 0 <= j < |rest| ==> Before(key, descending, s[0], rest[j]) by {
        forall j | 0 <= j < |rest| ensures Before(key, descending, s[0], rest[j]) {
          assert rest[j] in multiset(rest);
          assert rest[j] == x || rest[j] in multiset(s[1..]);
          if rest[j] != x {
            var k :| 0 <= k < |s[1..]| && s[1..][k] == rest[j];
            assert s[k + 1] == rest[j];
          }
        }
      }
      [s[0]] + rest
  }

  /** Insertion sort: a sorted permutation of `s`. */
  function SortBy<T>(s: seq<T>, key: T -> string, descending: bool): (r: seq<T>)
    ensures SortedBy(r, key, descending)
    ensures multiset(r) == multiset(s)
    ensures |r| == |s|
    decreases |s|
  {
    if |s| == 0 then []
    else
      assert s == [s[0]] + s[1..];
      Insert(s[0], SortBy(s[1..], key, descending), key, descending)
  }

  /** The elements of `s` satisfying `keep`, in their original order. */
  function Filter<T(!new)>(s: seq<T>, keep: T -> bool): (r: seq<T>)
    ensures forall x :: x in r <==> x in s && keep(x)
    ensures forall x :: multiset(r)[x] == if keep(x) then multiset(s)[x] else 0
    ensures multiset(r) <= multiset(s)
    ensures |r| <= |s|
    decreases |s|
  {
    if |s| == 0 then []
    else
      assert s == [s[0]] + s[1..];
      assert multiset(s) == multiset{s[0]} + multiset(s[1..]);
      (if keep(s[0]) then [s[0]] else []) + Filter(s[1..], keep)
  }

  /** SQLite `LIMIT n`: a negative limit means no limit. */
  function Limit<T>(s: seq<T>, n: int): (r: seq<T>)
    ensures n >= 0 ==> |r| == if n < |s| then n else |s|
    ensures n < 0 ==> r == s
    ensures |r| <= |s| && r == s[..|r|]
  {
    if n < 0 || n >= |s| then s else s[..n]
  }

  /** A prefix of a sorted sequence is sorted. */
  lemma PrefixSorted<T>(s: seq<T>, n: nat, key: T -> string, descending: bool)
    requires SortedBy(s, key, descending) && n <= |s|
    ensures SortedBy(s[..n], key, descending)
  {
  }

  /** `LIMIT` on a sorted sequence keeps a sorted front: every element it
      drops sorts no earlier than every element it keeps. */
  lemma {:induction false} LimitKeepsFront<T>(s: seq<T>, n: int, key: T -> string, descending: bool)
    requires SortedBy(s, key, descending)
    ensures SortedBy(Limit(s, n), key, descending)
    ensures multiset(Limit(s, n)) <= multiset(s)
    ensures forall x, y :: x in multiset(s) - multiset(Limit(s, n)) && y in Limit(s, n) ==>
      Before(key, descending, y, x)
  {
    var r := Limit(s, n);
    var k := |r|;
    assert s == r + s[k..];
    assert multiset(s) == multiset(r) + multiset(s[k..]);
    forall x, y | x in multiset(s) - multiset(r) && y in r ensures Before(key, descending, y, x) {
      assert x in s[k..];
      var i :| 0 <= i < k && r[i] == y;
      var j :| 0 <= j < |s| - k && s[k..][j] == x;
      assert s[i] == y && s[k + j] == x;
    }
  }

  /** `p` holds of every ordered pair of elements of `s`. */
  ghost predicate Pairwise<T>(s: seq<T>, p: (T, T) -> bool) {
    forall i, j :: 0 <= i < j < |s| ==> p(s[i], s[j])
  }

  /** Filtering keeps every property that held of each ordered pair of rows. */
  lemma {:induction false} FilterPairwise<T(!new)>(s: seq<T>, keep: T -> bool, p: (T, T) -> bool)
    requires Pairwise(s, p)
    ensures Pairwise(Filter(s, keep), p)
    decreases |s|
  {
    if |s| > 0 {
      var tail := Filter(s[1..], keep);
      FilterPairwise(s[1..], keep, p);
      if keep(s[0]) {
        HeadBeforeFiltered(s, keep, p);
        ConsPairwise(s[0], tail, p);
        assert Filter(s, keep) == [s[0]] + tail;
      } else {
        assert Filter(s, keep) == tail;
      }
    }
  }

  lemma HeadBeforeFiltered<T(!new)>(s: seq<T>, keep: T -> bool, p: (T, T) -> bool)
    requires |s| > 0 && Pairwise(s, p)
    ensures forall x :: x in Filter(s[1..], keep) ==> p(s[0], x)
  {
    forall x | x in Filter(s[1..], keep) ensures p(s[0], x) {
      var k :| 0 <= k < |s[1..]| && s[1..][k] == x;
      assert s[k + 1] == x;
    }
  }

  /** Two pairwise runs joined, when every cross pair is related too. */
  lemma AppendPairwise<T>(a: seq<T>, b: seq<T>, p: (T, T) -> bool)
    requires Pairwise(a, p) && Pairwise(b, p)
    requires forall x, y :: x in a && y in b ==> p(x, y)
    ensures Pairwise(a + b, p)
  {
    var r := a + b;
    forall i, j | 0 <= i < j < |r| ensures p(r[i], r[j]) {
      if j < |a| {
        assert r[i] == a[i] && r[j] == a[j];
      } else if i < |a| {
        assert r[i] == a[i] && r[j] == b[j - |a|];
      } else {
        assert r[i] == b[i - |a|] && r[j] == b[j - |a|];
      }
    }
  }

  lemma ConsPairwise<T>(h: T, t: seq<T>, p: (T, T) -> bool)
    requires forall x :: x in t ==> p(h, x)
    requires Pairwise(t, p)
    ensures Pairwise([h] + t, p)
  {
    var r := [h] + t;
    forall i, j | 0 <= i < j < |r| ensures p(r[i], r[j]) {
      assert r[j] == t[j - 1];
      if i > 0 {
        assert r[i] == t[i - 1];
      }
    }
  }
}
