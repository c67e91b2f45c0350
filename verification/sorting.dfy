/** Python's `sorted(xs, key=...)`: a stable sort by a key compared
    lexicographically.  Keys are integer tuples; `reverse=True` is the same
    stable sort on the negated key. */
module Sorting {

  /** Lexicographic `<=` on integer tuples, as Python compares tuples. */
  predicate LexLe(a: seq<int>, b: seq<int>)
    decreases |a|
  {
    |a| == 0 || (|b| > 0 && (a[0] < b[0] || (a[0] == b[0] && LexLe(a[1..], b[1..]))))
  }

  lemma {:induction false} LexLeTotal(a: seq<int>, b: seq<int>)
    ensures LexLe(a, b) || LexLe(b, a)
    decreases |a|
  {
    if |a| > 0 && |b| > 0 && a[0] == b[0] {
      LexLeTotal(a[1..], b[1..]);
    }
  }

  lemma {:induction false} LexLeTrans(a: seq<int>, b: seq<int>, c: seq<int>)
    requires LexLe(a, b) && LexLe(b, c)
    ensures LexLe(a, c)
    decreases |a|
  {
    if |a| > 0 && a[0] == b[0] && b[0] == c[0] {
      LexLeTrans(a[1..], b[1..], c[1..]);
    }
  }

  predicate SortedBy<T>(s: seq<T>, key: T -> seq<int>) {
    forall i, j :: 0 <= i < j < |s| ==> LexLe(key(s[i]), key(s[j]))
  }

  /** Inserts `x` after every element whose key is not greater than its own,
      so that among equal keys the earlier input comes first. */
  function Insert<T>(x: T, s: seq<T>, key: T -> seq<int>): (r: seq<T>)
    ensures |r| == |s| + 1
    ensures multiset(r) == multiset(s) + multiset{x}
    ensures SortedBy(s, key) ==> SortedBy(r, key)
    decreases |s|
  {
    if |s| == 0 then [x]
    else if LexLe(key(s[0]), key(x)) then
      var rest := Insert(x, s[1..], key);
      assert s == [s[0]] + s[1..];
      InsertSorted(x, s, rest, key);
      [s[0]] + rest
    else
      LexLeTotal(key(s[0]), key(x));
      InsertFront(x, s, key);
      [x] + s
  }

  lemma InsertFront<T>(x: T, s: seq<T>, key: T -> seq<int>)
    requires |s| > 0 && LexLe(key(x), key(s[0]))
    ensures SortedBy(s, key) ==> SortedBy([x] + s, key)
  {
    if SortedBy(s, key) {
      forall j | 1 <= j < |s| + 1
        ensures LexLe(key(x), key(([x] + s)[j]))
      {
        if j > 1 {
          LexLeTrans(key(x), key(s[0]), key(s[j - 1]));
        }
      }
    }
  }

  lemma InsertSorted<T>(x: T, s: seq<T>, rest: seq<T>, key: T -> seq<int>)
    requires |s| > 0 && LexLe(key(s[0]), key(x))
    requires multiset(rest) == multiset(s[1..]) + multiset{x}
    requires SortedBy(s[1..], key) ==> SortedBy(rest, key)
    ensures SortedBy(s, key) ==> SortedBy([s[0]] + rest, key)
  {
    if SortedBy(s, key) {
      assert SortedBy(s[1..], key);
      forall j | 0 <= j < |rest|
        ensures LexLe(key(s[0]), key(rest[j]))
      {
        assert rest[j] in multiset(rest);
        assert rest[j] == x || rest[j] in multiset(s[1..]);
        if rest[j] != x {
          var k :| 0 <= k < |s[1..]| && s[1..][k] == rest[j];
          assert s[k + 1] == rest[j];
        }
      }
    }
  }

  /** `sorted(s, key=key)`. */
  function SortBy<T>(s: seq<T>, key: T -> seq<int>): (r: seq<T>)
    ensures |r| == |s|
    ensures multiset(r) == multiset(s)
    ensures SortedBy(r, key)
    decreases |s|
  {
    if |s| == 0 then []
    else
      assert s == s[..|s| - 1] + [s[|s| - 1]];
      Insert(s[|s| - 1], SortBy(s[..|s| - 1], key), key)
  }

  /** Sorting keeps exactly the elements of the input. */
  lemma SortByMembers<T>(s: seq<T>, key: T -> seq<int>)
    ensures forall x :: x in SortBy(s, key) <==> x in s
  {
    var r := SortBy(s, key);
    forall x
      ensures x in r <==> x in s
    {
      assert x in r <==> x in multiset(r);
      assert x in s <==> x in multiset(s);
    }
  }
}
