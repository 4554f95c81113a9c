/** A stable descending sort by a numeric key. Python's `list.sort(key=..., reverse=True)`
    is stable, and the application relies on the same order for the pandas
    `sort_values(ascending=False)` and `value_counts()` calls that rank categories. */
module Ranking {
  import opened Util

  /** Keys never increase from left to right. */
  predicate SortedDesc<T>(s: seq<T>, key: T -> real)
  {
    forall i, j :: 0 <= i < j < |s| ==> key(s[i]) >= key(s[j])
  }

  /** A prefix of a descending sequence is descending and holds only elements of it. */
  lemma SortedDescPrefix<T>(s: seq<T>, key: T -> real, n: nat)
    requires n <= |s| && SortedDesc(s, key)
    ensures SortedDesc(s[..n], key)
    ensures forall e :: e in s[..n] ==> e in s
  {
  }

  /** In a descending sequence, an element left out of a prefix has a key no larger than
      any element of the prefix. */
  lemma PrefixDominates<T>(s: seq<T>, key: T -> real, n: nat, e: T, x: T)
    requires n <= |s| && SortedDesc(s, key)
    requires e in s[..n] && x in s && x !in s[..n]
    ensures key(x) <= key(e)
  {
    assert s == s[..n] + s[n..];
    var i :| 0 <= i < n && s[..n][i] == e;
    var j :| 0 <= j < |s| - n && s[n..][j] == x;
    assert s[i] == e && s[n + j] == x;
  }

  /** Puts `x` into the descending sequence `s` after every element whose key is at least
      `key(x)`, so that among equal keys the element inserted last stays last. */
  function Insert<T>(x: T, s: seq<T>, key: T -> real): (r: seq<T>)
    ensures |r| == |s| + 1
  {
    if s == [] then [x]
    else if key(s[0]) >= key(x) then [s[0]] + Insert(x, s[1..], key)
    else [x] + s
  }

  lemma {:induction false} InsertPermutes<T>(x: T, s: seq<T>, key: T -> real)
    ensures multiset(Insert(x, s, key)) == multiset(s) + multiset{x}
  {
    if s != [] && key(s[0]) >= key(x) {
      InsertPermutes(x, s[1..], key);
      assert s == [s[0]] + s[1..];
    }
  }

  lemma {:induction false} InsertSorted<T>(x: T, s: seq<T>, key: T -> real)
    requires SortedDesc(s, key)
    ensures SortedDesc(Insert(x, s, key), key)
  {
    if s != [] && key(s[0]) >= key(x) {
      var rest := Insert(x, s[1..], key);
      InsertSorted(x, s[1..], key);
      InsertPermutes(x, s[1..], key);
      forall j | 0 <= j < |rest| ensures key(s[0]) >= key(rest[j]) {
        assert rest[j] in multiset(rest);
        if rest[j] != x {
          assert rest[j] in multiset(s[1..]);
          var i :| 0 <= i < |s[1..]| && s[1..][i] == rest[j];
          assert s[i + 1] == rest[j];
        }
      }
      assert Insert(x, s, key) == [s[0]] + rest;
    }
  }

  /** The elements of `s` ordered by descending key; equal keys keep their input order. */
  function SortDesc<T>(s: seq<T>, key: T -> real): (r: seq<T>)
    ensures SortedDesc(r, key)
    ensures multiset(r) == multiset(s)
    ensures |r| == |s|
  {
    if s == [] then []
    else
      assert s == s[..|s| - 1] + [s[|s| - 1]];
      var sorted := SortDesc(s[..|s| - 1], key);
      InsertSorted(s[|s| - 1], sorted, key);
      InsertPermutes(s[|s| - 1], sorted, key);
      Insert(s[|s| - 1], sorted, key)
  }

  /** The elements of `s` whose key is exactly `k`, in their order in `s`. */
  function WithKey<T>(s: seq<T>, key: T -> real, k: real): (r: seq<T>)
    ensures |r| <= |s|
    ensures forall i :: 0 <= i < |r| ==> key(r[i]) == k
  {
    if s == [] then [] else (if key(s[0]) == k then [s[0]] else []) + WithKey(s[1..], key, k)
  }

  lemma {:induction false} WithKeyAppend<T>(a: seq<T>, b: seq<T>, key: T -> real, k: real)
    ensures WithKey(a + b, key, k) == WithKey(a, key, k) + WithKey(b, key, k)
  {
    if a == [] {
      assert a + b == b;
    } else {
      assert (a + b)[1..] == a[1..] + b;
      WithKeyAppend(a[1..], b, key, k);
    }
  }

  lemma {:induction false} WithKeyNone<T>(s: seq<T>, key: T -> real, k: real)
    requires forall i :: 0 <= i < |s| ==> key(s[i]) < k
    ensures WithKey(s, key, k) == []
  {
    if s != [] {
      WithKeyNone(s[1..], key, k);
    }
  }

  lemma {:induction false} WithKeyInsert<T>(x: T, s: seq<T>, key: T -> real, k: real)
    requires SortedDesc(s, key)
    ensures WithKey(Insert(x, s, key), key, k) == WithKey(s, key, k) + WithKey([x], key, k)
  {
    if s == [] {
      assert Insert(x, s, key) == [x];
    } else if key(s[0]) >= key(x) {
      WithKeyInsert(x, s[1..], key, k);
      WithKeyInsertAfter(x, s, key, k);
    } else {
      WithKeyInsertFront(x, s, key, k);
    }
  }

  lemma WithKeyInsertAfter<T>(x: T, s: seq<T>, key: T -> real, k: real)
    requires s != [] && key(s[0]) >= key(x)
    requires WithKey(Insert(x, s[1..], key), key, k) == WithKey(s[1..], key, k) + WithKey([x], key, k)
    ensures WithKey(Insert(x, s, key), key, k) == WithKey(s, key, k) + WithKey([x], key, k)
  {
    var rest := Insert(x, s[1..], key);
    assert Insert(x, s, key) == [s[0]] + rest;
    WithKeyCons(s[0], rest, key, k);
    var head: seq<T> := if key(s[0]) == k then [s[0]] else [];
    assert head + (WithKey(s[1..], key, k) + WithKey([x], key, k))
        == (head + WithKey(s[1..], key, k)) + WithKey([x], key, k);
  }

  /** One step of `WithKey` on a sequence built by prepending. */
  lemma WithKeyCons<T>(a: T, rest: seq<T>, key: T -> real, k: real)
    ensures WithKey([a] + rest, key, k) == (if key(a) == k then [a] else []) + WithKey(rest, key, k)
  {
    assert ([a] + rest)[1..] == rest;
  }

  lemma WithKeyInsertFront<T>(x: T, s: seq<T>, key: T -> real, k: real)
    requires SortedDesc(s, key)
    requires s != [] && key(s[0]) < key(x)
    ensures WithKey(Insert(x, s, key), key, k) == WithKey(s, key, k) + WithKey([x], key, k)
  {
    assert Insert(x, s, key) == [x] + s;
    WithKeyAppend([x], s, key, k);
    if key(x) == k {
      WithKeyNone(s, key, k);
    } else {
      assert WithKey([x], key, k) == [];
    }
  }

  /** Stability: sorting does not reorder elements that share a key. */
  lemma {:induction false} SortDescStable<T>(s: seq<T>, key: T -> real, k: real)
    ensures WithKey(SortDesc(s, key), key, k) == WithKey(s, key, k)
  {
    if s != [] {
      var init, last := s[..|s| - 1], s[|s| - 1];
      SortDescStable(init, key, k);
      WithKeyInsert(last, SortDesc(init, key), key, k);
      assert s == init + [last];
      WithKeyAppend(init, [last], key, k);
    }
  }

  /** A sequence that is already descending is left exactly as it is. */
  lemma {:induction false} SortDescOfSorted<T>(s: seq<T>, key: T -> real)
    requires SortedDesc(s, key)
    ensures SortDesc(s, key) == s
  {
    if s != [] {
      var init, last := s[..|s| - 1], s[|s| - 1];
      SortDescOfSorted(init, key);
      InsertAtEnd(last, init, key);
      assert s == init + [last];
    }
  }

  lemma {:induction false} InsertAtEnd<T>(x: T, s: seq<T>, key: T -> real)
    requires SortedDesc(s, key)
    requires forall y :: y in s ==> key(y) >= key(x)
    ensures Insert(x, s, key) == s + [x]
  {
    if s != [] {
      InsertAtEnd(x, s[1..], key);
      assert s == [s[0]] + s[1..];
    }
  }
}
