/** Python's `sorted(xs, key=k, reverse=True)` and `list.sort(key=k, reverse=True)`:
    a stable sort into non-increasing key order. */
module Sorting {

  ghost predicate SortedDescBy<T>(s: seq<T>, key: T -> real) {
    forall i, j :: 0 <= i < j < |s| ==> key(s[i]) >= key(s[j])
  }

  /** Inserts `x`, which came before every element of `s`, ahead of all elements whose
      key is not larger than its own (that is what keeps the sort stable). */
  function InsertDesc<T>(x: T, s: seq<T>, key: T -> real): (r: seq<T>)
    ensures multiset(r) == multiset(s) + multiset{x}
    ensures |r| == |s| + 1
  {
    if s == [] || key(s[0]) <= key(x) then [x] + s
    else
      assert s == [s[0]] + s[1..];
      [s[0]] + InsertDesc(x, s[1..], key)
  }

  /** Inserting into a sorted sequence keeps it sorted. */
  lemma {:induction false} InsertDescSorted<T>(x: T, s: seq<T>, key: T -> real)
    requires SortedDescBy(s, key)
    ensures SortedDescBy(InsertDesc(x, s, key), key)
  {
    if s == [] || key(s[0]) <= key(x) {
      assert InsertDesc(x, s, key) == [x] + s;
    } else {
      var rest := InsertDesc(x, s[1..], key);
      assert InsertDesc(x, s, key) == [s[0]] + rest;
      InsertDescSorted(x, s[1..], key);
      InsertDescBelow(x, s[1..], key, key(s[0]));
      ConsSorted(s[0], rest, key);
    }
  }

  /** An element whose key bounds a sorted sequence can go in front of it. */
  lemma ConsSorted<T>(h: T, rest: seq<T>, key: T -> real)
    requires SortedDescBy(rest, key)
    requires forall k :: 0 <= k < |rest| ==> key(rest[k]) <= key(h)
    ensures SortedDescBy([h] + rest, key)
  {
    var r := [h] + rest;
    forall i, j | 0 <= i < j < |r| ensures key(r[i]) >= key(r[j]) {
      assert r[j] == rest[j - 1];
      if i > 0 {
        assert r[i] == rest[i - 1];
      }
    }
  }

  /** A bound on every key survives inserting an element within it. */
  lemma {:induction false} InsertDescBelow<T>(x: T, s: seq<T>, key: T -> real, b: real)
    requires key(x) <= b
    requires forall k :: 0 <= k < |s| ==> key(s[k]) <= b
    ensures forall k :: 0 <= k < |InsertDesc(x, s, key)| ==> key(InsertDesc(x, s, key)[k]) <= b
  {
    var r := InsertDesc(x, s, key);
    if s == [] || key(s[0]) <= key(x) {
      assert forall k :: 0 < k < |r| ==> r[k] == s[k - 1];
    } else {
      var rest := InsertDesc(x, s[1..], key);
      InsertDescBelow(x, s[1..], key, b);
      assert forall k :: 0 < k < |r| ==> r[k] == rest[k - 1];
    }
  }


  /** The stable descending sort, by insertion. */
  function SortDescBy<T>(s: seq<T>, key: T -> real): (r: seq<T>)
    ensures multiset(r) == multiset(s)
    ensures |r| == |s|
    ensures SortedDescBy(r, key)
  {
    if s == [] then []
    else
      assert s == [s[0]] + s[1..];
      InsertDescSorted(s[0], SortDescBy(s[1..], key), key);
      InsertDesc(s[0], SortDescBy(s[1..], key), key)
  }

  /** The elements of `s` whose key is `c`, in their order in `s`. */
  function WithKey<T>(s: seq<T>, key: T -> real, c: real): (r: seq<T>)
    ensures forall k :: 0 <= k < |r| ==> key(r[k]) == c && r[k] in s
  {
    if s == [] then []
    else (if key(s[0]) == c then [s[0]] else []) + WithKey(s[1..], key, c)
  }

  /** Inserting `x` keeps it ahead of every element with its own key, as if it were put in
      front. */
  lemma {:induction false} InsertDescWithKey<T>(x: T, s: seq<T>, key: T -> real, c: real)
    ensures WithKey(InsertDesc(x, s, key), key, c) == WithKey([x] + s, key, c)
  {
    if s != [] && key(s[0]) > key(x) {
      InsertDescWithKey(x, s[1..], key, c);
      InsertDescPast(x, s, key, c);
    }
  }

  /** The step of `InsertDescWithKey` where `x` moves past `s[0]`. */
  lemma InsertDescPast<T>(x: T, s: seq<T>, key: T -> real, c: real)
    requires s != [] && key(s[0]) > key(x)
    requires WithKey(InsertDesc(x, s[1..], key), key, c) == WithKey([x] + s[1..], key, c)
    ensures WithKey(InsertDesc(x, s, key), key, c) == WithKey([x] + s, key, c)
  {
    var rest := InsertDesc(x, s[1..], key);
    var tail := WithKey(s[1..], key, c);
    assert ([x] + s[1..])[1..] == s[1..];
    assert InsertDesc(x, s, key) == [s[0]] + rest;
    assert ([s[0]] + rest)[1..] == rest;
    assert ([x] + s)[1..] == s;
    // At most one of `x` and `s[0]` has the key `c`, as their keys differ.
    if key(x) == c {
      assert WithKey(rest, key, c) == [x] + tail;
      assert WithKey(s, key, c) == tail;
    } else if key(s[0]) == c {
      assert WithKey(rest, key, c) == tail;
      assert WithKey(s, key, c) == [s[0]] + tail;
    } else {
      assert WithKey(rest, key, c) == tail;
      assert WithKey(s, key, c) == tail;
    }
  }

  /** Stability: elements with equal keys keep their relative order through the sort. */
  lemma {:induction false} SortDescByStable<T>(s: seq<T>, key: T -> real, c: real)
    ensures WithKey(SortDescBy(s, key), key, c) == WithKey(s, key, c)
  {
    if s != [] {
      SortDescByStable(s[1..], key, c);
      InsertDescWithKey(s[0], SortDescBy(s[1..], key), key, c);
      assert ([s[0]] + SortDescBy(s[1..], key))[1..] == SortDescBy(s[1..], key);
    }
  }

  function Reverse<T>(s: seq<T>): seq<T> {
    if s == [] then [] else Reverse(s[1..]) + [s[0]]
  }

  /** Keys strictly increasing along the sequence. */
  ghost predicate StrictlyAscendingBy<T>(s: seq<T>, key: T -> real) {
    forall i, j :: 0 <= i < j < |s| ==> key(s[i]) < key(s[j])
  }

  /** A sequence in strictly ascending key order comes out reversed. */
  lemma {:induction false} SortAscendingReverses<T>(s: seq<T>, key: T -> real)
    requires StrictlyAscendingBy(s, key)
    ensures SortDescBy(s, key) == Reverse(s)
  {
    if s != [] {
      SortAscendingReverses(s[1..], key);
      ReverseElements(s[1..]);
      InsertLast(s[0], Reverse(s[1..]), key);
    }
  }

  lemma {:induction false} ReverseElements<T>(s: seq<T>)
    ensures |Reverse(s)| == |s|
    ensures forall k :: 0 <= k < |s| ==> Reverse(s)[k] == s[|s| - 1 - k]
  {
    if s != [] {
      ReverseElements(s[1..]);
    }
  }

  /** An element whose key is below every key goes last. */
  lemma {:induction false} InsertLast<T>(x: T, s: seq<T>, key: T -> real)
    requires forall k :: 0 <= k < |s| ==> key(s[k]) > key(x)
    ensures InsertDesc(x, s, key) == s + [x]
  {
    if s != [] {
      InsertLast(x, s[1..], key);
      assert s == [s[0]] + s[1..];
    }
  }

  /** An input already in non-increasing key order comes back unchanged (stability). */
  lemma {:induction false} SortDescBySorted<T>(s: seq<T>, key: T -> real)
    requires SortedDescBy(s, key)
    ensures SortDescBy(s, key) == s
  {
    if s != [] {
      SortDescBySorted(s[1..], key);
      assert s == [s[0]] + s[1..];
    }
  }
}
