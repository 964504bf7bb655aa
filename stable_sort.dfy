/** A stable sort by an integer key, standing for the library sorts both
    implementations call: Python's `list.sort(key=...)` (also with
    `reverse=True`, which keeps equal elements in their original order) and
    JavaScript's `Array.prototype.sort` with a comparator (stable since
    ECMAScript 2019). Sorting descending is sorting by the negated key. */
module StableSort {

  /** Keys are non-decreasing from left to right. */
  ghost predicate SortedBy<T>(s: seq<T>, key: T -> int) {
    forall i, j :: 0 <= i < j < |s| ==> key(s[i]) <= key(s[j])
  }

  /** Inserts `x` after every element whose key is at most `key(x)`, scanning
      from the back, so that `x` lands behind the elements with its own key. */
  function Insert<T>(s: seq<T>, x: T, key: T -> int): (r: seq<T>)
    ensures |r| == |s| + 1
    ensures forall i :: 0 <= i < |r| ==> r[i] == x || r[i] in s
  {
    if s == [] then [x]
    else if key(s[|s| - 1]) <= key(x) then s + [x]
    else Insert(s[..|s| - 1], x, key) + [s[|s| - 1]]
  }

  /** Insertion sort: each element in input order is inserted into the sorted
      prefix built from the elements before it. */
  function SortBy<T>(s: seq<T>, key: T -> int): (r: seq<T>)
    ensures |r| == |s|
    ensures forall i :: 0 <= i < |r| ==> r[i] in s
  {
    if s == [] then []
    else Insert(SortBy(s[..|s| - 1], key), s[|s| - 1], key)
  }

  lemma {:induction false} InsertPermutes<T>(s: seq<T>, x: T, key: T -> int)
    ensures multiset(Insert(s, x, key)) == multiset(s) + multiset{x}
  {
    if s != [] && key(s[|s| - 1]) > key(x) {
      var s', last := s[..|s| - 1], s[|s| - 1];
      InsertPermutes(s', x, key);
      assert s == s' + [last];
    }
  }

  /** The sort only reorders: the result holds each element as often as the input. */
  lemma {:induction false} SortByPermutes<T>(s: seq<T>, key: T -> int)
    ensures multiset(SortBy(s, key)) == multiset(s)
  {
    if s != [] {
      var s', last := s[..|s| - 1], s[|s| - 1];
      assert s == s' + [last];
      calc {
        multiset(SortBy(s, key));
        multiset(Insert(SortBy(s', key), last, key));
        { InsertPermutes(SortBy(s', key), last, key); }
        multiset(SortBy(s', key)) + multiset{last};
        { SortByPermutes(s', key); }
        multiset(s') + multiset{last};
        multiset(s);
      }
    }
  }

  /** The elements of `s` whose key is `k`, in their order in `s`. */
  function WithKey<T>(s: seq<T>, key: T -> int, k: int): seq<T> {
    if s == [] then []
    else WithKey(s[..|s| - 1], key, k) + (if key(s[|s| - 1]) == k then [s[|s| - 1]] else [])
  }

  lemma {:induction false} WithKeyAppend<T>(s: seq<T>, x: T, key: T -> int, k: int)
    ensures WithKey(s + [x], key, k) == WithKey(s, key, k) + (if key(x) == k then [x] else [])
  {
    assert (s + [x])[..|s|] == s;
  }

  lemma {:induction false} InsertSorted<T>(s: seq<T>, x: T, key: T -> int)
    requires SortedBy(s, key)
    ensures SortedBy(Insert(s, x, key), key)
  {
    if s != [] && key(s[|s| - 1]) > key(x) {
      var s', last := s[..|s| - 1], s[|s| - 1];
      InsertSorted(s', x, key);
      var r' := Insert(s', x, key);
      forall i | 0 <= i < |r'|
        ensures key(r'[i]) <= key(last)
      {
        if r'[i] != x {
          var m :| 0 <= m < |s'| && s'[m] == r'[i];
        }
      }
    }
  }

  /** The sort returns its input reordered so that keys never decrease. */
  lemma {:induction false} SortBySorted<T>(s: seq<T>, key: T -> int)
    ensures SortedBy(SortBy(s, key), key)
  {
    if s != [] {
      SortBySorted(s[..|s| - 1], key);
      InsertSorted(SortBy(s[..|s| - 1], key), s[|s| - 1], key);
    }
  }

  lemma {:induction false} InsertStable<T>(s: seq<T>, x: T, key: T -> int, k: int)
    ensures WithKey(Insert(s, x, key), key, k) == WithKey(s, key, k) + (if key(x) == k then [x] else [])
  {
    if s == [] {
      WithKeyAppend([], x, key, k);
    } else if key(s[|s| - 1]) <= key(x) {
      WithKeyAppend(s, x, key, k);
    } else {
      var s', last := s[..|s| - 1], s[|s| - 1];
      InsertStable(s', x, key, k);
      WithKeyAppend(Insert(s', x, key), last, key, k);
      assert s == s' + [last];
      WithKeyAppend(s', last, key, k);
    }
  }

  /** Stability: the elements sharing any one key keep their input order. */
  lemma {:induction false} SortByStable<T>(s: seq<T>, key: T -> int, k: int)
    ensures WithKey(SortBy(s, key), key, k) == WithKey(s, key, k)
  {
    if s != [] {
      var s', last := s[..|s| - 1], s[|s| - 1];
      SortByStable(s', key, k);
      InsertStable(SortBy(s', key), last, key, k);
      assert s == s' + [last];
      WithKeyAppend(s', last, key, k);
    }
  }

  /** Sorting a sequence that is already sorted leaves it unchanged. */
  lemma {:induction false} SortByIdentity<T>(s: seq<T>, key: T -> int)
    requires SortedBy(s, key)
    ensures SortBy(s, key) == s
  {
    if s != [] {
      var s', last := s[..|s| - 1], s[|s| - 1];
      assert SortedBy(s', key) by {
        forall i, j | 0 <= i < j < |s'|
          ensures key(s'[i]) <= key(s'[j])
        {
          assert s'[i] == s[i] && s'[j] == s[j];
        }
      }
      SortByIdentity(s', key);
      assert Insert(s', last, key) == s' + [last] by {
        if s' != [] {
          assert s'[|s'| - 1] == s[|s| - 2];
        }
      }
      assert s' + [last] == s;
    }
  }

  lemma {:induction false} InsertKeepsDistinct<T, K>(s: seq<T>, x: T, key: T -> int, id: T -> K)
    requires forall i, j :: 0 <= i < j < |s| ==> id(s[i]) != id(s[j])
    requires forall i :: 0 <= i < |s| ==> id(s[i]) != id(x)
    ensures forall i, j :: 0 <= i < j < |Insert(s, x, key)| ==> id(Insert(s, x, key)[i]) != id(Insert(s, x, key)[j])
  {
    if s != [] && key(s[|s| - 1]) > key(x) {
      var s', last := s[..|s| - 1], s[|s| - 1];
      InsertKeepsDistinct(s', x, key, id);
      var r' := Insert(s', x, key);
      forall i | 0 <= i < |r'|
        ensures id(r'[i]) != id(last)
      {
        if r'[i] != x {
          var m :| 0 <= m < |s'| && s'[m] == r'[i];
        }
      }
    }
  }

  /** Sorting never makes two elements share an identity that they did not
      share before: distinct identities stay distinct. */
  lemma {:induction false} SortByKeepsDistinct<T, K>(s: seq<T>, key: T -> int, id: T -> K)
    requires forall i, j :: 0 <= i < j < |s| ==> id(s[i]) != id(s[j])
    ensures forall i, j :: 0 <= i < j < |SortBy(s, key)| ==> id(SortBy(s, key)[i]) != id(SortBy(s, key)[j])
  {
    if s != [] {
      var s', last := s[..|s| - 1], s[|s| - 1];
      SortByKeepsDistinct(s', key, id);
      var r' := SortBy(s', key);
      forall i | 0 <= i < |r'|
        ensures id(r'[i]) != id(last)
      {
        var m :| 0 <= m < |s'| && s'[m] == r'[i];
      }
      InsertKeepsDistinct(r', last, key, id);
    }
  }

  /** Elements with equal keys appear in increasing `ord`. */
  ghost predicate TiesOrderedBy<T>(s: seq<T>, key: T -> int, ord: T -> int) {
    forall i, j :: 0 <= i < j < |s| && key(s[i]) == key(s[j]) ==> ord(s[i]) < ord(s[j])
  }

  lemma {:induction false} InsertKeepsTieOrder<T>(s: seq<T>, x: T, key: T -> int, ord: T -> int)
    requires TiesOrderedBy(s, key, ord)
    requires forall i :: 0 <= i < |s| && key(s[i]) == key(x) ==> ord(s[i]) < ord(x)
    ensures TiesOrderedBy(Insert(s, x, key), key, ord)
  {
    if s == [] {
    } else if key(s[|s| - 1]) <= key(x) {
      var r := s + [x];
      forall i, j | 0 <= i < j < |r| && key(r[i]) == key(r[j])
        ensures ord(r[i]) < ord(r[j])
      {
        assert r[i] == s[i];
        if j < |s| {
          assert r[j] == s[j];
        }
      }
    } else {
      var s', last := s[..|s| - 1], s[|s| - 1];
      assert forall i :: 0 <= i < |s'| ==> s'[i] == s[i];
      InsertKeepsTieOrder(s', x, key, ord);
      var r' := Insert(s', x, key);
      var r := r' + [last];
      forall i, j | 0 <= i < j < |r| && key(r[i]) == key(r[j])
        ensures ord(r[i]) < ord(r[j])
      {
        assert r[i] == r'[i];
        if j < |r'| {
          assert r[j] == r'[j];
        } else {
          assert r[j] == last;
          assert r'[i] in s';
          var m :| 0 <= m < |s'| && s'[m] == r'[i];
        }
      }
    }
  }

  /** Stability stated by position: when `ord` increases along the input,
      elements with equal keys leave the sort in increasing `ord`. */
  lemma {:induction false} SortByKeepsTieOrder<T>(s: seq<T>, key: T -> int, ord: T -> int)
    requires forall i, j :: 0 <= i < j < |s| ==> ord(s[i]) < ord(s[j])
    ensures TiesOrderedBy(SortBy(s, key), key, ord)
  {
    if s != [] {
      var s', last := s[..|s| - 1], s[|s| - 1];
      assert forall i :: 0 <= i < |s'| ==> s'[i] == s[i];
      SortByKeepsTieOrder(s', key, ord);
      var r' := SortBy(s', key);
      forall i | 0 <= i < |r'|
        ensures ord(r'[i]) < ord(last)
      {
        var m :| 0 <= m < |s'| && s'[m] == r'[i];
      }
      InsertKeepsTieOrder(r', last, key, ord);
    }
  }
}
