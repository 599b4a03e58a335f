/**
 * The stable sort that dijkstra.ts and astar.ts apply to their open sets
 * through `Array.prototype.sort` (stable since ECMAScript 2019). It is library
 * code, modelled as an insertion sort on values that orders by a `Key`:
 * a primary cost, ties broken by a secondary cost, equal keys kept in their
 * original order.
 */
module Sorting {
  import opened Types

  /** What a comparator looks at: a primary cost and a tie-breaking one. */
  datatype Key = Key(primary: Cost, secondary: Cost)

  /** a sorts strictly before b: the comparator returns a negative number. */
  predicate Before(a: Key, b: Key)
  {
    Less(a.primary, b.primary) || (a.primary == b.primary && Less(a.secondary, b.secondary))
  }

  /** Two keys the comparator cannot tell apart are equal. */
  lemma BeforeTotal(a: Key, b: Key)
    ensures Before(a, b) || Before(b, a) || a == b
    ensures !(Before(a, b) && Before(b, a))
  {
  }

  /** Not sorting strictly after is transitive. */
  lemma NotBeforeTrans(a: Key, b: Key, c: Key)
    requires !Before(b, a) && !Before(c, b)
    ensures !Before(c, a)
  {
  }

  /** Ordered by key: no element sorts strictly before an earlier one. */
  ghost predicate SortedBy<T>(s: seq<T>, key: T -> Key)
  {
    forall i, j | 0 <= i < j < |s| :: !Before(key(s[j]), key(s[i]))
  }

  /** The elements of s whose key is k, in their order in s. */
  ghost function Class<T>(s: seq<T>, key: T -> Key, k: Key): seq<T>
  {
    if s == [] then []
    else Class(s[..|s| - 1], key, k) + (if key(s[|s| - 1]) == k then [s[|s| - 1]] else [])
  }

  /** Insert x into the sorted s after every element that does not sort after it. */
  function InsertBy<T>(s: seq<T>, x: T, key: T -> Key): (r: seq<T>)
    ensures multiset(r) == multiset(s) + multiset{x}
  {
    if s == [] || !Before(key(x), key(s[|s| - 1])) then s + [x]
    else
      assert s == s[..|s| - 1] + [s[|s| - 1]];
      InsertBy(s[..|s| - 1], x, key) + [s[|s| - 1]]
  }

  /** The sort: insert the elements one after the other. It permutes s. */
  function SortBy<T>(s: seq<T>, key: T -> Key): (r: seq<T>)
    ensures multiset(r) == multiset(s)
  {
    if s == [] then [] else
      assert s == s[..|s| - 1] + [s[|s| - 1]];
      InsertBy(SortBy(s[..|s| - 1], key), s[|s| - 1], key)
  }

  lemma {:induction false} InsertSorted<T>(s: seq<T>, x: T, key: T -> Key)
    requires SortedBy(s, key)
    ensures SortedBy(InsertBy(s, x, key), key)
  {
    if s == [] || !Before(key(x), key(s[|s| - 1])) {
      var r := s + [x];
      forall i, j | 0 <= i < j < |r|
        ensures !Before(key(r[j]), key(r[i]))
      {
        if j == |s| && i < |s| - 1 {
          NotBeforeTrans(key(s[i]), key(s[|s| - 1]), key(x));
        }
      }
    } else {
      var init, last := s[..|s| - 1], s[|s| - 1];
      InsertSorted(init, x, key);
      var r' := InsertBy(init, x, key);
      var r := r' + [last];
      forall i | 0 <= i < |r'|
        ensures !Before(key(last), key(r'[i]))
      {
        assert r'[i] in multiset(r');
        if r'[i] != x {
          assert r'[i] in multiset(init);
          var m :| 0 <= m < |init| && init[m] == r'[i];
          assert !Before(key(s[|s| - 1]), key(s[m]));
        } else {
          BeforeTotal(key(x), key(last));
        }
      }
    }
  }

  /** The sort's result is ordered by key. */
  lemma {:induction false} SortedBySort<T>(s: seq<T>, key: T -> Key)
    ensures SortedBy(SortBy(s, key), key)
  {
    if s != [] {
      SortedBySort(s[..|s| - 1], key);
      InsertSorted(SortBy(s[..|s| - 1], key), s[|s| - 1], key);
    }
  }

  lemma {:induction false} ClassAppend<T>(a: seq<T>, b: seq<T>, key: T -> Key, k: Key)
    ensures Class(a + b, key, k) == Class(a, key, k) + Class(b, key, k)
    decreases |b|
  {
    if b == [] {
      assert a + b == a;
    } else {
      var b', y := b[..|b| - 1], b[|b| - 1];
      assert (a + b)[..|a + b| - 1] == a + b';
      ClassAppend(a, b', key, k);
      assert b[..|b| - 1] == b';
    }
  }

  /** Appending one element extends the class of its key. */
  lemma ClassSnoc<T>(s: seq<T>, x: T, key: T -> Key, k: Key)
    ensures Class(s + [x], key, k) == Class(s, key, k) + (if key(x) == k then [x] else [])
  {
    assert (s + [x])[..|s|] == s;
  }

  lemma {:induction false} InsertClass<T>(s: seq<T>, x: T, key: T -> Key, k: Key)
    ensures Class(InsertBy(s, x, key), key, k) == Class(s, key, k) + (if key(x) == k then [x] else [])
  {
    if s == [] || !Before(key(x), key(s[|s| - 1])) {
      assert InsertBy(s, x, key) == s + [x];
      ClassSnoc(s, x, key, k);
    } else {
      var init, last := s[..|s| - 1], s[|s| - 1];
      var r' := InsertBy(init, x, key);
      assert InsertBy(s, x, key) == r' + [last];
      assert s == init + [last];
      InsertClass(init, x, key, k);
      ClassSnoc(r', last, key, k);
      ClassSnoc(init, last, key, k);
      var ci := Class(init, key, k);
      var cx := if key(x) == k then [x] else [];
      var cl := if key(last) == k then [last] else [];
      assert Class(InsertBy(s, x, key), key, k) == ci + cx + cl;
      assert Class(s, key, k) == ci + cl;
      assert cx == [] || cl == [];
    }
  }

  /** The sort is stable: the elements of each key keep their relative order. */
  lemma {:induction false} SortStable<T>(s: seq<T>, key: T -> Key, k: Key)
    ensures Class(SortBy(s, key), key, k) == Class(s, key, k)
  {
    if s != [] {
      SortStable(s[..|s| - 1], key, k);
      InsertClass(SortBy(s[..|s| - 1], key), s[|s| - 1], key, k);
    }
  }

  /** The first element of the sorted list sorts before or with every element. */
  lemma SortFirstIsMin<T>(s: seq<T>, key: T -> Key)
    requires s != []
    ensures SortBy(s, key) != []
    ensures SortBy(s, key)[0] in s
    ensures forall x | x in s :: !Before(key(x), key(SortBy(s, key)[0]))
  {
    var r := SortBy(s, key);
    SortedBySort(s, key);
    assert |r| == |multiset(r)| == |multiset(s)| == |s|;
    assert r[0] in multiset(s);
    forall x | x in s
      ensures !Before(key(x), key(r[0]))
    {
      assert x in multiset(r);
      var i :| 0 <= i < |r| && r[i] == x;
      if i > 0 {
        assert !Before(key(r[i]), key(r[0]));
      }
    }
  }
}
