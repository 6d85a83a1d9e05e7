/** The stable sort behind lodash's `sortBy` and `orderBy`: elements are put in
    ascending order of a total preorder `le`, and elements that `le` ranks
    equal keep the order they had in the input. */
module Sorting {

  /** `le` is total and transitive: a legitimate "less than or equal" on keys. */
  ghost predicate TotalPreorder<T(!new)>(le: (T, T) -> bool)
  {
    && (forall x, y :: le(x, y) || le(y, x))
    && (forall x, y, z :: le(x, y) && le(y, z) ==> le(x, z))
  }

  /** Every element is `le` every later one. */
  predicate Sorted<T>(s: seq<T>, le: (T, T) -> bool)
  {
    forall i, j :: 0 <= i < j < |s| ==> le(s[i], s[j])
  }

  /** `le` ranks `x` and `y` equal (same sort key). */
  predicate Equivalent<T>(x: T, y: T, le: (T, T) -> bool)
  {
    le(x, y) && le(y, x)
  }

  /** The elements of `s` that rank equal to `k`, in the order of `s`. */
  function EquivalentsOf<T>(s: seq<T>, k: T, le: (T, T) -> bool): seq<T>
  {
    if s == [] then []
    else (if Equivalent(s[0], k, le) then [s[0]] else []) + EquivalentsOf(s[1..], k, le)
  }

  /** Puts `x` in front of the first element that is not strictly smaller. */
  function Insert<T>(x: T, s: seq<T>, le: (T, T) -> bool): seq<T>
  {
    if s == [] then [x]
    else if le(x, s[0]) then [x] + s
    else [s[0]] + Insert(x, s[1..], le)
  }

  /** Insertion sort: each element is inserted, front to back, into the sorted
      rest; elements ranked equal therefore keep their input order. */
  function StableSort<T>(s: seq<T>, le: (T, T) -> bool): seq<T>
  {
    if s == [] then []
    else Insert(s[0], StableSort(s[1..], le), le)
  }

  lemma {:induction false} InsertPermutes<T>(x: T, s: seq<T>, le: (T, T) -> bool)
    ensures multiset(Insert(x, s, le)) == multiset(s) + multiset{x}
  {
    if s != [] && !le(x, s[0]) {
      InsertPermutes(x, s[1..], le);
      assert s == [s[0]] + s[1..];
    }
  }

  /** The output is a permutation of the input. */
  lemma {:induction false} StableSortPermutes<T>(s: seq<T>, le: (T, T) -> bool)
    ensures multiset(StableSort(s, le)) == multiset(s)
    ensures |StableSort(s, le)| == |s|
  {
    if s != [] {
      StableSortPermutes(s[1..], le);
      InsertPermutes(s[0], StableSort(s[1..], le), le);
      assert s == [s[0]] + s[1..];
    }
    assert |multiset(StableSort(s, le))| == |multiset(s)|;
  }

  lemma {:induction false} InsertSorted<T(!new)>(x: T, s: seq<T>, le: (T, T) -> bool)
    requires TotalPreorder(le)
    requires Sorted(s, le)
    ensures Sorted(Insert(x, s, le), le)
  {
    if s != [] && !le(x, s[0]) {
      var tail := Insert(x, s[1..], le);
      InsertSorted(x, s[1..], le);
      InsertPermutes(x, s[1..], le);
      forall e | e in tail
        ensures le(s[0], e)
      {
        assert e in multiset(tail);
        if e != x {
          assert e in multiset(s[1..]);
          var j :| 0 <= j < |s[1..]| && s[1..][j] == e;
          assert s[j + 1] == e;
        }
      }
      assert Insert(x, s, le) == [s[0]] + tail;
    }
  }

  lemma {:induction false} StableSortSorted<T(!new)>(s: seq<T>, le: (T, T) -> bool)
    requires TotalPreorder(le)
    ensures Sorted(StableSort(s, le), le)
  {
    if s != [] {
      StableSortSorted(s[1..], le);
      InsertSorted(s[0], StableSort(s[1..], le), le);
    }
  }

  lemma {:induction false} InsertStable<T(!new)>(x: T, s: seq<T>, k: T, le: (T, T) -> bool)
    requires TotalPreorder(le)
    ensures EquivalentsOf(Insert(x, s, le), k, le)
         == (if Equivalent(x, k, le) then [x] else []) + EquivalentsOf(s, k, le)
  {
    if s == [] || le(x, s[0]) {
      InsertInFrontStable(x, s, k, le);
    } else {
      InsertStable(x, s[1..], k, le);
      NotBothEquivalent(x, s[0], k, le);
      InsertAfterHeadStable(x, s, k, le);
    }
  }

  /** The case of InsertStable where `x` goes first. */
  lemma InsertInFrontStable<T>(x: T, s: seq<T>, k: T, le: (T, T) -> bool)
    requires s == [] || le(x, s[0])
    ensures EquivalentsOf(Insert(x, s, le), k, le)
         == (if Equivalent(x, k, le) then [x] else []) + EquivalentsOf(s, k, le)
  {
    assert Insert(x, s, le) == [x] + s;
    assert ([x] + s)[1..] == s;
  }

  /** The case of InsertStable where `x` goes after the head of `s`, given the
      result for the rest of `s`. */
  lemma InsertAfterHeadStable<T>(x: T, s: seq<T>, k: T, le: (T, T) -> bool)
    requires s != [] && !le(x, s[0])
    requires !(Equivalent(x, k, le) && Equivalent(s[0], k, le))
    requires EquivalentsOf(Insert(x, s[1..], le), k, le)
          == (if Equivalent(x, k, le) then [x] else []) + EquivalentsOf(s[1..], k, le)
    ensures EquivalentsOf(Insert(x, s, le), k, le)
         == (if Equivalent(x, k, le) then [x] else []) + EquivalentsOf(s, k, le)
  {
    var px := if Equivalent(x, k, le) then [x] else [];
    var ps := if Equivalent(s[0], k, le) then [s[0]] else [];
    var rest := Insert(x, s[1..], le);
    var tail := EquivalentsOf(s[1..], k, le);
    assert EquivalentsOf(Insert(x, s, le), k, le) == ps + EquivalentsOf(rest, k, le) by {
      assert Insert(x, s, le) == [s[0]] + rest;
      EquivalentsOfCons(s[0], rest, k, le);
    }
    assert EquivalentsOf(s, k, le) == ps + tail by {
      assert s == [s[0]] + s[1..];
      EquivalentsOfCons(s[0], s[1..], k, le);
    }
    SwapSingletons(px, ps, tail);
  }

  /** Two parts of which at least one is empty can be put in either order. */
  lemma SwapSingletons<T>(px: seq<T>, ps: seq<T>, tail: seq<T>)
    requires px == [] || ps == []
    ensures ps + (px + tail) == px + (ps + tail)
  {
    if ps == [] {
      assert ps + (px + tail) == px + tail;
    } else {
      assert px + (ps + tail) == ps + tail;
    }
  }

  lemma EquivalentsOfCons<T>(y: T, t: seq<T>, k: T, le: (T, T) -> bool)
    ensures EquivalentsOf([y] + t, k, le)
         == (if Equivalent(y, k, le) then [y] else []) + EquivalentsOf(t, k, le)
  {
    assert ([y] + t)[1..] == t;
  }

  /** An element strictly after `x` cannot share a key with `x`'s key. */
  lemma NotBothEquivalent<T(!new)>(x: T, y: T, k: T, le: (T, T) -> bool)
    requires TotalPreorder(le)
    requires !le(x, y)
    ensures !(Equivalent(x, k, le) && Equivalent(y, k, le))
  {
  }

  /** Stability: for every key, the elements of that key appear in the output
      in the same order as in the input. */
  lemma {:induction false} StableSortStable<T(!new)>(s: seq<T>, k: T, le: (T, T) -> bool)
    requires TotalPreorder(le)
    ensures EquivalentsOf(StableSort(s, le), k, le) == EquivalentsOf(s, k, le)
  {
    if s != [] {
      StableSortStable(s[1..], k, le);
      InsertStable(s[0], StableSort(s[1..], le), k, le);
    }
  }

  lemma {:induction false} EquivalentsOfSubset<T>(s: seq<T>, k: T, le: (T, T) -> bool)
    ensures forall e :: e in EquivalentsOf(s, k, le) <==> e in s && Equivalent(e, k, le)
  {
    if s != [] {
      EquivalentsOfSubset(s[1..], k, le);
      assert s == [s[0]] + s[1..];
    }
  }

  /** The head of a non-empty sequence is listed among its own key's elements. */
  lemma HeadListedUnderOwnKey<T(!new)>(s: seq<T>, le: (T, T) -> bool)
    requires TotalPreorder(le)
    ensures s != [] ==> EquivalentsOf(s, s[0], le) != []
  {
  }

  /** A sorted sequence is determined by the order of each key's elements:
      two sorted sequences that list every key's elements alike are equal.
      So StableSort's output is the only stable sorted arrangement. */
  lemma {:induction false} SortedUnique<T(!new)>(r1: seq<T>, r2: seq<T>, le: (T, T) -> bool)
    requires TotalPreorder(le)
    requires Sorted(r1, le) && Sorted(r2, le)
    requires forall k :: EquivalentsOf(r1, k, le) == EquivalentsOf(r2, k, le)
    ensures r1 == r2
  {
    if r1 == [] || r2 == [] {
      // a first element on either side would have a non-empty key list on
      // that side only
      var first := if r1 == [] then r2 else r1;
      HeadListedUnderOwnKey(first, le);
    } else {
      var a, b := r1[0], r2[0];
      EquivalentsOfSubset(r1, a, le);
      EquivalentsOfSubset(r2, a, le);
      EquivalentsOfSubset(r1, b, le);
      EquivalentsOfSubset(r2, b, le);
      assert a in EquivalentsOf(r1, a, le);
      assert a in r2;
      assert le(b, a);
      assert b in EquivalentsOf(r2, b, le);
      assert b in r1;
      assert le(a, b);
      assert EquivalentsOf(r1, a, le)[0] == a;
      assert EquivalentsOf(r2, a, le)[0] == b;
      assert a == b;
      forall k
        ensures EquivalentsOf(r1[1..], k, le) == EquivalentsOf(r2[1..], k, le)
      {
        var p := if Equivalent(a, k, le) then [a] else [];
        assert EquivalentsOf(r1, k, le) == p + EquivalentsOf(r1[1..], k, le);
        assert EquivalentsOf(r2, k, le) == p + EquivalentsOf(r2[1..], k, le);
        assert EquivalentsOf(r1[1..], k, le) == EquivalentsOf(r1, k, le)[|p|..];
        assert EquivalentsOf(r2[1..], k, le) == EquivalentsOf(r2, k, le)[|p|..];
      }
      SortedUnique(r1[1..], r2[1..], le);
      assert r1 == [a] + r1[1..] && r2 == [b] + r2[1..];
    }
  }
}
