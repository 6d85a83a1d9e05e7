/** The option list of the current step (labyrint.jsx:90-97): the step's tag
    lists of all current candidates, concatenated, with duplicates removed and
    sorted ascending. */
module Options {
  import opened StringOrder
  import opened Sorting
  import opened Filters

  /** `candidates.reduce((carry, c) => carry.concat(c[step]), [])` */
  function Collect(candidates: seq<Article>, d: Dimension): seq<string>
  {
    if candidates == [] then []
    else Collect(candidates[..|candidates| - 1], d) + Tags(candidates[|candidates| - 1], d)
  }

  /** A value is collected exactly when some candidate carries it. */
  lemma {:induction false} CollectMembers(candidates: seq<Article>, d: Dimension)
    ensures forall v :: v in Collect(candidates, d) <==> exists c :: c in candidates && v in Tags(c, d)
  {
    if candidates != [] {
      var init, last := candidates[..|candidates| - 1], candidates[|candidates| - 1];
      CollectMembers(init, d);
      assert candidates == init + [last];
      forall v | exists c :: c in candidates && v in Tags(c, d)
        ensures v in Collect(candidates, d)
      {
        var c :| c in candidates && v in Tags(c, d);
        if c != last {
          assert c in init;
        }
      }
    }
  }

  /** lodash `uniq`: the first occurrence of each value, in order. */
  function Uniq<T(==)>(s: seq<T>): seq<T>
  {
    if s == [] then []
    else
      var u := Uniq(s[..|s| - 1]);
      if s[|s| - 1] in u then u else u + [s[|s| - 1]]
  }

  /** No value occurs twice. */
  predicate Distinct<T(==)>(s: seq<T>)
  {
    forall i, j :: 0 <= i < j < |s| ==> s[i] != s[j]
  }

  lemma {:induction false} UniqKeepsValuesOnce<T>(s: seq<T>)
    ensures forall v :: v in Uniq(s) <==> v in s
    ensures Distinct(Uniq(s))
  {
    if s != [] {
      var init := s[..|s| - 1];
      UniqKeepsValuesOnce(init);
      assert s == init + [s[|s| - 1]];
    }
  }

  /** Strictly ascending: sorted and without duplicates. */
  predicate StrictlyAscending(s: seq<string>)
  {
    forall i, j :: 0 <= i < j < |s| ==> Less(s[i], s[j])
  }

  /** A sorted list of distinct strings is strictly ascending. */
  lemma SortedDistinctAscending(s: seq<string>)
    requires Sorted(s, LessEq) && Distinct(s)
    ensures StrictlyAscending(s)
  {
  }

  /** Sorting distinct values keeps the values and makes them strictly
      ascending. */
  lemma SortDistinct(values: seq<string>)
    requires Distinct(values)
    ensures StrictlyAscending(StableSort(values, LessEq))
    ensures forall v :: v in StableSort(values, LessEq) <==> v in values
  {
    LessEqTotalOrder();
    var r := StableSort(values, LessEq);
    StableSortPermutes(values, LessEq);
    StableSortSorted(values, LessEq);
    forall v ensures v in r <==> v in values {
      assert v in r <==> v in multiset(r);
      assert v in values <==> v in multiset(values);
    }
    forall v ensures multiset(r)[v] <= 1 {
      DistinctCount(values, v);
    }
    CountOnceDistinct(r);
    SortedDistinctAscending(r);
  }

  /** `sortBy(uniq(...), (o) => o)` over the current candidates. */
  function OptionsFor(candidates: seq<Article>, d: Dimension): (r: seq<string>)
    ensures StrictlyAscending(r)
    ensures forall v :: v in r <==> exists c :: c in candidates && v in Tags(c, d)
    ensures candidates == [] ==> r == []
  {
    var collected := Collect(candidates, d);
    CollectMembers(candidates, d);
    UniqKeepsValuesOnce(collected);
    SortDistinct(Uniq(collected));
    StableSort(Uniq(collected), LessEq)
  }

  /** In a list without duplicates every value occurs at most once. */
  lemma {:induction false} DistinctCount<T>(s: seq<T>, v: T)
    requires Distinct(s)
    ensures multiset(s)[v] <= 1
  {
    if s != [] {
      DistinctCount(s[1..], v);
      assert s == [s[0]] + s[1..];
      if s[0] == v {
        assert v !in s[1..];
      }
    }
  }

  /** A list in which every value occurs at most once has no duplicates. */
  lemma {:induction false} CountOnceDistinct<T>(s: seq<T>)
    requires forall v :: multiset(s)[v] <= 1
    ensures Distinct(s)
  {
    if s != [] {
      var tail := s[1..];
      assert s == [s[0]] + tail;
      forall v ensures multiset(tail)[v] <= 1 {
        assert multiset(s)[v] == multiset{s[0]}[v] + multiset(tail)[v];
      }
      CountOnceDistinct(tail);
      assert multiset(s)[s[0]] == 1 + multiset(tail)[s[0]];
      assert s[0] !in tail;
      forall i, j | 0 <= i < j < |s| ensures s[i] != s[j] {
        assert s[j] == tail[j - 1];
        if i > 0 {
          assert s[i] == tail[i - 1];
        }
      }
    }
  }

  lemma SameValuesBothEmpty<T>(r1: seq<T>, r2: seq<T>)
    requires forall v :: v in r1 <==> v in r2
    ensures r1 == [] <==> r2 == []
  {
    if r1 != [] {
      assert r1[0] in r2;
    }
    if r2 != [] {
      assert r2[0] in r1;
    }
  }

  /** Two strictly ascending lists with the same values are the same list. */
  lemma {:induction false} AscendingUnique(r1: seq<string>, r2: seq<string>)
    requires StrictlyAscending(r1) && StrictlyAscending(r2)
    requires forall v :: v in r1 <==> v in r2
    ensures r1 == r2
  {
    SameValuesBothEmpty(r1, r2);
    if r1 != [] && r2 != [] {
      var a, b := r1[0], r2[0];
      assert a in r2 && b in r1;
      if a != b {
        var i :| 0 <= i < |r1| && r1[i] == b;
        var j :| 0 <= j < |r2| && r2[j] == a;
        assert Less(a, b) && Less(b, a);
        LessAsymmetric(a, b);
      }
      forall v ensures v in r1[1..] <==> v in r2[1..] {
        assert r1 == [a] + r1[1..] && r2 == [b] + r2[1..];
        if v in r1[1..] {
          var i :| 0 <= i < |r1[1..]| && r1[1..][i] == v;
          assert Less(r1[0], r1[i + 1]);
          LessAsymmetric(a, v);
          assert v in r2 && v != b;
        }
        if v in r2[1..] {
          var i :| 0 <= i < |r2[1..]| && r2[1..][i] == v;
          assert Less(r2[0], r2[i + 1]);
          LessAsymmetric(b, v);
          assert v in r1 && v != a;
        }
      }
      AscendingUnique(r1[1..], r2[1..]);
      assert r1 == [a] + r1[1..] && r2 == [b] + r2[1..];
    }
  }

  /** The options depend only on which articles are candidates, not on their
      order or repetition. */
  lemma OptionsIgnoreCandidateOrder(candidates: seq<Article>, others: seq<Article>, d: Dimension)
    requires forall c :: c in candidates <==> c in others
    ensures OptionsFor(candidates, d) == OptionsFor(others, d)
  {
    AscendingUnique(OptionsFor(candidates, d), OptionsFor(others, d));
  }

  /** An option is offered exactly when choosing it leaves at least one
      candidate: every button leads somewhere, and no value that would empty
      the candidate list is offered. */
  lemma OfferedIffNonEmpty(data: seq<Article>, filters: seq<Filter>, d: Dimension, v: string)
    ensures v in OptionsFor(ApplyFilters(data, filters), d) <==> ApplyFilters(data, filters + [Filter(d, v)]) != []
  {
    var f := Filter(d, v);
    ApplyFiltersSpec(data, filters);
    AppendFilterRefines(data, filters, f);
    var after := ApplyFilters(data, filters + [f]);
    if v in OptionsFor(ApplyFilters(data, filters), d) {
      var c :| c in ApplyFilters(data, filters) && v in Tags(c, d);
      assert Satisfies(c, f);
      assert c in after;
    }
    if after != [] {
      assert after[0] in after;
      assert Satisfies(after[0], f);
    }
  }
}
