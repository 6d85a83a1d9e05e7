/** The candidate reducer `applyFilters` (labyrint.jsx:276-284): keep the
    articles whose tag list for every filter's dimension contains that
    filter's value, then order them by title and, on equal titles, by server. */
module Filters {
  import opened StringOrder
  import opened Sorting

  /** The five tag fields an article is coded by; a step of the quiz asks
      about one of them. */
  datatype Dimension = Goals | Actors | Targets | Consequences | Actions

  /** One record of the dataset. The link and the rest of the record are only
      rendered and are not part of the model. */
  datatype Article = Article(
    title: string,
    server: string,
    sourcesNo: int,
    goals: seq<string>,
    actors: seq<string>,
    targets: seq<string>,
    consequences: seq<string>,
    actions: seq<string>)

  /** `conspiracy[key]`: the article's tag list for one dimension. */
  function Tags(a: Article, d: Dimension): seq<string>
  {
    match d
    case Goals => a.goals
    case Actors => a.actors
    case Targets => a.targets
    case Consequences => a.consequences
    case Actions => a.actions
  }

  /** A choice made in the quiz: `{key, value}`. */
  datatype Filter = Filter(key: Dimension, value: string)

  /** `conspiracy[filter.key].includes(filter.value)` */
  predicate Satisfies(a: Article, f: Filter)
  {
    f.value in Tags(a, f.key)
  }

  /** `filters.every(...)`: true for every filter, so true for no filters. */
  predicate SatisfiesAll(a: Article, filters: seq<Filter>)
  {
    forall f :: f in filters ==> Satisfies(a, f)
  }

  /** `conspiracies.filter(...)`: the matching articles in dataset order, each
      as often as the dataset holds it. */
  function Matching(data: seq<Article>, filters: seq<Filter>): seq<Article>
  {
    if data == [] then []
    else (if SatisfiesAll(data[0], filters) then [data[0]] else []) + Matching(data[1..], filters)
  }

  /** `filter` keeps each matching article as often as the dataset holds it
      and drops every other one. */
  lemma {:induction false} MatchingCount(data: seq<Article>, filters: seq<Filter>)
    ensures forall x :: multiset(Matching(data, filters))[x]
                     == if SatisfiesAll(x, filters) then multiset(data)[x] else 0
  {
    if data != [] {
      MatchingCount(data[1..], filters);
      assert data == [data[0]] + data[1..];
    }
  }

  /** The condition `every` tests on a concatenation of filter lists. */
  lemma SatisfiesConcat(x: Article, filters: seq<Filter>, more: seq<Filter>)
    ensures SatisfiesAll(x, filters + more) <==> SatisfiesAll(x, filters) && SatisfiesAll(x, more)
  {
  }

  /** The key order of `orderBy(filtered, ["title", "server"], ["asc", "asc"])`. */
  predicate TitleServerLe(x: Article, y: Article)
  {
    Less(x.title, y.title) || (x.title == y.title && LessEq(x.server, y.server))
  }

  lemma TitleServerTotalPreorder()
    ensures TotalPreorder(TitleServerLe)
  {
    LessEqTotalOrder();
    forall x, y, z | TitleServerLe(x, y) && TitleServerLe(y, z)
      ensures TitleServerLe(x, z)
    {
      if Less(x.title, y.title) && Less(y.title, z.title) {
        LessTransitive(x.title, y.title, z.title);
      }
    }
    forall x, y
      ensures TitleServerLe(x, y) || TitleServerLe(y, x)
    {
      LessTrichotomy(x.title, y.title);
    }
  }

  /** Two articles rank equal exactly when they have the same title and the
      same server; only such ties keep their dataset order. */
  lemma TitleServerTies(x: Article, y: Article)
    ensures Equivalent(x, y, TitleServerLe) <==> x.title == y.title && x.server == y.server
  {
    LessEqTotalOrder();
    if Less(x.title, y.title) {
      LessAsymmetric(x.title, y.title);
    }
  }

  /** `applyFilters(conspiracies, filters)` */
  function ApplyFilters(data: seq<Article>, filters: seq<Filter>): seq<Article>
  {
    StableSort(Matching(data, filters), TitleServerLe)
  }

  /** What `applyFilters` returns: the articles of the dataset that meet every
      filter, each as often as the dataset holds it and no other, sorted by
      title and then server; articles with equal title and server keep their
      dataset order. */
  lemma ApplyFiltersSpec(data: seq<Article>, filters: seq<Filter>)
    ensures Sorted(ApplyFilters(data, filters), TitleServerLe)
    ensures forall x :: multiset(ApplyFilters(data, filters))[x]
                     == if SatisfiesAll(x, filters) then multiset(data)[x] else 0
    ensures forall x :: x in ApplyFilters(data, filters) <==> x in data && SatisfiesAll(x, filters)
    ensures forall k :: EquivalentsOf(ApplyFilters(data, filters), k, TitleServerLe)
                     == EquivalentsOf(Matching(data, filters), k, TitleServerLe)
  {
    TitleServerTotalPreorder();
    var m := Matching(data, filters);
    MatchingCount(data, filters);
    StableSortPermutes(m, TitleServerLe);
    StableSortSorted(m, TitleServerLe);
    forall k ensures EquivalentsOf(StableSort(m, TitleServerLe), k, TitleServerLe) == EquivalentsOf(m, k, TitleServerLe) {
      StableSortStable(m, k, TitleServerLe);
    }
  }

  /** With no filters every article is a candidate: the result is the whole
      dataset, sorted. */
  lemma NoFiltersKeepsAll(data: seq<Article>)
    ensures multiset(ApplyFilters(data, [])) == multiset(data)
    ensures |ApplyFilters(data, [])| == |data|
    ensures Sorted(ApplyFilters(data, []), TitleServerLe)
  {
    var r := ApplyFilters(data, []);
    ApplyFiltersSpec(data, []);
    assert forall x :: SatisfiesAll(x, []);
    assert multiset(r) == multiset(data);
  }

  /** The candidates for `filters + [f]` are the candidates for `filters`
      that also satisfy `f`. */
  lemma AppendFilterRefines(data: seq<Article>, filters: seq<Filter>, f: Filter)
    ensures forall x :: x in ApplyFilters(data, filters + [f]) <==> x in ApplyFilters(data, filters) && Satisfies(x, f)
    ensures forall x :: multiset(ApplyFilters(data, filters + [f]))[x]
                     == if Satisfies(x, f) then multiset(ApplyFilters(data, filters))[x] else 0
  {
    ApplyFiltersSpec(data, filters);
    ApplyFiltersSpec(data, filters + [f]);
    forall x ensures SatisfiesAll(x, filters + [f]) <==> SatisfiesAll(x, filters) && Satisfies(x, f) {
      SatisfiesConcat(x, filters, [f]);
    }
  }

  /** Adding a filter never enlarges the candidate set. */
  lemma AppendFilterNarrows(data: seq<Article>, filters: seq<Filter>, f: Filter)
    ensures multiset(ApplyFilters(data, filters + [f])) <= multiset(ApplyFilters(data, filters))
    ensures |ApplyFilters(data, filters + [f])| <= |ApplyFilters(data, filters)|
  {
    AppendFilterRefines(data, filters, f);
    var small, big := ApplyFilters(data, filters + [f]), ApplyFilters(data, filters);
    assert multiset(small) <= multiset(big);
    MultisetSubsetSize(multiset(small), multiset(big));
  }

  lemma {:induction false} MultisetSubsetSize<T>(a: multiset<T>, b: multiset<T>)
    requires a <= b
    ensures |a| <= |b|
    decreases |b|
  {
    if a != multiset{} {
      var x :| x in a;
      MultisetSubsetSize(a - multiset{x}, b - multiset{x});
    }
  }

  /** Filtering depends only on which articles each filter list admits. */
  lemma {:induction false} MatchingCongruent(data: seq<Article>, filters: seq<Filter>, others: seq<Filter>)
    requires forall x :: x in data ==> (SatisfiesAll(x, filters) <==> SatisfiesAll(x, others))
    ensures Matching(data, filters) == Matching(data, others)
  {
    if data != [] {
      MatchingCongruent(data[1..], filters, others);
    }
  }

  /** Choosing again a value already chosen leaves the candidates exactly as
      they were, order included. */
  lemma RepeatedFilterChangesNothing(data: seq<Article>, filters: seq<Filter>, f: Filter)
    requires f in filters
    ensures ApplyFilters(data, filters + [f]) == ApplyFilters(data, filters)
  {
    forall x ensures SatisfiesAll(x, filters + [f]) <==> SatisfiesAll(x, filters) {
      SatisfiesConcat(x, filters, [f]);
    }
    MatchingCongruent(data, filters + [f], filters);
  }

  /** Filters combine with AND: the order in which they were chosen, and
      repetitions, do not matter. */
  lemma FilterOrderIrrelevant(data: seq<Article>, filters: seq<Filter>, others: seq<Filter>)
    requires forall f :: f in filters <==> f in others
    ensures ApplyFilters(data, filters) == ApplyFilters(data, others)
  {
    MatchingCongruent(data, filters, others);
  }

  /** Keeping the articles that meet two filter lists in turn is keeping
      those that meet both lists at once. */
  lemma {:induction false} MatchingTwice(data: seq<Article>, filters: seq<Filter>, more: seq<Filter>)
    ensures Matching(Matching(data, filters), more) == Matching(data, filters + more)
  {
    if data != [] {
      SatisfiesConcat(data[0], filters, more);
      MatchingTwice(data[1..], filters, more);
      var head := if SatisfiesAll(data[0], filters) then [data[0]] else [];
      var m := Matching(data, filters);
      assert m == head + Matching(data[1..], filters);
      if head == [] {
        assert m == Matching(data[1..], filters);
      } else {
        assert m[0] == data[0] && m[1..] == Matching(data[1..], filters);
      }
    }
  }

  /** Selecting by key and filtering can be done in either order. */
  lemma {:induction false} MatchingOfEquivalents(data: seq<Article>, filters: seq<Filter>, k: Article)
    ensures EquivalentsOf(Matching(data, filters), k, TitleServerLe)
         == Matching(EquivalentsOf(data, k, TitleServerLe), filters)
  {
    if data != [] {
      MatchingOfEquivalents(data[1..], filters, k);
      var m := Matching(data, filters);
      var e := EquivalentsOf(data, k, TitleServerLe);
      var sat, eq := SatisfiesAll(data[0], filters), Equivalent(data[0], k, TitleServerLe);
      if sat {
        assert m[0] == data[0] && m[1..] == Matching(data[1..], filters);
      } else {
        assert m == Matching(data[1..], filters);
      }
      if eq {
        assert e[0] == data[0] && e[1..] == EquivalentsOf(data[1..], k, TitleServerLe);
      } else {
        assert e == EquivalentsOf(data[1..], k, TitleServerLe);
      }
    }
  }

  /** Recomputing from the full dataset, as every transition does, gives the
      same list as narrowing the current candidates by the new filter: the
      from-scratch recomputation cannot drift from the incremental one. */
  lemma RecomputeEqualsNarrow(data: seq<Article>, filters: seq<Filter>, f: Filter)
    ensures ApplyFilters(data, filters + [f]) == ApplyFilters(ApplyFilters(data, filters), [f])
  {
    var full := ApplyFilters(data, filters + [f]);
    var current := ApplyFilters(data, filters);
    var narrowed := ApplyFilters(current, [f]);
    TitleServerTotalPreorder();
    ApplyFiltersSpec(data, filters + [f]);
    ApplyFiltersSpec(data, filters);
    ApplyFiltersSpec(current, [f]);
    forall k ensures EquivalentsOf(full, k, TitleServerLe) == EquivalentsOf(narrowed, k, TitleServerLe) {
      calc {
        EquivalentsOf(narrowed, k, TitleServerLe);
        EquivalentsOf(Matching(current, [f]), k, TitleServerLe);
        { MatchingOfEquivalents(current, [f], k); }
        Matching(EquivalentsOf(current, k, TitleServerLe), [f]);
        Matching(EquivalentsOf(Matching(data, filters), k, TitleServerLe), [f]);
        { MatchingOfEquivalents(data, filters, k); }
        Matching(Matching(EquivalentsOf(data, k, TitleServerLe), filters), [f]);
        { MatchingTwice(EquivalentsOf(data, k, TitleServerLe), filters, [f]); }
        Matching(EquivalentsOf(data, k, TitleServerLe), filters + [f]);
        { MatchingOfEquivalents(data, filters + [f], k); }
        EquivalentsOf(Matching(data, filters + [f]), k, TitleServerLe);
        EquivalentsOf(full, k, TitleServerLe);
      }
    }
    SortedUnique(full, narrowed, TitleServerLe);
  }
}
