# Antivax labyrinth: the filtering quiz, modelled in Dafny

The labyrinth is a quiz embedded in a page. It walks a visitor through
questions about a fixed dataset of conspiracy articles. Each article is coded
by five tag lists: goals, actors, targets, consequences and actions. Each answer
adds a filter `(dimension, value)`. The candidate articles are recomputed from
the full dataset after every answer. Once few enough candidates remain, or the
questions run out, the matching articles are shown.

The model covers the logic of `labyrint.jsx`:

- `StringOrder.dfy`: the string order that lodash's `sortBy`/`orderBy` use,
  which is lexicographic comparison. It comes with a reference definition and
  proofs that it is a total order.
- `Sorting.dfy`: the stable sort behind `sortBy`/`orderBy`, written as an
  insertion sort over a total preorder. It is proved sorted, a permutation of
  its input, and stable. The lemma `SortedUnique` proves it is the only stable
  sorted arrangement.
- `Filters.dfy`: `applyFilters`. An article is kept when, for every filter,
  its tag list for the filter's dimension contains the filter's value. The
  result is ordered by title and then by server. Lemmas cover which articles
  it returns, the empty filter list, narrowing, repeated filters and the order
  of filters. They also prove that recomputing from the full dataset gives
  the same list as narrowing the current candidates.
- `Options.dfy`: the option list of the current step. It concatenates the
  step's tag lists, removes duplicates and sorts the values. The output is
  proved strictly ascending and to hold exactly the values the candidates
  carry. A value is offered exactly when choosing it leaves at least one
  candidate.
- `Session.dfy`: the `LabyrintApp` state as a class. Its fields are
  `hasEntered`, `filters`, `conspiracies` and `stepIndex`, plus the fixed
  dataset. The class has the transitions enter, `onOptionSelected` and `back`,
  a validity invariant, and the choice between the intro, question and results
  screens.
- `Illustrations.dfy`: `getArticleIllustrationUrl`.

The dataset (`data.json`) is a parameter of the session, an arbitrary
`seq<Article>` that never changes.

Behaviour as written in `labyrint.jsx`, which this model follows:

- The steps are asked in the order goals, actors, targets, consequences,
  actions.
- Results are shown when at most 3 candidates remain or when
  `stepIndex >= steps.length - 1`. So at most four questions are asked, and
  the `actions` step is never asked (`QuestionBeforeLastStep`).
- No step skips dimensions that cannot narrow the candidates. The current
  step is always `steps[stepIndex]`. The threshold is 3 and goals are asked
  first (labyrint.jsx:15, 101).
- Before the first choice, `conspiracies` holds the dataset in its loaded
  order, not the order `applyFilters` produces. `Valid()` allows for this.
  `CurrentOptions` proves that the options do not depend on it. For the same
  reason, going back after the first choice gives the candidates back as
  `applyFilters` sorts them: the same articles, possibly in a different order
  (`SelectThenBack`).

## Model

| member | source | states |
|---|---|---|
| StringOrder.LessIffFirstDifference | labyrint.jsx:283 | string `<` holds exactly when the first string is a proper prefix of the second, or the strings agree up to a position where the first has the smaller character |
| StringOrder.LessEqTotalOrder | labyrint.jsx:283 | string `<=` is total, transitive and antisymmetric, so sorting by it is well defined |
| Sorting.StableSortPermutes | labyrint.jsx:283 | the sorted output is a permutation of the input: same elements, same multiplicities, same length |
| Sorting.StableSortSorted | labyrint.jsx:283 | for a total preorder, every element of the output is ranked at or below every later one |
| Sorting.StableSortStable | labyrint.jsx:283 | elements that rank equal keep their input order, as lodash's stable `orderBy`/`sortBy` do |
| Sorting.SortedUnique | labyrint.jsx:283 | two sorted lists that list each key's elements in the same order are equal, so the stable sort's output is the only possible one |
| Filters.MatchingCount | labyrint.jsx:277-281 | `filter` with `every`/`includes` keeps each article that meets every filter as often as the dataset holds it, and drops every other article |
| Filters.TitleServerTotalPreorder | labyrint.jsx:283 | ordering by title and then by server is a total preorder |
| Filters.TitleServerTies | labyrint.jsx:283 | two articles tie in that order exactly when they have the same title and the same server |
| Filters.ApplyFiltersSpec | labyrint.jsx:276-284 | the result is exactly the matching articles of the dataset, each with its multiplicity, sorted ascending by title and then server; ties keep dataset order |
| Filters.NoFiltersKeepsAll | labyrint.jsx:276-284 | with no filters, `every` is true for every article, so the result is the whole dataset, sorted |
| Filters.AppendFilterRefines | labyrint.jsx:277-281 | the candidates for `filters + [f]` are the candidates for `filters` that satisfy `f` |
| Filters.AppendFilterNarrows | labyrint.jsx:277-281 | adding a filter never enlarges the candidates: the new ones are a sub-multiset of the old ones, and no more numerous |
| Filters.RepeatedFilterChangesNothing | labyrint.jsx:277-281 | appending a filter that is already chosen leaves the result the same list |
| Filters.FilterOrderIrrelevant | labyrint.jsx:278-280 | filters combine with AND: two filter lists with the same members give the same result |
| Filters.RecomputeEqualsNarrow | labyrint.jsx:53 | recomputing from the full dataset with `filters + [f]` equals applying `[f]` to the current candidates, so the recomputation cannot drift |
| Options.CollectMembers | labyrint.jsx:92-94 | the concatenation of the step's tag lists holds a value exactly when some candidate carries it |
| Options.UniqKeepsValuesOnce | labyrint.jsx:91 | `uniq` keeps every value and no duplicates |
| Options.OptionsFor | labyrint.jsx:90-97 | the option list is strictly ascending, so it is sorted and has no duplicates; it holds exactly the values some candidate carries for the step, and it is empty when there are no candidates |
| Options.OptionsIgnoreCandidateOrder | labyrint.jsx:90-97 | the option list depends only on which articles are candidates, not on their order |
| Options.OfferedIffNonEmpty | labyrint.jsx:90-97 | a value is offered exactly when choosing it leaves at least one candidate |
| Session.QuestionBeforeLastStep | labyrint.jsx:99-102 | on the question screen the visitor has entered, more than 3 candidates remain and `stepIndex < 4`, so `steps[stepIndex]` exists and is never `actions` |
| Session.LabyrintApp.constructor | labyrint.jsx:12-17 | the session starts on the intro screen with no filters, step 0 and the dataset as loaded |
| Session.LabyrintApp.CurrentOptions | labyrint.jsx:90-97 | the options shown are those of `applyFilters(data, filters)` for the current step, including before the first choice |
| Session.LabyrintApp.Enter | labyrint.jsx:132 | entering sets `hasEntered` and changes nothing else |
| Session.LabyrintApp.OnOptionSelected | labyrint.jsx:44-65 | appends exactly `{key: steps[stepIndex], value: option}`, sets the candidates to `applyFilters` of the full dataset, increments the step and keeps `hasEntered` and the invariant; the candidates are non-empty exactly when the option was offered |
| Session.LabyrintApp.Back | labyrint.jsx:67-76 | with no filters, only leaves to the intro; otherwise drops the last filter, recomputes the candidates from the full dataset and decrements the step; the invariant is kept |
| Session.SelectThenBack | labyrint.jsx:44-76 | `back()` right after `onOptionSelected(v)` restores the filters, the step, `hasEntered`, the screen and the options; the candidates are `applyFilters(data, filters)` of the restored filters (labyrint.jsx:73): the same articles as before, and the identical list when they had already been computed |
| Illustrations.ParseDecimalString | labyrint.jsx:291 | the decimal text of a source number reads back as that number |
| Illustrations.IllustrationUrlDistinguishes | labyrint.jsx:286-295 | two articles get the same picture URL exactly when they share a source number or neither has a picture of its own |

## Left out

- Rendering, CSS class names, the Czech static text and the label lookup tables for the choices trail (labyrint.jsx:104-273) are presentation only.
- The iframe height messaging is left out: the debounced `onResize`, `getBoundingClientRect`, `postMessage` and the window resize listeners (labyrint.jsx:20-42, 78-88). So is the host page's listener in `public/labyrint.js`. These are DOM I/O, timers and floating-point heights.
- `create-image-tiles.js` is not part of this model. It is a call into an image library that writes files.
- The polyfill imports, the `ReactDOM.render` mount (labyrint.jsx:1-3, 297-300) and the `console.log` in `getArticleIllustrationUrl` are left out. They have no effect on state.
- React's render timing and hook dependency lists are left out. The transitions are modelled as synchronous updates of all fields at once. `back`'s dependency list omits `stepIndex`, but `filters` changes whenever `stepIndex` does, so `back` always sees the current step.
- The contents of `data.json` are not modelled. The dataset is an arbitrary parameter. The article's `link` field is used only for rendering and is left out.
- String comparison follows Dafny's `char` order, which is by code point. JavaScript compares UTF-16 code units. The two orders differ only between characters outside the Basic Multilingual Plane and characters from U+E000 to U+FFFF.
- lodash's comparator also orders `undefined`, `null`, `NaN` and symbols. Titles, servers and tag values are always strings here, so that is not modelled.
- The number-to-text conversion of the illustration URL is modelled for whole non-negative numbers only. It is applied only to the listed source numbers 3 and 21.
