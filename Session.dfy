/** The quiz session held by the `LabyrintApp` component (labyrint.jsx:11-102):
    whether the visitor has entered, the filters chosen so far, the current
    candidate articles and the index of the current step, with the three
    transitions that change them and the choice of the screen to show. */
module Session {
  import opened Filters
  import opened Options

  /** `steps`: the fixed order in which the dimensions are asked about. */
  const Steps: seq<Dimension> := [Goals, Actors, Targets, Consequences, Actions]

  /** Results are shown once at most this many candidates remain. */
  const ResultThreshold: nat := 3

  datatype Screen = Intro | Question | Results

  /** `showIntro`, `showResults`, `showQuestion` (labyrint.jsx:99-102). */
  function ScreenFor(hasEntered: bool, candidateCount: nat, stepIndex: int): Screen
  {
    if !hasEntered then Intro
    else if candidateCount <= ResultThreshold || stepIndex >= |Steps| - 1 then Results
    else Question
  }

  /** A question is only ever asked about one of the first four steps, with
      more candidates left than the threshold; `actions`, the last step, is
      never asked. */
  lemma QuestionBeforeLastStep(hasEntered: bool, candidateCount: nat, stepIndex: int)
    requires ScreenFor(hasEntered, candidateCount, stepIndex) == Question
    ensures hasEntered && candidateCount > ResultThreshold
    ensures stepIndex < |Steps| - 1 && (0 <= stepIndex ==> Steps[stepIndex] != Actions)
  {
  }

  /** The i-th filter answers the i-th step. */
  ghost predicate FollowsSteps(filters: seq<Filter>)
  {
    forall i :: 0 <= i < |filters| && i < |Steps| ==> filters[i].key == Steps[i]
  }

  lemma AnswerFollowsSteps(filters: seq<Filter>, option: string)
    requires FollowsSteps(filters) && |filters| < |Steps|
    ensures FollowsSteps(filters + [Filter(Steps[|filters|], option)])
  {
  }

  lemma DropLastFollowsSteps(filters: seq<Filter>)
    requires FollowsSteps(filters) && filters != []
    ensures FollowsSteps(filters[..|filters| - 1])
  {
  }

  class LabyrintApp {
    /** `conspiraciesData`: the dataset, never changed. */
    const data: seq<Article>
    var hasEntered: bool
    var conspiracies: seq<Article>
    var filters: seq<Filter>
    var stepIndex: int

    /** The step index counts the filters; the i-th filter answers the i-th
        step; no filter is kept outside the quiz; and the candidates are the
        ones `applyFilters` computes from the full dataset, except before the
        first choice, when they may still be the dataset as loaded. */
    ghost predicate Valid()
      reads this
    {
      && stepIndex == |filters|
      && |filters| <= |Steps| - 1
      && FollowsSteps(filters)
      && (!hasEntered ==> filters == [])
      && (conspiracies == ApplyFilters(data, filters) || (filters == [] && conspiracies == data))
    }

    /** The initial state of the component's hooks (labyrint.jsx:12-17). */
    constructor (data: seq<Article>)
      ensures Valid()
      ensures this.data == data && !hasEntered && conspiracies == data
      ensures filters == [] && stepIndex == 0
    {
      this.data := data;
      hasEntered := false;
      conspiracies := data;
      filters := [];
      stepIndex := 0;
    }

    /** The screen the component renders. */
    function CurrentScreen(): Screen
      reads this
    {
      ScreenFor(hasEntered, |conspiracies|, stepIndex)
    }

    /** `options`: the values offered for the current step. They are the
        option list of the candidates `applyFilters` gives for the chosen
        filters, even before the first choice, when the candidates are still
        in dataset order. */
    function CurrentOptions(): (r: seq<string>)
      reads this
      requires Valid()
      ensures r == OptionsFor(ApplyFilters(data, filters), Steps[stepIndex])
      ensures StrictlyAscending(r)
    {
      ApplyFiltersSpec(data, filters);
      OptionsIgnoreCandidateOrder(conspiracies, ApplyFilters(data, filters), Steps[stepIndex]);
      OptionsFor(conspiracies, Steps[stepIndex])
    }

    /** The enter button on the intro screen: `setHasEntered(true)`. */
    method Enter()
      requires Valid()
      modifies this
      ensures Valid()
      ensures hasEntered
      ensures filters == old(filters) && conspiracies == old(conspiracies) && stepIndex == old(stepIndex)
    {
      hasEntered := true;
    }

    /** `onOptionSelected(option)`: the buttons that call it are rendered only
        on the question screen. The new filter answers the current step, the
        candidates are recomputed from the full dataset, and the next step
        becomes current. */
    method OnOptionSelected(option: string)
      requires Valid() && CurrentScreen() == Question
      modifies this
      ensures Valid()
      ensures filters == old(filters) + [Filter(Steps[old(stepIndex)], option)]
      ensures conspiracies == ApplyFilters(data, filters)
      ensures stepIndex == old(stepIndex) + 1
      ensures hasEntered == old(hasEntered)
      ensures conspiracies != [] <==> option in old(CurrentOptions())
    {
      var step := Steps[stepIndex];
      var newFilters := filters + [Filter(step, option)];
      ghost var leadsSomewhere := ApplyFilters(data, newFilters) != [] <==> option in CurrentOptions();
      assert leadsSomewhere by {
        OfferedIffNonEmpty(data, filters, step, option);
      }
      AnswerFollowsSteps(filters, option);
      filters := newFilters;
      conspiracies := ApplyFilters(data, newFilters);
      stepIndex := stepIndex + 1;
    }

    /** `back()`: with no filter chosen it leaves the quiz for the intro;
        otherwise it drops the last filter, recomputes the candidates from the
        full dataset and goes one step back. */
    method Back()
      requires Valid()
      modifies this
      ensures Valid()
      ensures old(filters) == [] ==>
        && !hasEntered
        && filters == [] && conspiracies == old(conspiracies) && stepIndex == old(stepIndex)
      ensures old(filters) != [] ==>
        && hasEntered == old(hasEntered)
        && filters == old(filters)[..|old(filters)| - 1]
        && conspiracies == ApplyFilters(data, filters)
        && stepIndex == old(stepIndex) - 1
    {
      if |filters| == 0 {
        hasEntered := false;
      } else {
        var newFilters := filters[..|filters| - 1];
        DropLastFollowsSteps(filters);
        filters := newFilters;
        conspiracies := ApplyFilters(data, newFilters);
        stepIndex := stepIndex - 1;
      }
    }
  }

  /** Going back right after choosing an option restores the filters, the
      step and the screen. The candidates become `applyFilters` of the
      restored filters: the same articles as before, and the very same list
      when they had already been computed (after the first choice, or after
      returning to the first step). */
  method SelectThenBack(app: LabyrintApp, option: string)
    requires app.Valid() && app.CurrentScreen() == Question
    modifies app
    ensures app.Valid()
    ensures app.filters == old(app.filters) && app.stepIndex == old(app.stepIndex)
    ensures app.hasEntered == old(app.hasEntered)
    ensures app.CurrentScreen() == old(app.CurrentScreen())
    ensures app.CurrentOptions() == old(app.CurrentOptions())
    ensures app.conspiracies == ApplyFilters(app.data, app.filters)
    ensures multiset(app.conspiracies) == multiset(old(app.conspiracies))
    ensures old(app.conspiracies) == ApplyFilters(app.data, old(app.filters)) ==> app.conspiracies == old(app.conspiracies)
  {
    ghost var before := app.conspiracies;
    app.OnOptionSelected(option);
    assert app.filters[..|app.filters| - 1] == old(app.filters);
    app.Back();
    NoFiltersKeepsAll(app.data);
    assert |app.conspiracies| == |before|;
  }
}
