/**
 * The values `renderStep` puts on screen, as functions of the step shown and the answer
 * record: the progress width, the active step indicator, the highlighted option and the
 * enablement of the Back and Next buttons. The DOM writes themselves are not modelled.
 */
module View {
  import opened Wrappers
  import opened AnswerSet
  import opened Steps

  function Min(a: int, b: int): int
  {
    if a < b then a else b
  }

  /**
   * `updateProgress`: `Math.round(min(i, 3) / 3 * 100)`, computed exactly on integers.
   * The ensures is the definition of `Math.round` (the nearest integer, halves rounded up)
   * applied to the exact rational value.
   */
  function Progress(i: int): (pct: int)
    ensures (pct as real) - 0.5 <= (Min(i, 3) as real) / 3.0 * 100.0 < (pct as real) + 0.5
    ensures 0 <= i ==> 0 <= pct <= 100
  {
    (200 * Min(i, 3) + 3) / 6
  }

  /** The bar moves 0, 33, 67, 100 over the four indices and never backwards. */
  lemma ProgressValues(i: int, j: int)
    requires 0 <= i <= j
    ensures Progress(i) <= Progress(j)
    ensures Progress(0) == 0 && Progress(1) == 33 && Progress(2) == 67 && Progress(3) == 100
    ensures j >= 3 ==> Progress(j) == 100
  {
  }

  /** `setActiveStep(n)`: the "active" flags of the three step indicators. */
  function ActiveFlags(n: int): (flags: seq<bool>)
    ensures |flags| == 3
    ensures 0 <= n ==> forall j :: 0 <= j < 3 ==> (flags[j] <==> j == Min(n, 2))
    ensures n < 0 ==> forall j :: 0 <= j < 3 ==> !flags[j]
  {
    [n == 0, n == 1, n >= 2]
  }

  /** Which rendered options carry the "selected" class: those whose title equals the stored answer. */
  function HighlightFlags(opts: seq<Choice>, answer: Option<string>): (flags: seq<bool>)
    ensures |flags| == |opts|
    ensures forall j :: 0 <= j < |opts| ==> (flags[j] <==> answer == Some(opts[j].title))
  {
    if opts == [] then [] else [answer == Some(opts[0].title)] + HighlightFlags(opts[1..], answer)
  }

  /** Titles are distinct within a step, so at most one option is highlighted. */
  lemma AtMostOneHighlighted(opts: seq<Choice>, answer: Option<string>)
    requires DistinctTitles(opts)
    ensures forall a, b :: 0 <= a < b < |opts| ==> !(HighlightFlags(opts, answer)[a] && HighlightFlags(opts, answer)[b])
  {
  }

  /**
   * The loop of `renderStep` over `step.options`: one option element per option, marked
   * "selected" when `state[step.key] === opt.title`.
   */
  method RenderChoices(opts: seq<Choice>, answer: Option<string>) returns (flags: seq<bool>)
    ensures flags == HighlightFlags(opts, answer)
  {
    flags := [];
    var j := 0;
    while j < |opts|
      invariant 0 <= j <= |opts|
      invariant |flags| == j
      invariant forall i :: 0 <= i < j ==> (flags[i] <==> answer == Some(opts[i].title))
    {
      flags := flags + [answer == Some(opts[j].title)];
      j := j + 1;
    }
  }

  /**
   * The option click handler's effect on the highlight: `clearChoiceSelected` removes
   * "selected" from every rendered option, then the clicked one gets it.
   */
  method ClearAndSelect(n: nat, k: nat) returns (flags: seq<bool>)
    requires k < n
    ensures |flags| == n
    ensures forall j :: 0 <= j < n ==> (flags[j] <==> j == k)
  {
    flags := [];
    var j := 0;
    while j < n
      invariant 0 <= j <= n
      invariant |flags| == j
      invariant forall i :: 0 <= i < j ==> !flags[i]
    {
      flags := flags + [false];
      j := j + 1;
    }
    flags := flags[k := true];
  }

  /**
   * After a click on option `k`, the highlight the handler leaves is the one a fresh render
   * of the new answer would show.
   */
  lemma ClickMatchesRender(opts: seq<Choice>, k: nat, flags: seq<bool>)
    requires DistinctTitles(opts) && k < |opts|
    requires |flags| == |opts| && forall j :: 0 <= j < |opts| ==> (flags[j] <==> j == k)
    ensures flags == HighlightFlags(opts, Some(opts[k].title))
  {
  }

  /** Everything `renderStep` displays for step `i`. */
  datatype Screen = Screen(
    title: string,
    hint: string,
    highlighted: seq<bool>,
    backDisabled: bool,
    nextDisabled: bool,
    active: seq<bool>,
    progress: int)

  /** What the page shows once `renderStep` has run with `stepIndex == i` and answers `s`. */
  function ViewOf(i: int, s: Answers): (v: Screen)
    requires 0 <= i < |STEPS|
    ensures v.title == STEPS[i].title && v.hint == STEPS[i].hint
    ensures v.backDisabled <==> i == 0
    ensures v.nextDisabled <==> !Truthy(s.Get(STEPS[i].key))
    ensures |v.highlighted| == |STEPS[i].options|
    ensures forall j :: 0 <= j < |v.highlighted| ==> (v.highlighted[j] <==> s.Get(STEPS[i].key) == Some(STEPS[i].options[j].title))
    ensures |v.active| == 3 && forall j :: 0 <= j < 3 ==> (v.active[j] <==> j == i)
    ensures v.progress == [0, 33, 67][i]
  {
    var step := STEPS[i];
    Screen(step.title, step.hint, HighlightFlags(step.options, s.Get(step.key)),
           i == 0, !Truthy(s.Get(step.key)), ActiveFlags(i), Progress(i))
  }
}
