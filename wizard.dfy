/**
 * The page controller of js/arabic.js as an object: the fields the handlers update in
 * place (`stepIndex`, `state`, `opening`) and the values last put on screen (`view`).
 * Each handler is proved to follow its transition in module Transitions and to keep the
 * screen equal to a fresh render of the current state.
 */
module Controller {
  import opened Wrappers
  import opened AnswerSet
  import opened Steps
  import opened View
  import opened Transitions

  class Wizard {
    var stepIndex: int
    var state: Answers
    var opening: bool
    var view: Screen

    function Snapshot(): Config
      reads this
    {
      Config(stepIndex, state, opening)
    }

    /** The state invariant, and the screen shows the step on screen rendered from the current answers. */
    ghost predicate Valid()
      reads this
    {
      Inv(Snapshot()) && view == ViewOf(Shown(stepIndex), state)
    }

    /** `init`: load the persisted record, reset the cursor and render step 0. */
    constructor (persisted: Option<Answers>)
      ensures Valid()
      ensures Snapshot() == Init(persisted)
      ensures view == ViewOf(0, Merge(DEFAULT_ANSWERS, persisted))
    {
      stepIndex := 0;
      state := DEFAULT_ANSWERS;
      opening := false;
      view := Screen("", "", [], false, false, [], 0);
      new;
      LoadState(persisted);
      stepIndex := 0;
      RenderStep();
    }

    /** `loadState`: copy each persisted field that is present and truthy, keep the rest. */
    method LoadState(parsed: Option<Answers>)
      modifies this`state
      ensures state == Merge(old(state), parsed)
    {
      if parsed.Some? {
        var p := parsed.value;
        if Truthy(p.goal) { state := state.(goal := p.goal); }
        if Truthy(p.level) { state := state.(level := p.level); }
        if Truthy(p.style) { state := state.(style := p.style); }
      }
    }

    /** `renderStep`: only reachable with `steps[stepIndex]` defined. */
    method RenderStep()
      requires 0 <= stepIndex < |STEPS|
      modifies this`view
      ensures view == ViewOf(stepIndex, state)
    {
      var step := STEPS[stepIndex];
      var answer := state.Get(step.key);
      var flags := RenderChoices(step.options, answer);
      view := Screen(step.title, step.hint, flags, stepIndex == 0, !Truthy(answer),
                     ActiveFlags(stepIndex), Progress(stepIndex));
    }

    /**
     * A click on option `k` of the step on screen: store its title under the step's key,
     * highlight only that option and enable Next.
     */
    method Select(k: nat)
      requires Valid() && CanSelect(Snapshot(), k)
      modifies this`state, this`view
      ensures Valid()
      ensures Snapshot() == AfterSelect(old(Snapshot()), k)
      ensures stepIndex == old(stepIndex) && opening == old(opening)
      ensures forall j :: 0 <= j < |view.highlighted| ==> (view.highlighted[j] <==> j == k)
      ensures !view.nextDisabled
    {
      TableWellFormed();
      SelectPreservesInv(Snapshot(), k);
      var step := STEPS[Shown(stepIndex)];
      state := state.Set(step.key, step.options[k].title);
      var flags := ClearAndSelect(|view.highlighted|, k);
      ClickMatchesRender(step.options, k, flags);
      view := view.(highlighted := flags, nextDisabled := false);
    }

    /** The Back handler: nothing at index 0, otherwise one step back and re-render. */
    method Back()
      requires Valid()
      modifies this`stepIndex, this`view
      ensures Valid()
      ensures Snapshot() == AfterBack(old(Snapshot()))
      ensures old(stepIndex) == 0 ==> stepIndex == 0 && view == old(view)
      ensures old(stepIndex) != 0 ==> stepIndex == old(stepIndex) - 1 && view == ViewOf(stepIndex, state)
    {
      if stepIndex == 0 {
        return;
      }
      stepIndex := stepIndex - 1;
      RenderStep();
    }

    /**
     * The Next handler. Returns whether it called `startChatFlow`; that happens exactly when
     * the cursor reaches the end, and then nothing is rendered.
     */
    method Next() returns (fired: bool)
      requires Valid()
      modifies this`stepIndex, this`opening, this`view
      ensures Valid()
      ensures AfterNext(old(Snapshot())) == NextResult(Snapshot(), fired)
      ensures fired ==> stepIndex == |STEPS| && view == old(view)
    {
      fired := false;
      if !(0 <= stepIndex < |STEPS|) {
        return;
      }
      var step := STEPS[stepIndex];
      if !Truthy(state.Get(step.key)) {
        return;
      }
      stepIndex := stepIndex + 1;
      if stepIndex >= |STEPS| {
        var started := StartChatFlow();
        fired := true;
        return;
      }
      RenderStep();
    }

    /** `startChatFlow` up to its `await`: a call while an attempt is in flight is ignored. */
    method StartChatFlow() returns (started: bool)
      requires Valid()
      modifies this`opening
      ensures Valid() && view == old(view)
      ensures started == StartsAttempt(old(Snapshot()))
      ensures Snapshot() == AfterStartChat(old(Snapshot()))
    {
      if opening {
        return false;
      }
      opening := true;
      started := true;
    }

    /** The awaited open attempt has resolved: `opening = false`. */
    method OpenSettled()
      requires Valid()
      modifies this`opening
      ensures Valid() && view == old(view)
      ensures Snapshot() == AfterSettled(old(Snapshot()))
    {
      opening := false;
    }
  }
}
