/**
 * The wizard's handlers as pure transitions on a snapshot of its state: the option click,
 * Back, Next, the chat buttons, and the settling of a chat-open attempt. The class in
 * wizard.dfy is proved to follow these; the lemmas here state what the handlers guarantee,
 * alone and over any sequence of user events.
 */
module Transitions {
  import opened Wrappers
  import opened AnswerSet
  import opened Steps
  import opened View

  /** The module-level state of the page: `stepIndex`, `state` and the `opening` flag. */
  datatype Config = Config(stepIndex: int, state: Answers, opening: bool)

  /** The state after a Next click, and whether that click called `startChatFlow`. */
  datatype NextResult = NextResult(after: Config, fired: bool)

  /**
   * The step whose options are on screen. Reaching index 3 does not re-render, so the
   * options of the last step stay on screen (and clickable) there.
   */
  function Shown(i: int): (j: int)
    requires 0 <= i <= |STEPS|
    ensures 0 <= j < |STEPS|
    ensures j == Min(i, |STEPS| - 1)
  {
    if i < |STEPS| then i else |STEPS| - 1
  }

  /** Every step before the cursor has a truthy answer. */
  predicate Answered(c: Config)
  {
    forall j :: 0 <= j < c.stepIndex && j < |STEPS| ==> Truthy(c.state.Get(STEPS[j].key))
  }

  /** What holds of every state the page can reach. */
  predicate Inv(c: Config)
  {
    0 <= c.stepIndex <= |STEPS| && WellFormed(c.state) && Answered(c)
  }

  /** `init`: the default record merged with the persisted one, the cursor at 0, no chat opening. */
  function Init(persisted: Option<Answers>): (c: Config)
    ensures Inv(c) && c.stepIndex == 0 && !c.opening
    ensures c.state == Merge(DEFAULT_ANSWERS, persisted)
  {
    MergePreservesWellFormed(DEFAULT_ANSWERS, persisted);
    Config(0, Merge(DEFAULT_ANSWERS, persisted), false)
  }

  /** Option `k` of the step on screen exists. */
  predicate CanSelect(c: Config, k: nat)
  {
    0 <= c.stepIndex <= |STEPS| && k < |STEPS[Shown(c.stepIndex)].options|
  }

  /**
   * The option click handler: `state[step.key] = opt.title` for the step on screen.
   * No other answer, nor the cursor, nor the flag changes.
   */
  function AfterSelect(c: Config, k: nat): (r: Config)
    requires CanSelect(c, k)
    ensures r.stepIndex == c.stepIndex && r.opening == c.opening
    ensures r.state.Get(STEPS[Shown(c.stepIndex)].key) == Some(STEPS[Shown(c.stepIndex)].options[k].title)
    ensures forall key :: key != STEPS[Shown(c.stepIndex)].key ==> r.state.Get(key) == c.state.Get(key)
  {
    var step := STEPS[Shown(c.stepIndex)];
    c.(state := c.state.Set(step.key, step.options[k].title))
  }

  /** The Back handler: a no-op at index 0, otherwise one step back with the answers kept. */
  function AfterBack(c: Config): (r: Config)
    ensures c.stepIndex == 0 ==> r == c
    ensures c.stepIndex != 0 ==> r.stepIndex == c.stepIndex - 1 && r.state == c.state && r.opening == c.opening
  {
    if c.stepIndex == 0 then c else c.(stepIndex := c.stepIndex - 1)
  }

  /** `startChatFlow` up to its first `await`: afterwards the flag is set, whether or not it was. */
  function AfterStartChat(c: Config): (r: Config)
    ensures r.opening && r.stepIndex == c.stepIndex && r.state == c.state
    ensures c.opening ==> r == c
  {
    c.(opening := true)
  }

  /** A call of `startChatFlow` begins a new open attempt only when none is in flight. */
  predicate StartsAttempt(c: Config)
  {
    !c.opening
  }

  /** The awaited open attempt finishes (found and clicked, or timed out): `opening = false`. */
  function AfterSettled(c: Config): (r: Config)
    ensures !r.opening && r.stepIndex == c.stepIndex && r.state == c.state
  {
    c.(opening := false)
  }

  /**
   * The Next handler. Nothing happens when `steps[stepIndex]` is undefined or its answer is
   * falsy; otherwise the cursor advances, and reaching the end calls `startChatFlow`
   * instead of rendering.
   */
  function AfterNext(c: Config): (r: NextResult)
    ensures r == NextResult(c, false) <==>
            !(0 <= c.stepIndex < |STEPS|) || !Truthy(c.state.Get(STEPS[c.stepIndex].key))
    ensures r != NextResult(c, false) ==>
              r.after.stepIndex == c.stepIndex + 1 && r.after.state == c.state &&
              (r.fired <==> r.after.stepIndex == |STEPS|) &&
              r.after.opening == (c.opening || r.fired)
  {
    if !(0 <= c.stepIndex < |STEPS|) || !Truthy(c.state.Get(STEPS[c.stepIndex].key)) then
      NextResult(c, false)
    else if c.stepIndex + 1 >= |STEPS| then
      NextResult(AfterStartChat(c.(stepIndex := c.stepIndex + 1)), true)
    else
      NextResult(c.(stepIndex := c.stepIndex + 1), false)
  }

  /**
   * Next is a no-op (nothing changes, no chat trigger) exactly when the cursor is past the
   * last step or the current step's answer is unset or empty.
   */
  lemma NextNoOpIff(c: Config)
    requires 0 <= c.stepIndex <= |STEPS|
    ensures AfterNext(c) == NextResult(c, false) <==>
            c.stepIndex == |STEPS| || !Truthy(c.state.Get(STEPS[c.stepIndex].key))
  {
  }

  /**
   * Next with a truthy answer moves the cursor up by one and keeps the answers; it calls
   * `startChatFlow` exactly when the new index is 3, and otherwise the new index is a step
   * that can be rendered.
   */
  lemma NextAdvances(c: Config)
    requires 0 <= c.stepIndex < |STEPS| && Truthy(c.state.Get(STEPS[c.stepIndex].key))
    ensures AfterNext(c).after.stepIndex == c.stepIndex + 1
    ensures AfterNext(c).after.state == c.state
    ensures AfterNext(c).fired <==> c.stepIndex + 1 == |STEPS|
    ensures !AfterNext(c).fired ==> AfterNext(c).after.stepIndex < |STEPS| && AfterNext(c).after.opening == c.opening
    ensures AfterNext(c).fired ==> AfterNext(c).after.opening
  {
  }

  /** When Next calls `startChatFlow`, all three answers are set. */
  lemma {:induction false} FiresOnlyWhenComplete(c: Config)
    requires Inv(c) && AfterNext(c).fired
    ensures forall k :: Truthy(c.state.Get(k))
  {
    TableWellFormed();
    assert c.stepIndex == 2;
    assert Truthy(c.state.Get(STEPS[0].key));
    assert Truthy(c.state.Get(STEPS[1].key));
    forall k ensures Truthy(c.state.Get(k)) {
      match k
      case Goal => assert k == STEPS[0].key;
      case Level => assert k == STEPS[1].key;
      case Style => assert k == STEPS[2].key;
    }
  }

  /**
   * The buttons on screen against the handlers. Back is disabled exactly when Back would
   * change nothing. Below index 3, Next is disabled exactly when Next would change nothing;
   * at index 3 the last step is still on screen with its answer set, so the Next button is
   * enabled, yet the handler does nothing because `steps[3]` is undefined.
   */
  lemma ButtonsMatchHandlers(c: Config)
    requires Inv(c)
    ensures ViewOf(Shown(c.stepIndex), c.state).backDisabled <==> AfterBack(c) == c
    ensures c.stepIndex < |STEPS| ==>
              (ViewOf(Shown(c.stepIndex), c.state).nextDisabled <==> AfterNext(c) == NextResult(c, false))
    ensures c.stepIndex == |STEPS| ==>
              !ViewOf(Shown(c.stepIndex), c.state).nextDisabled && AfterNext(c) == NextResult(c, false)
  {
  }

  lemma SelectPreservesInv(c: Config, k: nat)
    requires Inv(c) && CanSelect(c, k)
    ensures Inv(AfterSelect(c, k))
  {
  }

  lemma BackPreservesInv(c: Config)
    requires Inv(c)
    ensures Inv(AfterBack(c))
  {
  }

  lemma NextPreservesInv(c: Config)
    requires Inv(c)
    ensures Inv(AfterNext(c).after)
  {
  }

  /** A user event on the page. */
  datatype Event =
    | ClickOption(k: nat)  // a click on the k-th option element on screen
    | ClickBack
    | ClickNext
    | ClickChat            // `jumpChatBtn` or `startChatBtn`
    | OpenSettled          // the awaited open attempt in `startChatFlow` resolves

  /** One event. A click on an option index that is not on screen has no element to land on. */
  function Apply(c: Config, e: Event): (r: Config)
    ensures !e.ClickOption? ==> r.state == c.state
    ensures e.ClickOption? || e.ClickChat? || e.OpenSettled? ==> r.stepIndex == c.stepIndex
    ensures e.ClickOption? || e.ClickBack? ==> r.opening == c.opening
    ensures e.ClickChat? ==> r.opening
    ensures e.OpenSettled? ==> !r.opening
  {
    match e
    case ClickOption(k) => if CanSelect(c, k) then AfterSelect(c, k) else c
    case ClickBack => AfterBack(c)
    case ClickNext => AfterNext(c).after
    case ClickChat => AfterStartChat(c)
    case OpenSettled => AfterSettled(c)
  }

  /** A sequence of events, in order. */
  function Run(c: Config, es: seq<Event>): Config
    decreases |es|
  {
    if es == [] then c else Run(Apply(c, es[0]), es[1..])
  }

  lemma ApplyPreservesInv(c: Config, e: Event)
    requires Inv(c)
    ensures Inv(Apply(c, e))
  {
  }

  /**
   * Every state reachable from start-up satisfies the invariant: the cursor stays in
   * [0, 3], so `steps[stepIndex]` is defined whenever the cursor is below 3, and every
   * step before the cursor is answered.
   */
  lemma {:induction false} ReachableInv(persisted: Option<Answers>, es: seq<Event>)
    ensures Inv(Run(Init(persisted), es))
  {
    RunPreservesInv(Init(persisted), es);
  }

  lemma {:induction false} RunPreservesInv(c: Config, es: seq<Event>)
    requires Inv(c)
    ensures Inv(Run(c, es))
    decreases |es|
  {
    if es != [] {
      ApplyPreservesInv(c, es[0]);
      RunPreservesInv(Apply(c, es[0]), es[1..]);
    }
  }

  /** An answer, once set, stays set whatever the user does afterwards. */
  lemma {:induction false} AnswersPersist(c: Config, es: seq<Event>, key: Key)
    requires Inv(c) && Truthy(c.state.Get(key))
    ensures Truthy(Run(c, es).state.Get(key))
    decreases |es|
  {
    if es != [] {
      var c1 := Apply(c, es[0]);
      ApplyPreservesInv(c, es[0]);
      assert Truthy(c1.state.Get(key)) by {
        match es[0]
        case ClickOption(k) =>
          if CanSelect(c, k) {
            TableWellFormed();
            if key != STEPS[Shown(c.stepIndex)].key {
              assert c1.state.Get(key) == c.state.Get(key);
            }
          }
        case ClickBack =>
        case ClickNext =>
        case ClickChat =>
        case OpenSettled =>
      }
      AnswersPersist(c1, es[1..], key);
    }
  }

  /**
   * Choosing an option, going forward and coming back lands on the same step with the
   * choice kept and exactly that option highlighted.
   */
  lemma SelectLeaveAndReturn(c: Config, k: nat)
    requires Inv(c) && c.stepIndex < |STEPS| && CanSelect(c, k)
    ensures AfterBack(AfterNext(AfterSelect(c, k)).after).stepIndex == c.stepIndex
    ensures AfterBack(AfterNext(AfterSelect(c, k)).after).state == AfterSelect(c, k).state
    ensures forall j :: 0 <= j < |STEPS[c.stepIndex].options| ==>
                          (ViewOf(c.stepIndex, AfterSelect(c, k).state).highlighted[j] <==> j == k)
  {
  }

  /** Whether event `e` in state `c` begins a new chat-open attempt. */
  predicate BeginsAttempt(c: Config, e: Event)
  {
    (e == ClickChat || (e == ClickNext && AfterNext(c).fired)) && StartsAttempt(c)
  }

  /** The number of open attempts begun along a run. */
  function Attempts(c: Config, es: seq<Event>): nat
    decreases |es|
  {
    if es == [] then 0
    else (if BeginsAttempt(c, es[0]) then 1 else 0) + Attempts(Apply(c, es[0]), es[1..])
  }

  /** The number of attempts that finish along a run. */
  function Settles(c: Config, es: seq<Event>): nat
    decreases |es|
  {
    if es == [] then 0
    else (if es[0] == OpenSettled && c.opening then 1 else 0) + Settles(Apply(c, es[0]), es[1..])
  }

  /**
   * The `opening` guard lets at most one attempt be in flight: along any run, attempts begun
   * never exceed attempts finished plus one (plus none if one is already in flight).
   */
  lemma {:induction false} OneAttemptAtATime(c: Config, es: seq<Event>)
    ensures Attempts(c, es) <= Settles(c, es) + (if c.opening then 0 else 1)
    decreases |es|
  {
    if es != [] {
      var c1 := Apply(c, es[0]);
      OneAttemptAtATime(c1, es[1..]);
      if BeginsAttempt(c, es[0]) {
        assert c1.opening;
      } else if es[0] != OpenSettled {
        assert c1.opening == c.opening || c1.opening;
      }
    }
  }
}
