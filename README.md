# SpeakEasy Arabic onboarding wizard, modelled in Dafny

The page script `js/arabic.js` walks a learner through three questions: what to practise
(goal), their level, and the learning style they prefer. The answers are kept in a record
with the keys `goal`, `level` and `style`. A Next click on the answered last step asks an
embedded third-party chat widget to open; so does either of the two chat buttons, at any
time. Choosing an option only stores the answer. This project models that wizard:

- `answers.dfy` (module `AnswerSet`): the answer record. It holds a key lookup and update,
  JavaScript truthiness of a null-or-string value, the default record (goal
  "Conversation"), and the merge `loadState` applies to a persisted record.
- `steps.dfy` (module `Steps`): the fixed table of three steps and their options.
- `view.dfy` (module `View`): what `renderStep` puts on screen, as values. This covers the
  progress percentage (`Math.round` stated exactly on integers), the active step indicator,
  the highlighted option and whether Back and Next are enabled. It also holds the two
  option loops: render and click-to-select.
- `transitions.dfy` (module `Transitions`): the handlers as pure transitions on a snapshot
  `Config(stepIndex, state, opening)`, plus runs over any sequence of user events. The
  lemmas state the handlers' guarantees: the invariant every reachable state keeps, the
  Next and Back edges, answers that persist, and the one-attempt-at-a-time `opening` guard.
- `wizard.dfy` (module `Controller`): class `Wizard` with the fields the handlers update in
  place (`stepIndex`, `state`, `opening`), plus `view`, the values last rendered. Each
  handler is a method proved to follow its transition and to keep the screen equal to a
  fresh render of the current state. `RenderStep` requires `0 <= stepIndex < 3`, so every
  call to it is proved to look up a defined step.

What the code does once the cursor reaches index 3:

- Next does nothing: `steps[3]` is undefined and the handler returns. It does not open the
  chat again.
- Reaching index 3 calls `startChatFlow` and does not re-render. The last step's options
  therefore stay on screen and stay clickable, and the progress bar stays at 67. The model
  keeps this through `Transitions.Shown`.
- The Next button stays enabled there, because the last step's answer is set, but clicking
  it does nothing.

## Model

| member | source | states |
|---|---|---|
| `AnswerSet.Answers.Set` | js/arabic.js:133 | after `state[key] = v` the key holds `v` and every other key is unchanged |
| `AnswerSet.Merge` | js/arabic.js:73-84 | each key takes the persisted value when one was parsed and it is truthy, and otherwise keeps its prior value; nothing parsed means nothing changes |
| `AnswerSet.MergePreservesWellFormed` | js/arabic.js:78-81 | the merge never stores an empty string and never removes the goal |
| `AnswerSet.DefaultGoalUnlessOverridden` | js/arabic.js:26-30 | at start-up `goal` stays "Conversation" unless the persisted record has a truthy goal |
| `AnswerSet.MergeIdempotent` | js/arabic.js:78-81 | loading the same persisted record twice equals loading it once |
| `AnswerSet.RestoreSnapshot` | js/arabic.js:69-84 | a well-formed record that was saved comes back unchanged when merged over the defaults at the next start-up |
| `Steps.TableWellFormed` | js/arabic.js:34-67 | three steps keyed goal, level, style in that order; each has options, and titles are non-empty and distinct within a step |
| `View.Progress` | js/arabic.js:93-96 | the width is the nearest integer (halves up) to min(i,3)/3*100, and lies in [0,100] for i >= 0 |
| `View.ProgressValues` | js/arabic.js:94 | progress is 0, 33, 67, 100 at indices 0 to 3 and never decreases as the index grows |
| `View.ActiveFlags` | js/arabic.js:86-91 | for n >= 0 exactly one of the three indicators is active, the one at min(n,2); for negative n none is |
| `View.HighlightFlags` | js/arabic.js:128-130 | one flag per option, set exactly when the stored answer equals that option's title |
| `View.AtMostOneHighlighted` | js/arabic.js:128-130 | with distinct titles, no two options are highlighted at once |
| `View.RenderChoices` | js/arabic.js:110-141 | the render loop marks "selected" exactly on the options `HighlightFlags` names |
| `View.ClearAndSelect` | js/arabic.js:132-138 | after a click, only the clicked option carries "selected" |
| `View.ClickMatchesRender` | js/arabic.js:128-138 | the highlight a click leaves equals the highlight a fresh render of the new answer shows |
| `View.ViewOf` | js/arabic.js:102-148 | title and hint are the step's; Back is disabled iff the index is 0; Next is disabled iff the step's answer is falsy; highlight, indicator and progress are as rendered |
| `Transitions.Init` | js/arabic.js:256-260 | start-up gives index 0, no chat opening, the default record merged with the persisted one, and a state that satisfies the invariant |
| `Transitions.AfterSelect` | js/arabic.js:132-138 | a click stores the option's title under the on-screen step's key and changes no other answer, not the index and not the flag |
| `Transitions.AfterBack` | js/arabic.js:237-242 | Back at index 0 changes nothing; otherwise it decrements the index by one and keeps answers and flag |
| `Transitions.AfterStartChat` | js/arabic.js:214-219 | `startChatFlow` leaves the flag set; a call while it is already set changes nothing |
| `Transitions.AfterSettled` | js/arabic.js:217-218 | when the awaited attempt resolves the flag is cleared and nothing else changes |
| `Transitions.Shown` | js/arabic.js:249-251 | the step whose options are on screen is the current step below index 3, and the last step at index 3, because reaching 3 skips the render |
| `Transitions.AfterNext` | js/arabic.js:244-254 | no-op exactly when `steps[stepIndex]` is undefined or its answer is falsy; otherwise the index goes up by one with the answers kept, and `startChatFlow` runs (setting the flag) exactly when the new index is 3, instead of a render |
| `Transitions.Apply` | js/arabic.js:229-254 | wires the five user events to their handlers: only an option click changes answers; only Back and Next move the index; the chat button leaves the flag set and a settled attempt leaves it clear |
| `Transitions.NextNoOpIff` | js/arabic.js:245-246 | Next changes nothing and fires nothing iff the index is past the last step or the step's answer is unset or empty |
| `Transitions.NextAdvances` | js/arabic.js:248-253 | Next with a truthy answer adds one to the index and keeps the answers; it fires the chat iff the new index is 3, otherwise the new index is a renderable step |
| `Transitions.FiresOnlyWhenComplete` | js/arabic.js:244-254 | when Next calls `startChatFlow`, all three answers are set |
| `Transitions.ButtonsMatchHandlers` | js/arabic.js:143-144 | in every reachable state the Back button on screen is disabled iff Back would be a no-op; below index 3 the Next button is disabled iff Next would be a no-op; at index 3 the Next button is enabled while Next is a no-op |
| `Transitions.SelectPreservesInv` | js/arabic.js:132-138 | a click keeps the index in range, the record well formed and every earlier step answered |
| `Transitions.BackPreservesInv` | js/arabic.js:237-242 | Back keeps the invariant |
| `Transitions.NextPreservesInv` | js/arabic.js:244-254 | Next keeps the invariant, and its new index never exceeds 3 |
| `Transitions.ApplyPreservesInv` | js/arabic.js:229-254 | every user event keeps the invariant |
| `Transitions.RunPreservesInv` | js/arabic.js:229-254 | every sequence of user events keeps the invariant |
| `Transitions.ReachableInv` | js/arabic.js:256-260 | every state reachable from start-up has its index in [0,3], a well-formed record, and all steps before the index answered |
| `Transitions.AnswersPersist` | js/arabic.js:237-254 | once an answer is set, no sequence of events unsets it |
| `Transitions.SelectLeaveAndReturn` | js/arabic.js:237-254 | choosing an option, then Next, then Back returns to the same step with the choice kept and only that option highlighted |
| `Transitions.OneAttemptAtATime` | js/arabic.js:212-219 | over any run, the open attempts begun exceed the attempts resolved by at most one, or by none if one is already in flight |
| `Controller.Wizard.constructor` | js/arabic.js:256-260 | the object starts in `Init(persisted)` with step 0 rendered |
| `Controller.Wizard.LoadState` | js/arabic.js:73-84 | the field-by-field conditional update leaves `state` equal to `Merge` of the old record and the parsed one |
| `Controller.Wizard.RenderStep` | js/arabic.js:102-148 | callable only with `steps[stepIndex]` defined; afterwards the screen is `ViewOf(stepIndex, state)` |
| `Controller.Wizard.Select` | js/arabic.js:132-138 | follows `AfterSelect`; only the clicked option is highlighted, Next is enabled, and the screen still equals a fresh render |
| `Controller.Wizard.Back` | js/arabic.js:237-242 | follows `AfterBack`; at index 0 the screen is untouched, otherwise the previous step is rendered |
| `Controller.Wizard.Next` | js/arabic.js:244-254 | follows `AfterNext` and returns whether it called `startChatFlow`; when it fired, the index is 3 and nothing was rendered |
| `Controller.Wizard.StartChatFlow` | js/arabic.js:214-219 | returns whether a new attempt began, which happens iff none was in flight; the flag is set afterwards; the screen is unchanged and still a fresh render |
| `Controller.Wizard.OpenSettled` | js/arabic.js:217-218 | clears the flag and changes nothing else; the screen is unchanged and still a fresh render |

## Left out

- DOM rendering (`innerHTML`, `createElement`, `classList`, `textContent`, element ids) and `scrollIntoView` on the setup button. Only the displayed values are modelled.
- The Next button's label reset to "Continue" in the Back handler, since it is display text only.
- `saveState` and the `localStorage`/`JSON` reading in `loadState`. These are browser APIs. `LoadState` receives the already-parsed record, with `None` for "nothing stored, unparsable or not an object". Persisted fields are modelled as strings; a non-string truthy JSON value is not.
- `findFlowiseToggleButtonBestEffort` and `openFlowiseBubbleBestEffort`. They probe the DOM and shadow roots of a third-party widget and poll with `requestAnimationFrame` and `Date.now`. The outcome of an attempt is the abstract event `OpenSettled`.
- The async interleaving of `startChatFlow`. Only the `opening` flag is kept, set by the call and cleared by `OpenSettled`.
- Floating-point `Math.round`. Progress is the exact integer formula, proved equal to rounding the exact rational value.
- `console.log`.
