# DynamicTreeExplorer in Dafny

A model of the class `DynamicTreeExplorer` (src/components/choice.ts). The
class enumerates every combination of choices across an ordered list of
stages, like a mixed-radix odometer whose radices are discovered lazily.

- `explore(listing)` supplies the options of the stage after the cursor,
  chooses its first entry and moves the cursor there.
- `nextChoice()` moves the cursor stage's choice to its next entry. When the
  choice already holds the last entry, it carries: that stage's listing and
  choice are cleared, the cursor steps back and the increment recurses.
- `exhaustionCheck()` says whether every stage holds the last entry of its
  listing. `nextChoice` stores the answer in `isExhausted`.

The project has five modules:

- `TreeModel` (tree_model.dfy): the explorer's state as a value.
  - The datatype `Explorer` holds the listings and choices by stage index, the
    cursor (`-1` stands for `null`) and the two flags.
  - `IndexOf` follows JavaScript's `indexOf`.
  - One function per operation of the class: `Init`, `Explore`, `StepBack`,
    `StepForward`, `NextChoice` and `Checked` (which runs exhaustionCheck).
  - The invariant `Inv`.
  - An independent reference for nextChoice: the odometer step `Odometer`.
- `Choice` (choice.dfy): the class itself.
  - The two records keyed by stage become two arrays.
  - Every method is proved to change the fields exactly as the matching
    `TreeModel` function says.
  - `explore` and `nextChoice` keep `Inv`. The private `stepBack` and
    `stepForward` run in the middle of those operations, so they keep only
    the shape of the state.
  - `exhaustionCheck` is a loop proved equal to `AllStagesAtLast`.
  - `nextChoice` recurses through `stepBack`, as the source does.
- `TreeProperties` (tree_properties.dfy): what each transition changes and
  keeps, that exhaustion is final, and that nextChoice is an odometer step in
  stage-major order.
- `TreeFindings` (findings.dfy): when the exhausted flag is raised, and a
  corrected explore (see Findings).
- `TreeWalk` (walk.dfy): the whole enumeration as a driver runs it.
  - An oracle supplies each stage's listing, given the choices before it.
  - The driver discovers every stage after the cursor, then calls nextChoice,
    and repeats.
  - With fixed listing sizes, the k-th combination visited is the k-th in
    stage-major order, so no combination repeats and every combination is
    visited.
  - With the corrected explore, the walk ends after exactly the product of
    the sizes.
  - As written, it ends there only when the last stage offers at least two
    options.

A fail-fast reading of the class would expect the following cases to be refused or to behave otherwise. The model follows the code:

- `explore` accepts an empty listing. It stores it and leaves the stage's
  choice undefined, modelled as `None`.
- After exhaustion, `explore` and `nextChoice` return silently rather than
  fail.
- The exhausted flag is not always raised after the product of the sizes
  (see Findings).
- A single stage with the one option `["x"]` is never flagged exhausted.

## Model

| member | source | states |
|---|---|---|
| TreeModel.IndexOf | src/components/choice.ts:85 | the result is -1 exactly when the label is absent; otherwise it is the first position holding it |
| TreeModel.Init | src/components/choice.ts:17-28 | the constructed state has one null listing and choice per stage, the cursor before the first stage, and the flag down |
| TreeModel.Explore | src/components/choice.ts:30-49 | explore keeps the number of stages and the shape of the state, and never changes the exhausted flag |
| TreeModel.StepBack | src/components/choice.ts:52-68 | the cursor moves one stage left, the stage it left has a null listing and choice, and the flag is unchanged |
| TreeModel.StepForward | src/components/choice.ts:70-77 | listings, choices and the flag are unchanged; the cursor stays or moves one stage right, never past the last stage |
| TreeModel.NextChoice | src/components/choice.ts:80-100 | nextChoice keeps the number of stages; what it computes is stated against the odometer by TreeProperties.NextChoiceIsOdometer |
| TreeModel.Checked | src/components/choice.ts:99 | after `isExhausted = exhaustionCheck()` the flag says exactly whether every stage is on its last entry, and nothing else changes |
| TreeModel.RightmostMovable | src/components/choice.ts:92-97 | the carry stops at the right-most stage, at or before the cursor, whose choice is not yet on the last entry; every stage after it is on its last entry |
| Choice.DynamicTreeExplorer.constructor | src/components/choice.ts:17-28 | every stage's listing and choice is null, the cursor is before the first stage, exploring is true, exhausted is false, and the invariant holds |
| Choice.DynamicTreeExplorer.Explore | src/components/choice.ts:30-49 | the fields change exactly as the explore transition says, and the invariant is kept |
| Choice.DynamicTreeExplorer.StepBack | src/components/choice.ts:52-68 | the cursor stage's listing and choice become null, the cursor moves one stage left (to null from the first stage), and exploring becomes true |
| Choice.DynamicTreeExplorer.StepForward | src/components/choice.ts:70-77 | the cursor moves one stage right; on the last stage, exploring becomes false instead |
| Choice.DynamicTreeExplorer.NextChoice | src/components/choice.ts:80-100 | the fields change exactly as the nextChoice transition says, including the recursive carry, and the invariant is kept |
| Choice.DynamicTreeExplorer.ExhaustionCheck | src/components/choice.ts:102-112 | true exactly when every stage has a truthy choice, a listing, and the choice's first index is the listing's last index |
| TreeProperties.InitEstablishesInv | src/components/choice.ts:17-28 | the constructed state satisfies the invariant and is not on a last combination |
| TreeProperties.AllAtLastMeansFullyDiscovered | src/components/choice.ts:102-112 | exhaustionCheck passes only once every stage is discovered: the cursor is on the last stage and exploring is false |
| TreeProperties.ExplorePreservesInv | src/components/choice.ts:30-49 | explore keeps the invariant: stages after the cursor are null, stages up to it hold a listing containing their choice, and exploring is false exactly on the last stage |
| TreeProperties.StepBackPreservesInv | src/components/choice.ts:52-68 | stepBack keeps the invariant |
| TreeProperties.NextChoicePreservesInv | src/components/choice.ts:80-100 | nextChoice keeps the invariant on every path, the carry included |
| TreeProperties.ExploreDiscoversNextStage | src/components/choice.ts:37-48 | with a next stage, explore stores the listing and its first entry there and nowhere else, advances the cursor by one, and clears exploring exactly when the cursor reaches the last stage |
| TreeProperties.ExploreAtLastStageIsNoop | src/components/choice.ts:37-48 | with the cursor on the last stage, explore changes nothing |
| TreeProperties.ExhaustedIsFinal | src/components/choice.ts:30-100 | once exhausted, the cursor is on the last stage, and explore and nextChoice leave the whole state unchanged, so the flag never drops |
| TreeProperties.NextChoiceAdvancesCursorStage | src/components/choice.ts:83-90 | when the cursor stage can still grow, its choice becomes the next entry; listings, cursor and exploring stay; the flag is what exhaustionCheck says of the result |
| TreeProperties.NextChoiceCarries | src/components/choice.ts:92-97 | at the last entry of a stage other than the first, that stage is cleared, the cursor moves one left, exploring is set, and the result is the recursive nextChoice with the flag recomputed |
| TreeProperties.NextChoiceStopsAtFirstStage | src/components/choice.ts:92-93 | on the first stage holding its last entry, nextChoice changes nothing and skips exhaustionCheck |
| TreeProperties.OdometerCarries | src/components/choice.ts:92-97 | one carry step reduces the odometer step of a state to the odometer step of the state with the cursor stage forgotten |
| TreeProperties.NextChoiceIsOdometer | src/components/choice.ts:80-100 | nextChoice equals the odometer step: the right-most stage that can grow takes its next entry and later stages are forgotten; if none can grow, every stage after the first is forgotten |
| TreeProperties.IndexOfDistinct | src/components/choice.ts:85 | in a listing without repeated labels, indexOf of the entry at k is k |
| TreeProperties.NextChoiceIsLexicographicStep | src/components/choice.ts:80-100 | with distinct labels, nextChoice keeps every stage before the growing one, moves the growing stage up exactly one position, and forgets every later stage |
| TreeFindings.ExploreNeverRaisesFlag | src/components/choice.ts:30-49 | explore never sets the exhausted flag |
| TreeFindings.NextChoiceRaisesFlagOnlyOnLastStage | src/components/choice.ts:80-100 | nextChoice raises the flag only from the last stage, when that stage can still grow, which needs at least two options there |
| TreeFindings.OneOptionLastStageNeverExhausted | src/components/choice.ts:30-100 | when the last stage offers one option, neither explore nor nextChoice ever raises the flag |
| TreeFindings.SingleOptionStageNeverExhausted | src/components/choice.ts:92-93 | one stage with the single option "x": every stage is on its last entry, yet the flag is down and nextChoice changes nothing |
| TreeFindings.OneOptionLastStageCycles | src/components/choice.ts:30-100 | stages ["a1","a2"] and ["b1"]: the state on (a2, b1) is at its last combination but unflagged, and nextChoice followed by explore returns to it |
| TreeFindings.RepeatedLabelStalls | src/components/choice.ts:85-89 | for the listing ["a","a"], indexOf never reaches the last entry: nextChoice re-selects "a" and leaves the state unchanged |
| TreeFindings.ExploreChecked | src/components/choice.ts:30-49 | the corrected explore keeps the invariant and leaves the flag equal to exhaustionCheck of the result |
| TreeFindings.InitFlagExact | src/components/choice.ts:17-28 | the constructed state's flag agrees with exhaustionCheck |
| TreeFindings.NextChoiceKeepsFlagExact | src/components/choice.ts:80-100 | nextChoice keeps the flag equal to exhaustionCheck |
| TreeFindings.SingleOptionStageExhaustedWhenChecked | src/components/choice.ts:30-49 | with the corrected explore, one stage with the single option "x" is exhausted once discovered |
| TreeFindings.OneOptionLastStageExhaustedWhenChecked | src/components/choice.ts:30-49 | with the corrected explore, rediscovering ["b1"] after the carry to a2 gives (a2, b1) flagged exhausted |
| TreeWalk.AdvanceAddsOne | src/components/choice.ts:80-100 | one nextChoice plus rediscovery adds one to the positions read as a mixed-radix number, below the last combination |
| TreeWalk.WalkVisitsInOrder | src/components/choice.ts:30-100 | the k-th combination of the walk has positions whose mixed-radix value is k, and the flag is down before the last one |
| TreeWalk.WalkNeverRepeats | src/components/choice.ts:30-100 | no two of the first product-of-sizes combinations are equal |
| TreeWalk.ValueInjective | src/components/choice.ts:80-100 | helper for WalkCoversAll: two in-range position sequences with the same mixed-radix value are equal; it is arithmetic about the numbering and models no line of the source by itself |
| TreeWalk.WalkCoversAll | src/components/choice.ts:30-100 | every in-range position sequence is the combination the walk reaches at the step numbered by its mixed-radix value |
| TreeWalk.CheckedWalkEndsAfterProduct | src/components/choice.ts:30-100 | with the corrected explore, the flag is down on every combination before the last, up on the last, and a further advance changes nothing |
| TreeWalk.WalkEndsWhenLastStageHasTwoOptions | src/components/choice.ts:80-100 | as written, the walk is flagged on its last combination when the last stage offers at least two options |
| TreeWalk.WalkNeverEndsWhenLastStageHasOneOption | src/components/choice.ts:30-49 | as written, the walk is never flagged when the last stage offers one option |
| TreeWalk.TwoByThreeEndsOnSixth | src/components/choice.ts:30-100 | stages of two and three options: the flag is raised on the sixth combination and on no earlier one |

## Left out

- src/components/scraper.ts, src/index.ts, src/routes.ts and src/types/ are not part of this model. They are browser automation, crawler bootstrap, router wiring and type declarations: I/O with no state to prove about.
- The direct writes into `current_choices` at src/components/scraper.ts:187-188 bypass `explore` and break the invariant. They are not modelled.
- Choice.DynamicTreeExplorer.constructor: only a record whose every value is null is modelled, as at its one call (src/components/scraper.ts:182-185). A record with non-null values would start with listings and choices the model does not allow.
- Choice.DynamicTreeExplorer.NextChoice: requires a non-null cursor. With a null cursor the source reads `option_listings[null]` and throws at the `indexOf` call.
- `explore` stores the caller's `listing` array by reference (src/components/choice.ts:42); the model stores a copy as a sequence, so a later change the caller makes to that array is not seen by the model, and aliasing between the caller and the explorer is not captured.
- TypeScript generics, `@ts-ignore` casts and the order of `Object.keys` are not modelled. Stages are the indices of a fixed sequence of distinct, non-empty names. Because the direct writes above are left out, `exhaustionCheck` iterates exactly over these stages.
- The walk theorems in `TreeWalk` (WalkVisitsInOrder, WalkNeverRepeats, CheckedWalkEndsAfterProduct) assume every stage's listings have a fixed size and distinct, non-empty labels. With a repeated label the walk stalls or cycles without reaching its last entry (TreeFindings.RepeatedLabelStalls shows the stall for ["a","a"]).
- The driver loop that calls `explore` and `nextChoice` is modelled only as the oracle-driven `Walk`. No such loop exists in the repository's code.
- No error conditions are modelled, because the code raises none on the inputs modelled: an empty listing, exploring past the last stage, advancing while still exploring, and calling after exhaustion all return normally, as modelled.
- No accessor for the current combination or the exploring state is modelled: the class has none, only the public fields.

## Findings

| source | as written | input that shows it | evidently intended | confidence | as-written member | corrected member |
|---|---|---|---|---|---|---|
| src/components/choice.ts:30-49 | `explore` never recomputes `isExhausted`. Only `nextChoice` does (line 99), and not on its first-stage return (line 93). | Stages ["a1","a2"] and ["b1"]: once (a2, b1) is discovered every stage is on its last entry, yet the flag stays down, and nextChoice then explore returns to (a2, b1) forever. One stage ["x"] is never flagged either. | `explore` ends with `isExhausted = exhaustionCheck()`, so the walk stops after the product of the listing sizes. | high; not executed | TreeFindings.OneOptionLastStageCycles | TreeFindings.ExploreChecked |

The corrected explore is `ExploreChecked`. `TreeWalk.CheckedWalkEndsAfterProduct` proves, for any number of stages and any fixed listing sizes, that a walk using `ExploreChecked` ends after exactly the product of the sizes. `TreeWalk.WalkNeverEndsWhenLastStageHasOneOption` proves that the as-written walk never ends when the last stage offers a single option.
