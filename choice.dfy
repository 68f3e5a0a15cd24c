/** The class DynamicTreeExplorer of src/components/choice.ts, which walks every
    combination of choices across an ordered list of stages. Its two records
    keyed by stage become two arrays indexed by stage; the cursor
    `optionStage` is a stage index, -1 standing for null. Each method is
    proved to change the fields exactly as the matching function of module
    TreeModel says. Explore and NextChoice keep the invariant TreeModel.Inv;
    the private StepBack and StepForward, which run mid-operation, keep only
    the shape, and ExhaustionCheck changes nothing. */
module Choice {
  import opened TreeModel
  import TreeProperties

  /** Object.keys of the constructor's record: non-empty (stages[0] is the
      first stage) and without repeats; each name is truthy, which the
      `optionStage ?` and `if(next_stage)` tests rely on. */
  predicate StageNames(stages: seq<string>)
  {
    |stages| >= 1
    && (forall i :: 0 <= i < |stages| ==> stages[i] != "")
    && (forall i, j :: 0 <= i < j < |stages| ==> stages[i] != stages[j])
  }

  class DynamicTreeExplorer {
    const stages: seq<string>
    const optionListings: array<Option<seq<string>>>
    const currentChoices: array<Option<string>>
    var optionStage: int
    var shouldBeExploring: bool
    var isExhausted: bool

    /** The fields as a value of the model. */
    ghost function State(): Explorer
      reads this, optionListings, currentChoices
    {
      Explorer(optionListings[..], currentChoices[..], optionStage, shouldBeExploring, isExhausted)
    }

    /** One listing and one choice per stage, and a cursor within range. */
    ghost predicate Shaped()
      reads this, optionListings, currentChoices
    {
      optionListings.Length == currentChoices.Length == |stages| && WellFormed(State())
    }

    ghost predicate Valid()
      reads this, optionListings, currentChoices
    {
      Shaped() && Inv(State())
    }

    /** Built from a record whose every stage maps to null: nothing is
        discovered, the cursor stands before the first stage, the explorer is
        exploring and not exhausted. */
    constructor (stages: seq<string>)
      requires StageNames(stages)
      ensures Valid()
      ensures this.stages == stages
      ensures optionListings[..] == seq(|stages|, _ => None)
      ensures currentChoices[..] == seq(|stages|, _ => None)
      ensures optionStage == -1 && shouldBeExploring && !isExhausted
      ensures !AllStagesAtLast(State())
    {
      this.stages := stages;
      optionListings := new Option<seq<string>>[|stages|](_ => None);
      currentChoices := new Option<string>[|stages|](_ => None);
      shouldBeExploring := true;
      isExhausted := false;
      optionStage := -1;
      new;
      TreeProperties.InitEstablishesInv(|stages|);
      assert State() == Init(|stages|);
    }

    /** explore(listing): discover the stage after the cursor. */
    method Explore(listing: seq<string>)
      requires Valid()
      modifies this, optionListings, currentChoices
      ensures Valid()
      ensures State() == TreeModel.Explore(old(State()), listing)
    {
      ghost var s := State();
      if isExhausted {
        TreeProperties.ExplorePreservesInv(s, listing);
        return;
      }
      var currentStageIndex := optionStage;
      var nextStage := if currentStageIndex != optionListings.Length - 1 then currentStageIndex + 1 else -1;
      if nextStage != -1 {
        optionListings[nextStage] := Some(listing);
        currentChoices[nextStage] := if |listing| > 0 then Some(listing[0]) else None;
        StepForward();
      }
      if optionStage == optionListings.Length - 1 {
        shouldBeExploring := false;
      }
      assert State() == TreeModel.Explore(s, listing);
      TreeProperties.ExplorePreservesInv(s, listing);
    }

    /** stepBack: forget the cursor stage and move the cursor one stage left. */
    method StepBack()
      requires Shaped() && 0 <= optionStage
      modifies this, optionListings, currentChoices
      ensures Shaped()
      ensures State() == TreeModel.StepBack(old(State()))
    {
      var currentStageIndex := optionStage;
      optionListings[currentStageIndex] := None;
      currentChoices[currentStageIndex] := None;
      if currentStageIndex > 0 {
        optionStage := currentStageIndex - 1;
      }
      if currentStageIndex == 0 {
        optionStage := -1;
      }
      shouldBeExploring := true;
    }

    /** stepForward: move the cursor one stage right, or stop exploring at
        the last stage. */
    method StepForward()
      requires Shaped()
      modifies this
      ensures Shaped()
      ensures State() == TreeModel.StepForward(old(State()))
    {
      var currentStageIndex := optionStage;
      if currentStageIndex < optionListings.Length - 1 {
        optionStage := currentStageIndex + 1;
      } else {
        shouldBeExploring := false;
      }
    }

    /** nextChoice: advance the cursor stage's choice, carrying leftwards when
        it already holds the last entry of its listing. The source reads the
        cursor stage with non-null assertions, so the cursor must not be null. */
    method NextChoice()
      requires Valid() && 0 <= optionStage
      modifies this, optionListings, currentChoices
      ensures Valid()
      ensures State() == TreeModel.NextChoice(old(State()))
      decreases optionStage
    {
      ghost var s := State();
      TreeProperties.NextChoicePreservesInv(s);
      if isExhausted {
        return;
      }
      var currentChoice := currentChoices[optionStage];
      var choiceList := optionListings[optionStage].value;
      var index := IndexOfChoice(choiceList, currentChoice);
      if optionStage == optionListings.Length - 1 {
        shouldBeExploring := false;
      }
      if index < |choiceList| - 1 {
        currentChoices[optionStage] := Some(choiceList[index + 1]);
      }
      if index == |choiceList| - 1 {
        if optionStage == 0 {
          return;
        }
        TreeProperties.StepBackPreservesInv(State());
        StepBack();
        NextChoice();
      }
      isExhausted := ExhaustionCheck();
    }

    /** exhaustionCheck: whether every stage holds a truthy choice whose
        position in the stage's listing is the last one. */
    method ExhaustionCheck() returns (exhausted: bool)
      requires Shaped()
      ensures exhausted == AllStagesAtLast(State())
    {
      for i := 0 to currentChoices.Length
        invariant forall k :: 0 <= k < i ==> StageAtLast(optionListings[k], currentChoices[k])
      {
        var choice := currentChoices[i];
        if choice.None? || choice.value == "" {
          return false;
        }
        var listing := optionListings[i];
        if listing.None? {
          return false;
        }
        if IndexOf(listing.value, choice.value) != |listing.value| - 1 {
          return false;
        }
      }
      return true;
    }
  }
}
