/** When the exhausted flag is raised, and the corrected explore that makes
    the flag say exactly "every stage holds its last entry". */
module TreeFindings {
  import opened TreeModel
  import opened TreeProperties

  // ---------------------------------------------------------------------
  // As written: only a nextChoice that lands on the last entry of the last
  // stage ever raises the flag.

  /** explore never raises the exhausted flag. */
  lemma ExploreNeverRaisesFlag(s: Explorer, listing: seq<string>)
    requires Inv(s) && !s.isExhausted
    ensures !Explore(s, listing).isExhausted
  {
  }

  /** nextChoice raises the exhausted flag only when the cursor is on the
      last stage and that stage's choice can still grow, which needs a
      listing of at least two entries there. */
  lemma NextChoiceRaisesFlagOnlyOnLastStage(s: Explorer)
    requires Inv(s) && 0 <= s.optionStage && !s.isExhausted
    requires NextChoice(s).isExhausted
    ensures s.optionStage == LastStage(s)
    ensures !AtMax(s, LastStage(s))
    ensures |s.listings[LastStage(s)].value| >= 2
  {
    NextChoiceIsOdometer(s);
    var t := NextChoice(s);
    var c := s.optionStage;
    assert AllStagesAtLast(t);
    assert StageAtLast(t.listings[LastStage(s)], t.choices[LastStage(s)]);
  }

  /** Hence, when the last stage offers a single option, neither operation
      ever raises the flag: the walk never ends. */
  lemma OneOptionLastStageNeverExhausted(s: Explorer, listing: seq<string>)
    requires Inv(s) && !s.isExhausted
    requires s.listings[LastStage(s)].Some? ==> |s.listings[LastStage(s)].value| == 1
    ensures !Explore(s, listing).isExhausted
    ensures 0 <= s.optionStage ==> !NextChoice(s).isExhausted
  {
    if 0 <= s.optionStage && NextChoice(s).isExhausted {
      NextChoiceRaisesFlagOnlyOnLastStage(s);
    }
  }

  /** One stage with the single option "x": after discovery every stage holds
      its last entry, yet the flag is down and nextChoice changes nothing. */
  lemma SingleOptionStageNeverExhausted()
    ensures var s := Explore(Init(1), ["x"]);
      && Inv(s)
      && AllStagesAtLast(s)
      && !s.isExhausted
      && NextChoice(s) == s
  {
    var s := Explore(Init(1), ["x"]);
    assert StageAtLast(s.listings[0], s.choices[0]);
  }

  /** The two-stage example below: stages offering ["a1", "a2"] and ["b1"]. */
  const FirstListing: seq<string> := ["a1", "a2"]
  const SecondListing: seq<string> := ["b1"]

  /** Both stages discovered on (a1, b1). */
  const OnFirst := Explorer([Some(FirstListing), Some(SecondListing)], [Some("a1"), Some("b1")], 1, false, false)

  /** The second stage forgotten, the first moved on to a2. */
  const Carried := Explorer([Some(FirstListing), None], [Some("a2"), None], 0, true, false)

  /** Both stages discovered on the last combination (a2, b1). */
  const OnLast := Explorer([Some(FirstListing), Some(SecondListing)], [Some("a2"), Some("b1")], 1, false, false)

  /** Stages ["a1", "a2"] and ["b1"]: from the last combination (a2, b1),
      nextChoice forgets the second stage and rediscovering it returns to
      (a2, b1) with the flag still down, round after round. */
  lemma OneOptionLastStageCycles()
    ensures Explore(Explore(Init(2), FirstListing), SecondListing) == OnFirst
    ensures NextChoice(OnFirst) == Carried
    ensures Explore(Carried, SecondListing) == OnLast
    ensures AllStagesAtLast(OnLast) && !OnLast.isExhausted
    ensures NextChoice(OnLast) == Carried
  {
    assert IndexOf(FirstListing, "a1") == 0 && IndexOf(FirstListing, "a2") == 1;
    assert IndexOf(SecondListing, "b1") == 0;
    assert Explore(Init(2), FirstListing) == OnFirst.(listings := [Some(FirstListing), None],
      choices := [Some("a1"), None], optionStage := 0, shouldBeExploring := true);
    var back := Explorer([Some(FirstListing), None], [Some("a1"), None], 0, true, false);
    assert StepBack(OnFirst) == back;
    assert NextChoice(back) == Checked(back.(choices := [Some("a2"), None]));
    assert !StageAtLast(None, None);
    assert NextChoice(back) == Carried;
    assert OnLast.listings[1] == Some(SecondListing) && OnLast.choices[1] == Some("b1");
    assert StageAtLast(OnLast.listings[0], OnLast.choices[0]);
    assert StageAtLast(OnLast.listings[1], OnLast.choices[1]);
    assert StepBack(OnLast) == Carried;
    assert NextChoice(Carried) == Carried;
  }

  /** A listing that repeats a label: nextChoice moves the choice to the
      next entry, which is the same label, so its position never grows, the
      last entry is never reached and the state never changes. */
  lemma RepeatedLabelStalls()
    ensures var s := Explore(Init(1), ["a", "a"]);
      && Inv(s)
      && !AllStagesAtLast(s)
      && NextChoice(s) == s
  {
    var s := Explore(Init(1), ["a", "a"]);
    assert IndexOf(["a", "a"], "a") == 0;
    assert s == Explorer([Some(["a", "a"])], [Some("a")], 0, false, false);
    assert !StageAtLast(s.listings[0], s.choices[0]);
  }

  // ---------------------------------------------------------------------
  // Corrected: explore recomputes the flag, as nextChoice does.

  /** The exhausted flag says exactly whether every stage holds its last entry. */
  predicate FlagExact(s: Explorer)
  {
    Inv(s) && (s.isExhausted <==> AllStagesAtLast(s))
  }

  /** explore followed by `isExhausted = exhaustionCheck()`. */
  function ExploreChecked(s: Explorer, listing: seq<string>): (r: Explorer)
    requires Inv(s)
    ensures FlagExact(r)
  {
    ExplorePreservesInv(s, listing);
    Checked(Explore(s, listing))
  }

  lemma InitFlagExact(n: nat)
    requires n >= 1
    ensures FlagExact(Init(n))
  {
    InitEstablishesInv(n);
  }

  /** nextChoice as written keeps the flag exact: it recomputes the flag on
      every path but the first-stage stop, which changes nothing. */
  lemma NextChoiceKeepsFlagExact(s: Explorer)
    requires FlagExact(s) && 0 <= s.optionStage
    ensures FlagExact(NextChoice(s))
  {
    NextChoicePreservesInv(s);
    if !s.isExhausted {
      NextChoiceIsOdometer(s);
    }
  }

  /** With the corrected explore, one stage with the single option "x" is
      exhausted as soon as it is discovered. */
  lemma SingleOptionStageExhaustedWhenChecked()
    ensures ExploreChecked(Init(1), ["x"]).isExhausted
  {
    InitEstablishesInv(1);
    var s := Explore(Init(1), ["x"]);
    assert StageAtLast(s.listings[0], s.choices[0]);
  }

  /** With the corrected explore, the two-stage walk above stops at (a2, b1):
      rediscovering the second stage raises the flag. (The two discoveries
      before the carry leave the flag down either way.) */
  lemma OneOptionLastStageExhaustedWhenChecked()
    ensures Inv(Carried)
    ensures ExploreChecked(Carried, SecondListing) == OnLast.(isExhausted := true)
  {
    OneOptionLastStageCycles();
  }
}
