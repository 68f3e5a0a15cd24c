/** Properties of the explorer's transitions (module TreeModel): the invariant
    they keep, what each changes and what it leaves alone, that exhaustion is
    final, and that nextChoice is the carry of a mixed-radix counter. */
module TreeProperties {
  import opened TreeModel

  // ---------------------------------------------------------------------
  // The invariant

  lemma InitEstablishesInv(n: nat)
    requires n >= 1
    ensures Inv(Init(n))
    ensures !AllStagesAtLast(Init(n))
  {
    assert !StageAtLast(Init(n).listings[0], Init(n).choices[0]);
  }

  /** A consistent state passes exhaustionCheck only once every stage is
      discovered, that is with the cursor on the last stage. */
  lemma AllAtLastMeansFullyDiscovered(s: Explorer)
    requires Consistent(s) && AllStagesAtLast(s)
    ensures s.optionStage == LastStage(s) && !s.shouldBeExploring
  {
    assert StageAtLast(s.listings[LastStage(s)], s.choices[LastStage(s)]);
  }

  lemma ExplorePreservesInv(s: Explorer, listing: seq<string>)
    requires Inv(s)
    ensures Inv(Explore(s, listing))
  {
    var t := Explore(s, listing);
    if !s.isExhausted && s.optionStage != LastStage(s) {
      var c := s.optionStage + 1;
      assert t.listings == s.listings[c := Some(listing)];
      assert t.choices == s.choices[c := FirstOf(listing)];
      assert Fits(listing, FirstOf(listing));
    }
  }

  lemma StepBackPreservesInv(s: Explorer)
    requires Inv(s) && 0 <= s.optionStage && !s.isExhausted
    ensures Inv(StepBack(s))
  {
  }

  /** Recomputing the flag of a consistent state gives a state that keeps the invariant. */
  lemma CheckedKeepsInv(t: Explorer)
    requires Consistent(t)
    ensures Inv(Checked(t))
  {
  }

  /** Moving the cursor stage's choice to another entry of its listing keeps
      the state consistent. */
  lemma MoveOnKeepsConsistent(s: Explorer, x: string)
    requires Consistent(s) && 0 <= s.optionStage && x in s.listings[s.optionStage].value
    ensures Consistent(s.(choices := s.choices[s.optionStage := Some(x)]))
  {
  }

  lemma {:induction false} NextChoicePreservesInv(s: Explorer)
    requires Inv(s) && 0 <= s.optionStage
    ensures Inv(NextChoice(s))
    decreases s.optionStage
  {
    if !s.isExhausted {
      var c := s.optionStage;
      var list := s.listings[c].value;
      var index := IndexOfChoice(list, s.choices[c]);
      var s1 := if c == LastStage(s) then s.(shouldBeExploring := false) else s;
      assert Inv(s1);
      if index < |list| - 1 {
        var t := s1.(choices := s1.choices[c := Some(list[index + 1])]);
        MoveOnKeepsConsistent(s1, list[index + 1]);
        CheckedKeepsInv(t);
        assert NextChoice(s) == Checked(t);
      } else if c > 0 {
        StepBackPreservesInv(s1);
        NextChoicePreservesInv(StepBack(s1));
        CheckedKeepsInv(NextChoice(StepBack(s1)));
        assert NextChoice(s) == Checked(NextChoice(StepBack(s1)));
      } else {
        assert NextChoice(s) == s1;
      }
    }
  }

  // ---------------------------------------------------------------------
  // explore

  /** With a next stage to discover, explore stores the listing and its first
      entry there, advances the cursor by one, and changes no other stage. */
  lemma ExploreDiscoversNextStage(s: Explorer, listing: seq<string>)
    requires Inv(s) && !s.isExhausted && s.optionStage < LastStage(s)
    ensures var t := Explore(s, listing);
      && t.listings == s.listings[s.optionStage + 1 := Some(listing)]
      && t.choices == s.choices[s.optionStage + 1 := FirstOf(listing)]
      && t.optionStage == s.optionStage + 1
      && (t.shouldBeExploring <==> t.optionStage != LastStage(s))
      && !t.isExhausted
  {
  }

  /** With the cursor already on the last stage, explore changes nothing. */
  lemma ExploreAtLastStageIsNoop(s: Explorer, listing: seq<string>)
    requires Inv(s) && s.optionStage == LastStage(s)
    ensures Explore(s, listing) == s
  {
  }

  // ---------------------------------------------------------------------
  // Exhaustion is final

  /** Once exhausted, explore and nextChoice leave the whole state as it is,
      so the flag never drops back to false. */
  lemma ExhaustedIsFinal(s: Explorer, listing: seq<string>)
    requires Inv(s) && s.isExhausted
    ensures s.optionStage == LastStage(s) >= 0
    ensures Explore(s, listing) == s
    ensures NextChoice(s) == s
  {
    AllAtLastMeansFullyDiscovered(s);
  }

  // ---------------------------------------------------------------------
  // nextChoice, case by case

  /** When the cursor stage's choice is not at the end of its listing,
      nextChoice moves it to the next entry; every other stage and the cursor
      stay, and the exhausted flag is what exhaustionCheck says of the result. */
  lemma NextChoiceAdvancesCursorStage(s: Explorer)
    requires Inv(s) && 0 <= s.optionStage && !s.isExhausted
    requires !AtMax(s, s.optionStage)
    ensures var c := s.optionStage;
      var list := s.listings[c].value;
      var t := NextChoice(s);
      && 0 <= Digit(s, c) + 1 < |list|
      && t.choices == s.choices[c := Some(list[Digit(s, c) + 1])]
      && t.listings == s.listings
      && t.optionStage == c
      && t.shouldBeExploring == s.shouldBeExploring
      && t.isExhausted == AllStagesAtLast(t)
  {
  }

  /** When the cursor stage holds its last entry and is not the first stage,
      nextChoice forgets that stage, moves the cursor one stage left, sets
      the exploring flag and advances the stage before; the recursion ends
      because the cursor strictly decreases. */
  lemma NextChoiceCarries(s: Explorer)
    requires Inv(s) && 0 < s.optionStage && !s.isExhausted
    requires AtMax(s, s.optionStage)
    ensures var c := s.optionStage;
      var b := StepBack(s);
      && b.listings == s.listings[c := None]
      && b.choices == s.choices[c := None]
      && b.optionStage == c - 1
      && b.shouldBeExploring
      && Inv(b)
      && NextChoice(s) == Checked(NextChoice(b))
  {
    StepBackPreservesInv(s);
  }

  /** On the first stage holding its last entry, nextChoice changes nothing;
      in particular it does not run exhaustionCheck. */
  lemma NextChoiceStopsAtFirstStage(s: Explorer)
    requires Inv(s) && s.optionStage == 0 && !s.isExhausted
    requires AtMax(s, 0)
    ensures NextChoice(s) == s
  {
  }

  // ---------------------------------------------------------------------
  // nextChoice is an odometer step

  /** RightmostMovable looks only at the stages up to `k`. */
  lemma {:induction false} RightmostMovableFrame(s: Explorer, t: Explorer, k: int)
    requires WellFormed(s) && Discovered(s) && WellFormed(t) && Discovered(t)
    requires -1 <= k <= s.optionStage && k <= t.optionStage
    requires forall i :: 0 <= i <= k ==> s.listings[i] == t.listings[i] && s.choices[i] == t.choices[i]
    ensures RightmostMovable(s, k) == RightmostMovable(t, k)
    decreases k + 1
  {
    if k >= 0 && AtMax(s, k) {
      RightmostMovableFrame(s, t, k - 1);
    }
  }

  /** Forgetting stage `c` and then stages lo .. c-1 forgets lo .. c. */
  lemma ClearedStep<T>(xs: seq<Option<T>>, lo: int, c: int)
    requires 0 <= lo <= c < |xs|
    ensures Cleared(xs[c := None], lo, c - 1) == Cleared(xs, lo, c)
  {
    assert forall i :: 0 <= i < |xs| ==> Cleared(xs[c := None], lo, c - 1)[i] == Cleared(xs, lo, c)[i];
  }

  /** Forgetting an empty range of stages changes nothing. */
  lemma ClearedNothing<T>(xs: seq<Option<T>>, lo: int, hi: int)
    requires hi < lo
    ensures Cleared(xs, lo, hi) == xs
  {
    assert forall i :: 0 <= i < |xs| ==> Cleared(xs, lo, hi)[i] == xs[i];
  }

  /** Recomputing the flag twice is recomputing it once. */
  lemma CheckedTwice(s: Explorer)
    requires |s.listings| == |s.choices|
    ensures Checked(Checked(s)) == Checked(s)
  {
    assert AllStagesAtLast(Checked(s)) == AllStagesAtLast(s);
  }

  /** The carry when some stage before the cursor can still grow. */
  lemma CarryToMovable(s: Explorer, b: Explorer, j: int)
    requires Inv(s) && 0 < s.optionStage && !s.isExhausted
    requires b == StepBack(s) && Inv(b)
    requires 0 <= j == RightmostMovable(s, s.optionStage) == RightmostMovable(b, s.optionStage - 1)
    ensures Odometer(s) == Checked(Odometer(b))
  {
    IncrementAfterStepBack(s, j);
    CheckedTwice(Increment(s, j));
  }

  /** Incrementing a stage before the cursor gives the same state whether
      or not the cursor stage was forgotten first. */
  lemma IncrementAfterStepBack(s: Explorer, j: int)
    requires WellFormed(s) && 0 <= j < s.optionStage && s.listings[j].Some?
    requires 0 <= Digit(s, j) + 1 < |s.listings[j].value|
    ensures Increment(StepBack(s), j) == Increment(s, j)
  {
    var c := s.optionStage;
    var b := StepBack(s);
    ClearedStep(s.listings, j + 1, c);
    ClearedStep(s.choices, j + 1, c);
    assert b.listings[j] == s.listings[j] && b.choices[j] == s.choices[j];
    assert Digit(b, j) == Digit(s, j);
  }

  /** The carry when no stage up to the cursor can grow. */
  lemma CarryToFirst(s: Explorer, b: Explorer)
    requires Inv(s) && 0 < s.optionStage && !s.isExhausted
    requires b == StepBack(s) && Inv(b)
    requires RightmostMovable(s, s.optionStage) == RightmostMovable(b, s.optionStage - 1) == -1
    ensures Odometer(s) == Checked(Odometer(b))
  {
    var c := s.optionStage;
    var x := Explorer(Cleared(s.listings, 1, c), Cleared(s.choices, 1, c), 0, true, false);
    assert Odometer(s) == Checked(x);
    if c == 1 {
      assert Cleared(s.listings, 1, 1) == s.listings[1 := None];
      assert Cleared(s.choices, 1, 1) == s.choices[1 := None];
      assert Odometer(b) == b;
      assert b == x;
    } else {
      ClearedStep(s.listings, 1, c);
      ClearedStep(s.choices, 1, c);
      assert Odometer(b) == Checked(x);
      CheckedTwice(x);
    }
  }

  /** The odometer's own carry: when the cursor stage cannot grow, the step
      from `s` is the step from the state with that stage forgotten. */
  lemma OdometerCarries(s: Explorer)
    requires Inv(s) && 0 < s.optionStage && !s.isExhausted
    requires AtMax(s, s.optionStage)
    ensures Inv(StepBack(s))
    ensures Odometer(s) == Checked(Odometer(StepBack(s)))
  {
    var c := s.optionStage;
    var b := StepBack(s);
    StepBackPreservesInv(s);
    RightmostMovableFrame(s, b, c - 1);
    var j := RightmostMovable(s, c);
    assert j == RightmostMovable(b, c - 1);
    if j >= 0 {
      CarryToMovable(s, b, j);
    } else {
      CarryToFirst(s, b);
    }
  }

  /** nextChoice agrees with the odometer on every consistent state: the
      right-most stage that can still grow takes its next entry and every
      discovered stage after it is forgotten, or, if none can grow, all
      discovered stages after the first are forgotten. */
  lemma {:induction false} NextChoiceIsOdometer(s: Explorer)
    requires Inv(s) && 0 <= s.optionStage && !s.isExhausted
    ensures NextChoice(s) == Odometer(s)
    decreases s.optionStage
  {
    var c := s.optionStage;
    if !AtMax(s, c) {
      ClearedNothing(s.listings, c + 1, c);
      ClearedNothing(s.choices, c + 1, c);
    } else if c > 0 {
      OdometerCarries(s);
      NextChoiceIsOdometer(StepBack(s));
    }
  }

  // ---------------------------------------------------------------------
  // Labels within a listing

  /** No label occurs twice in a listing, which indexOf-based navigation assumes. */
  predicate Distinct(list: seq<string>)
  {
    forall i, j :: 0 <= i < j < |list| ==> list[i] != list[j]
  }

  lemma IndexOfDistinct(list: seq<string>, k: int)
    requires Distinct(list) && 0 <= k < |list|
    ensures IndexOf(list, list[k]) == k
  {
    assert list[k] in list;
  }

  /** What an increment of stage `j` keeps, moves and forgets. */
  lemma IncrementShape(s: Explorer, j: int)
    requires Consistent(s) && 0 <= j <= s.optionStage && s.listings[j].Some?
    requires 0 <= Digit(s, j) + 1 < |s.listings[j].value|
    ensures var x := Increment(s, j);
      && x.optionStage == j
      && (forall i :: 0 <= i < j ==> x.listings[i] == s.listings[i] && x.choices[i] == s.choices[i])
      && x.listings[j] == s.listings[j]
      && x.choices[j] == Some(s.listings[j].value[Digit(s, j) + 1])
      && (forall i :: j < i < |x.listings| ==> x.listings[i].None? && x.choices[i].None?)
  {
    var x := Increment(s, j);
    forall i | j < i < |x.listings|
      ensures x.listings[i].None? && x.choices[i].None?
    {
      if i > s.optionStage {
        assert s.choices[i].None?;
      }
    }
  }

  /** One nextChoice moves to the next combination in stage-major order: the
      stages before the one that grows keep their listing and choice, the
      one that grows moves up exactly one position in its listing (labels
      being distinct), and every discovered stage after it is forgotten. */
  lemma NextChoiceIsLexicographicStep(s: Explorer)
    requires Inv(s) && 0 <= s.optionStage && !s.isExhausted
    requires RightmostMovable(s, s.optionStage) >= 0
    requires Distinct(s.listings[RightmostMovable(s, s.optionStage)].value)
    ensures var j := RightmostMovable(s, s.optionStage);
      var t := NextChoice(s);
      && t.optionStage == j
      && Inv(t)
      && (forall i :: 0 <= i < j ==> t.listings[i] == s.listings[i] && t.choices[i] == s.choices[i])
      && t.listings[j] == s.listings[j]
      && Digit(t, j) == Digit(s, j) + 1
      && (forall i :: j < i < |t.listings| ==> t.listings[i].None? && t.choices[i].None?)
  {
    var j := RightmostMovable(s, s.optionStage);
    NextChoiceIsOdometer(s);
    NextChoicePreservesInv(s);
    var x := Increment(s, j);
    IncrementShape(s, j);
    var t := NextChoice(s);
    assert t.listings == x.listings && t.choices == x.choices && t.optionStage == j;
    assert Digit(t, j) == Digit(s, j) + 1 by {
      IndexOfDistinct(s.listings[j].value, Digit(s, j) + 1);
    }
  }
}
