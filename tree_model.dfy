/** Value model of the state of a DynamicTreeExplorer (src/components/choice.ts).

    Stages are the indices 0 .. n-1 of the ordered stage list. For each stage the
    explorer keeps an option listing (unknown until discovered) and a current
    choice. The cursor `optionStage` is -1 while it stands before the first
    stage (the source's `null`). Every operation of the class is given here as a
    function from the old state to the new one; the class in module Choice is
    proved to change its fields exactly as these functions say. */
module TreeModel {

  datatype Option<T> = None | Some(value: T)

  datatype Explorer = Explorer(
    listings: seq<Option<seq<string>>>,  // option_listings, by stage index
    choices: seq<Option<string>>,        // current_choices, by stage index
    optionStage: int,                    // cursor; -1 stands for null
    shouldBeExploring: bool,
    isExhausted: bool)

  /** JavaScript's Array.prototype.indexOf on strings: the first position of
      `x` in `list`, or -1 when it does not occur. */
  function IndexOf(list: seq<string>, x: string): (r: int)
    ensures -1 <= r < |list|
    ensures r >= 0 ==> list[r] == x && x !in list[..r]
    ensures r == -1 <==> x !in list
  {
    if list == [] then -1
    else if list[0] == x then 0
    else
      var k := IndexOf(list[1..], x);
      if k == -1 then -1 else k + 1
  }

  /** indexOf applied to a choice that may be null or undefined: neither
      occurs in a list of strings. */
  function IndexOfChoice(list: seq<string>, choice: Option<string>): int
  {
    if choice.None? then -1 else IndexOf(list, choice.value)
  }

  /** The choice that `listing[0]` stores: undefined (here None) for an empty listing. */
  function FirstOf(listing: seq<string>): Option<string>
  {
    if |listing| > 0 then Some(listing[0]) else None
  }

  /** The shape every state has: one listing and one choice per stage, at
      least one stage, and a cursor that is -1 or a stage. */
  predicate WellFormed(s: Explorer)
  {
    |s.listings| == |s.choices| >= 1 && -1 <= s.optionStage < |s.listings|
  }

  function LastStage(s: Explorer): int
  {
    |s.listings| - 1
  }

  /** Every stage up to the cursor has a listing, as nextChoice needs when it
      reads `option_listings[optionStage]!` and carries leftwards. */
  predicate Discovered(s: Explorer)
    requires WellFormed(s)
  {
    forall i :: 0 <= i <= s.optionStage ==> s.listings[i].Some?
  }

  /** A discovered stage's choice belongs to its listing; an empty listing
      (which explore accepts) has the undefined choice. */
  predicate Fits(listing: seq<string>, choice: Option<string>)
  {
    if listing == [] then choice.None? else choice.Some? && choice.value in listing
  }

  /** One stage as exhaustionCheck sees it: the choice is truthy (set and not
      the empty string), the listing is set, and the choice's first position
      in the listing is the last index. */
  predicate StageAtLast(listing: Option<seq<string>>, choice: Option<string>)
  {
    choice.Some? && choice.value != "" && listing.Some?
    && IndexOf(listing.value, choice.value) == |listing.value| - 1
  }

  /** What exhaustionCheck returns, over every stage. */
  predicate AllStagesAtLast(s: Explorer)
    requires |s.listings| == |s.choices|
  {
    forall i :: 0 <= i < |s.choices| ==> StageAtLast(s.listings[i], s.choices[i])
  }

  /** The shape of every state the class's operations reach: stages up to
      the cursor are discovered and hold a choice from their listing, stages
      after it are unknown and unset, and the exploring flag says whether the
      cursor is short of the last stage. */
  predicate Consistent(s: Explorer)
  {
    WellFormed(s)
    && (forall i :: 0 <= i < |s.listings| ==> (i <= s.optionStage <==> s.listings[i].Some?))
    && (forall i :: s.optionStage < i < |s.choices| ==> s.choices[i].None?)
    && (forall i :: 0 <= i <= s.optionStage ==> s.listings[i].Some? && Fits(s.listings[i].value, s.choices[i]))
    && (s.shouldBeExploring <==> s.optionStage != LastStage(s))
  }

  /** The invariant: a consistent state whose exhausted flag is only ever
      raised on a state that exhaustionCheck accepts. */
  predicate Inv(s: Explorer)
  {
    Consistent(s) && (s.isExhausted ==> AllStagesAtLast(s))
  }

  /** The state the constructor builds for `n` stages whose record values are all null. */
  function Init(n: nat): (s: Explorer)
    requires n >= 1
    ensures WellFormed(s) && |s.listings| == n && s.optionStage == -1 && !s.isExhausted
    ensures s.listings == seq(n, _ => None) && s.choices == seq(n, _ => None) && s.shouldBeExploring
  {
    Explorer(seq(n, _ => None), seq(n, _ => None), -1, true, false)
  }

  /** stepForward: move the cursor one stage right, or, at the last stage,
      clear the exploring flag. */
  function StepForward(s: Explorer): (r: Explorer)
    requires WellFormed(s)
    ensures WellFormed(r) && r.listings == s.listings && r.choices == s.choices
    ensures r.isExhausted == s.isExhausted && s.optionStage <= r.optionStage <= s.optionStage + 1
  {
    if s.optionStage < LastStage(s) then s.(optionStage := s.optionStage + 1)
    else s.(shouldBeExploring := false)
  }

  /** stepBack: forget the cursor stage's listing and choice, move the cursor
      one stage left (to null from the first stage) and set the exploring flag. */
  function StepBack(s: Explorer): (r: Explorer)
    requires WellFormed(s) && 0 <= s.optionStage
    ensures WellFormed(r) && |r.listings| == |s.listings| && r.optionStage == s.optionStage - 1
    ensures r.listings[s.optionStage].None? && r.choices[s.optionStage].None? && r.isExhausted == s.isExhausted
  {
    var c := s.optionStage;
    s.(listings := s.listings[c := None], choices := s.choices[c := None],
       optionStage := c - 1, shouldBeExploring := true)
  }

  /** explore(listing): unless exhausted, and unless the cursor is at the last
      stage, store the listing and its first entry at the stage after the
      cursor and step forward; then clear the exploring flag if the cursor is
      at the last stage. The exhausted flag is never recomputed here. */
  function Explore(s: Explorer, listing: seq<string>): (r: Explorer)
    requires WellFormed(s)
    ensures WellFormed(r) && |r.listings| == |s.listings| && r.isExhausted == s.isExhausted
  {
    if s.isExhausted then s
    else
      var c := s.optionStage;
      var t := if c != LastStage(s) then
                 StepForward(s.(listings := s.listings[c + 1 := Some(listing)],
                                choices := s.choices[c + 1 := FirstOf(listing)]))
               else s;
      if t.optionStage == LastStage(t) then t.(shouldBeExploring := false) else t
  }

  /** The assignment `isExhausted = exhaustionCheck()`. */
  function Checked(s: Explorer): (r: Explorer)
    requires |s.listings| == |s.choices|
    ensures r.listings == s.listings && r.choices == s.choices && r.optionStage == s.optionStage
    ensures r.shouldBeExploring == s.shouldBeExploring
    ensures r.isExhausted == AllStagesAtLast(r)
  {
    s.(isExhausted := AllStagesAtLast(s))
  }

  /** nextChoice: unless exhausted, advance the cursor stage's choice to the
      next entry of its listing; when it already holds the last entry, stop at
      the first stage, and elsewhere step back and advance the stage before.
      The exhausted flag is recomputed on every path but the first-stage stop. */
  function NextChoice(s: Explorer): (r: Explorer)
    requires WellFormed(s) && 0 <= s.optionStage && Discovered(s)
    ensures |r.listings| == |r.choices| == |s.listings|
    decreases s.optionStage
  {
    if s.isExhausted then s
    else
      var c := s.optionStage;
      var list := s.listings[c].value;
      var index := IndexOfChoice(list, s.choices[c]);
      var s1 := if c == LastStage(s) then s.(shouldBeExploring := false) else s;
      if index < |list| - 1 then
        Checked(s1.(choices := s1.choices[c := Some(list[index + 1])]))
      else if c == 0 then
        s1
      else
        Checked(NextChoice(StepBack(s1)))
  }

  // ---------------------------------------------------------------------
  // An independent reference for nextChoice: a mixed-radix counter.

  /** The position ("digit") of a discovered stage's choice in its listing. */
  function Digit(s: Explorer, i: int): int
    requires WellFormed(s) && 0 <= i <= s.optionStage && s.listings[i].Some?
  {
    IndexOfChoice(s.listings[i].value, s.choices[i])
  }

  /** A discovered stage whose digit cannot grow any more. */
  predicate AtMax(s: Explorer, i: int)
    requires WellFormed(s) && 0 <= i <= s.optionStage && s.listings[i].Some?
  {
    Digit(s, i) == |s.listings[i].value| - 1
  }

  /** The right-most stage at or before `k` whose digit can still grow, or -1. */
  function RightmostMovable(s: Explorer, k: int): (j: int)
    requires WellFormed(s) && Discovered(s) && -1 <= k <= s.optionStage
    ensures -1 <= j <= k
    ensures j >= 0 ==> !AtMax(s, j)
    ensures forall i :: j < i <= k ==> AtMax(s, i)
    decreases k + 1
  {
    if k == -1 then -1
    else if !AtMax(s, k) then k
    else RightmostMovable(s, k - 1)
  }

  /** `xs` with the entries at positions lo .. hi reset to None. */
  function Cleared<T>(xs: seq<Option<T>>, lo: int, hi: int): seq<Option<T>>
  {
    seq(|xs|, i requires 0 <= i < |xs| => if lo <= i <= hi then None else xs[i])
  }

  /** Stage `j` takes the next entry of its listing, every stage after it up
      to the cursor is forgotten (its options depend on the stage that
      changed), and the cursor moves to `j`; the flag is not yet recomputed. */
  function Increment(s: Explorer, j: int): Explorer
    requires WellFormed(s) && 0 <= j <= s.optionStage && s.listings[j].Some?
    requires 0 <= Digit(s, j) + 1 < |s.listings[j].value|
  {
    var next := Some(s.listings[j].value[Digit(s, j) + 1]);
    Explorer(Cleared(s.listings, j + 1, s.optionStage), Cleared(s.choices, j + 1, s.optionStage)[j := next],
             j, j != LastStage(s), false)
  }

  /** The next combination as an odometer computes it: the right-most stage
      that can still grow is incremented. When no stage can grow, the first
      stage keeps its last entry and every later discovered stage is
      forgotten. */
  function Odometer(s: Explorer): Explorer
    requires Inv(s) && 0 <= s.optionStage && !s.isExhausted
  {
    var c := s.optionStage;
    var j := RightmostMovable(s, c);
    if j >= 0 then
      Checked(Increment(s, j))
    else if c == 0 then
      s
    else
      Checked(Explorer(Cleared(s.listings, 1, c), Cleared(s.choices, 1, c), 0, true, false))
  }
}
