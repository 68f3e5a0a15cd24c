/** The whole walk. A driver discovers every stage after the cursor, asking an
    oracle for the stage's listing given the choices before it (later options
    depend on earlier answers), then advances with nextChoice, and repeats.
    When every stage's listing has a fixed size, the k-th combination visited
    is the k-th in stage-major order, so no combination repeats and the walk
    covers the product of the sizes. */
module TreeWalk {
  import opened TreeModel
  import opened TreeProperties
  import opened TreeFindings

  // ---------------------------------------------------------------------
  // Mixed-radix numbers, most significant digit first

  /** Multiplication by repeated addition. Value and Product multiply
      through it, so that unfolding them yields only linear facts; MulIsTimes
      relates it to `*` where a proof needs the product itself. */
  function Mul(a: int, b: int): int
    decreases if a < 0 then -a else a
  {
    if a == 0 then 0 else if a > 0 then Mul(a - 1, b) + b else Mul(a + 1, b) - b
  }

  lemma {:induction false} MulIsTimes(a: int, b: int)
    ensures Mul(a, b) == a * b
    decreases if a < 0 then -a else a
  {
    if a > 0 {
      MulIsTimes(a - 1, b);
    } else if a < 0 {
      MulIsTimes(a + 1, b);
    }
  }

  predicate InRange(ds: seq<int>, rs: seq<int>)
  {
    |ds| == |rs| && forall i :: 0 <= i < |ds| ==> 0 <= ds[i] < rs[i]
  }

  predicate AllMax(ds: seq<int>, rs: seq<int>)
  {
    |ds| == |rs| && forall i :: 0 <= i < |ds| ==> ds[i] == rs[i] - 1
  }

  function Value(ds: seq<int>, rs: seq<int>): int
    requires |ds| == |rs|
  {
    if ds == [] then 0
    else Mul(Value(ds[..|ds| - 1], rs[..|rs| - 1]), rs[|rs| - 1]) + ds[|ds| - 1]
  }

  function Product(rs: seq<int>): int
  {
    if rs == [] then 1 else Mul(Product(rs[..|rs| - 1]), rs[|rs| - 1])
  }

  /** The digits one above `ds` when `j` is the right-most digit below its maximum. */
  function Succ(ds: seq<int>, j: int): seq<int>
    requires 0 <= j < |ds|
  {
    ds[..j] + [ds[j] + 1] + seq(|ds| - j - 1, _ => 0)
  }

  lemma MulLe(a: int, b: int, r: int)
    requires a <= b && r >= 0
    ensures a * r <= b * r
  {
  }

  /** Mul is monotonic in its first argument for a non-negative second one. */
  lemma {:induction false} MulMono(a: int, b: int, r: int)
    requires a <= b && r >= 0
    ensures Mul(a, r) <= Mul(b, r)
    decreases b - a
  {
    if a < b {
      MulMono(a, b - 1, r);
      MulSucc(b - 1, r);
    }
  }

  lemma {:induction false} ValueBounds(ds: seq<int>, rs: seq<int>)
    requires InRange(ds, rs)
    ensures 0 <= Value(ds, rs) < Product(rs)
    decreases |ds|
  {
    if ds != [] {
      var n := |ds| - 1;
      var pre, rpre := ds[..n], rs[..n];
      var v, p, r := Value(pre, rpre), Product(rpre), rs[n];
      ValueBounds(pre, rpre);
      MulMono(0, v, r);
      MulMono(v, p - 1, r);
      MulSucc(p - 1, r);
      assert Value(ds, rs) == Mul(v, r) + ds[n] && Product(rs) == Mul(p, r);
    }
  }

  /** Distinct in-range digit sequences have distinct values. */
  lemma {:induction false} ValueInjective(ds: seq<int>, es: seq<int>, rs: seq<int>)
    requires InRange(ds, rs) && InRange(es, rs) && Value(ds, rs) == Value(es, rs)
    ensures ds == es
    decreases |ds|
  {
    if ds != [] {
      var n := |ds| - 1;
      var r := rs[n];
      var v, w := Value(ds[..n], rs[..n]), Value(es[..n], rs[..n]);
      assert Mul(v, r) + ds[n] == Mul(w, r) + es[n];
      if v < w {
        MulMono(v + 1, w, r);
        MulSucc(v, r);
      } else if w < v {
        MulMono(w + 1, v, r);
        MulSucc(w, r);
      }
      ValueInjective(ds[..n], es[..n], rs[..n]);
      assert ds == ds[..n] + [ds[n]] && es == es[..n] + [es[n]];
    }
  }

  lemma {:induction false} ValueOfZeros(ds: seq<int>, rs: seq<int>)
    requires |ds| == |rs| && forall i :: 0 <= i < |ds| ==> ds[i] == 0
    ensures Value(ds, rs) == 0
    decreases |ds|
  {
    if ds != [] {
      ValueOfZeros(ds[..|ds| - 1], rs[..|rs| - 1]);
    }
  }

  /** The largest value, and only it, has every digit at its maximum. */
  lemma {:induction false} ValueAllMax(ds: seq<int>, rs: seq<int>)
    requires InRange(ds, rs)
    ensures AllMax(ds, rs) <==> Value(ds, rs) == Product(rs) - 1
    decreases |ds|
  {
    if ds != [] {
      var n := |ds| - 1;
      var pre, rpre := ds[..n], rs[..n];
      var v, p, r := Value(pre, rpre), Product(rpre), rs[n];
      ValueAllMax(pre, rpre);
      ValueBounds(pre, rpre);
      MulIsTimes(v, r);
      MulIsTimes(p, r);
      assert (p - 1) * r + r - 1 == p * r - 1;
      if v <= p - 2 {
        MulLe(v, p - 2, r);
        assert (p - 2) * r + r - 1 < p * r - 1;
      }
      if AllMax(ds, rs) {
        assert AllMax(pre, rpre);
      }
      if Value(ds, rs) == Product(rs) - 1 {
        assert v == p - 1;
        assert AllMax(pre, rpre);
      }
    }
  }

  lemma MulSucc(a: int, b: int)
    ensures Mul(a + 1, b) == Mul(a, b) + b
  {
  }

  lemma SuccInRange(ds: seq<int>, rs: seq<int>, j: int)
    requires InRange(ds, rs) && 0 <= j < |ds| && ds[j] < rs[j] - 1
    ensures InRange(Succ(ds, j), rs)
  {
    forall i | 0 <= i < |ds|
      ensures 0 <= Succ(ds, j)[i] < rs[i]
    {
      SuccAt(ds, j, i);
    }
  }

  /** Succ splits as a prefix and a last digit. */
  lemma SuccSplit(ds: seq<int>, j: int)
    requires 0 <= j < |ds|
    ensures var n := |ds| - 1;
      && |Succ(ds, j)| == |ds|
      && (j == n ==> Succ(ds, j)[..n] == ds[..n] && Succ(ds, j)[n] == ds[n] + 1)
      && (j < n ==> Succ(ds, j)[..n] == Succ(ds[..n], j) && Succ(ds, j)[n] == 0)
  {
    var n := |ds| - 1;
    SuccAt(ds, j, n);
    if j == n {
      assert Succ(ds, j)[..n] == ds[..n];
    } else {
      assert Succ(ds, j)[..n] == Succ(ds[..n], j);
    }
  }

  /** Succ is one more. */
  lemma {:induction false} SuccValue(ds: seq<int>, rs: seq<int>, j: int)
    requires InRange(ds, rs) && 0 <= j < |ds| && ds[j] < rs[j] - 1
    requires forall i :: j < i < |ds| ==> ds[i] == rs[i] - 1
    ensures Value(Succ(ds, j), rs) == Value(ds, rs) + 1
    decreases |ds|
  {
    var n := |ds| - 1;
    SuccSplit(ds, j);
    if j < n {
      SuccValue(ds[..n], rs[..n], j);
      MulSucc(Value(ds[..n], rs[..n]), rs[n]);
    }
  }

  // ---------------------------------------------------------------------
  // The driver

  /** What the page lists at stage i once the stages before it hold the given choices. */
  type Oracle = (int, seq<Option<string>>) -> seq<string>

  /** Every listing the oracle gives for stage i has rs[i] distinct, truthy labels. */
  ghost predicate Sized(options: Oracle, rs: seq<int>)
  {
    forall i, p :: 0 <= i < |rs| ==>
      |options(i, p)| == rs[i] && rs[i] >= 1 && Distinct(options(i, p)) && "" !in options(i, p)
  }

  /** Every discovered stage holds the listing the oracle gives for its prefix. */
  predicate Tracks(s: Explorer, options: Oracle)
  {
    Inv(s) && forall i :: 0 <= i <= s.optionStage ==> s.listings[i] == Some(options(i, s.choices[..i]))
  }

  /** The positions of the chosen labels, each in the listing its prefix calls for. */
  function Positions(choices: seq<Option<string>>, options: Oracle): seq<int>
  {
    seq(|choices|, i requires 0 <= i < |choices| => IndexOfChoice(options(i, choices[..i]), choices[i]))
  }

  /** One explore of the discovery pass: the stage after the cursor gets the
      oracle's listing for it, through the corrected explore when `checked`. */
  function ExploreNext(s: Explorer, options: Oracle, checked: bool): (u: Explorer)
    requires Inv(s) && !s.isExhausted && s.optionStage < LastStage(s)
    ensures Inv(u) && u.optionStage == s.optionStage + 1
    ensures var l := options(s.optionStage + 1, s.choices[..s.optionStage + 1]);
      && u.listings == s.listings[s.optionStage + 1 := Some(l)]
      && u.choices == s.choices[s.optionStage + 1 := FirstOf(l)]
    ensures !checked ==> u.isExhausted == s.isExhausted
    ensures checked ==> (u.isExhausted <==> AllStagesAtLast(u))
  {
    var l := options(s.optionStage + 1, s.choices[..s.optionStage + 1]);
    ExplorePreservesInv(s, l);
    ExploreDiscoversNextStage(s, l);
    if checked then ExploreChecked(s, l) else Explore(s, l)
  }

  /** The driver's discovery pass: explore every stage after the cursor with
      the oracle's listing for it, using the corrected explore when `checked`. */
  function Discover(s: Explorer, options: Oracle, checked: bool): (t: Explorer)
    requires Inv(s)
    ensures Inv(t) && |t.listings| == |s.listings| && t.optionStage == LastStage(t)
    decreases LastStage(s) - s.optionStage
  {
    if s.isExhausted then
      AllAtLastMeansFullyDiscovered(s); s
    else if s.optionStage == LastStage(s) then
      s
    else
      Discover(ExploreNext(s, options, checked), options, checked)
  }

  /** One nextChoice followed by the discovery pass. */
  function Advance(s: Explorer, options: Oracle, checked: bool): (t: Explorer)
    requires Inv(s) && 0 <= s.optionStage
    ensures Inv(t) && |t.listings| == |s.listings| && t.optionStage == LastStage(t)
  {
    NextChoicePreservesInv(s);
    Discover(NextChoice(s), options, checked)
  }

  /** The state after the first discovery pass and k advances. */
  function Walk(options: Oracle, n: nat, k: nat, checked: bool): (s: Explorer)
    requires n >= 1
    ensures Inv(s) && |s.listings| == n && s.optionStage == LastStage(s)
  {
    if k == 0 then
      InitEstablishesInv(n);
      Discover(Init(n), options, checked)
    else
      Advance(Walk(options, n, k - 1, checked), options, checked)
  }

  // ---------------------------------------------------------------------
  // Facts about one discovery pass and one advance

  lemma SuccAt(ds: seq<int>, j: int, i: int)
    requires 0 <= j < |ds| && 0 <= i < |ds|
    ensures |Succ(ds, j)| == |ds|
    ensures Succ(ds, j)[i] == if i < j then ds[i] else if i == j then ds[j] + 1 else 0
  {
  }

  /** On a fully discovered state that follows the oracle, the positions are
      the stages' digits, each below its stage's size; they are all at their
      maximum exactly when exhaustionCheck holds and when no stage can grow. */
  lemma FullPositions(s: Explorer, options: Oracle, rs: seq<int>)
    requires Tracks(s, options) && Sized(options, rs) && |rs| == |s.listings|
    requires s.optionStage == LastStage(s)
    ensures forall i :: 0 <= i < |rs| ==> Positions(s.choices, options)[i] == Digit(s, i)
    ensures InRange(Positions(s.choices, options), rs)
    ensures AllMax(Positions(s.choices, options), rs) <==> AllStagesAtLast(s)
    ensures AllMax(Positions(s.choices, options), rs) <==> RightmostMovable(s, LastStage(s)) == -1
    ensures forall i :: 0 <= i < |rs| ==> (AtMax(s, i) <==> Positions(s.choices, options)[i] == rs[i] - 1)
  {
    var ps := Positions(s.choices, options);
    forall i | 0 <= i < |rs|
      ensures ps[i] == Digit(s, i)
      ensures 0 <= ps[i] < rs[i]
      ensures ps[i] == rs[i] - 1 <==> AtMax(s, i)
      ensures ps[i] == rs[i] - 1 <==> StageAtLast(s.listings[i], s.choices[i])
    {
      var l := options(i, s.choices[..i]);
      assert s.listings[i] == Some(l);
      assert |l| == rs[i] && "" !in l;
    }
    var j := RightmostMovable(s, LastStage(s));
    if j >= 0 {
      assert ps[j] != rs[j] - 1;
    }
  }

  /** The stage that nextChoice moves is below its maximum position and
      every later stage is at its maximum. */
  lemma MovableDigits(s: Explorer, options: Oracle, rs: seq<int>)
    requires Tracks(s, options) && Sized(options, rs) && |rs| == |s.listings|
    requires s.optionStage == LastStage(s) && RightmostMovable(s, LastStage(s)) >= 0
    ensures var ps := Positions(s.choices, options);
      var j := RightmostMovable(s, LastStage(s));
      && InRange(ps, rs)
      && ps[j] < rs[j] - 1
      && forall i :: j < i < |ps| ==> ps[i] == rs[i] - 1
  {
    FullPositions(s, options, rs);
    var ps := Positions(s.choices, options);
    var j := RightmostMovable(s, LastStage(s));
    forall i | j < i < |ps|
      ensures ps[i] == rs[i] - 1
    {
      assert AtMax(s, i);
    }
  }

  /** One explore of the discovery pass keeps the state on the oracle's listings. */
  lemma DiscoverStep(s: Explorer, options: Oracle, checked: bool)
    requires Tracks(s, options) && !s.isExhausted && s.optionStage < LastStage(s)
    ensures Tracks(ExploreNext(s, options, checked), options)
  {
    var c := s.optionStage;
    var u := ExploreNext(s, options, checked);
    forall i | 0 <= i <= c + 1
      ensures u.choices[..i] == s.choices[..i]
    {
    }
  }

  /** Stages after `lo` that hold the first entry of their oracle listing are at position 0. */
  lemma FirstChosenIsZero(t: Explorer, options: Oracle, rs: seq<int>, lo: int)
    requires Tracks(t, options) && Sized(options, rs) && |rs| == |t.listings| && t.optionStage == LastStage(t) && -1 <= lo
    requires forall i :: lo < i < |t.choices| ==> t.choices[i] == FirstOf(t.listings[i].value)
    ensures forall i :: lo < i < |t.choices| ==> Positions(t.choices, options)[i] == 0
  {
    forall i | lo < i < |t.choices|
      ensures Positions(t.choices, options)[i] == 0
    {
      var l := options(i, t.choices[..i]);
      assert t.listings[i] == Some(l);
      assert |l| == rs[i] >= 1;
    }
  }

  /** A discovery pass keeps the discovered stages and chooses the first
      entry of every stage it discovers. */
  lemma {:induction false} DiscoverKeeps(s: Explorer, options: Oracle, checked: bool)
    requires Inv(s)
    ensures var t := Discover(s, options, checked);
      && (forall i :: 0 <= i <= s.optionStage ==> t.listings[i] == s.listings[i] && t.choices[i] == s.choices[i])
      && (forall i :: s.optionStage < i < |t.choices| ==> t.choices[i] == FirstOf(t.listings[i].value))
    decreases LastStage(s) - s.optionStage
  {
    if !s.isExhausted && s.optionStage < LastStage(s) {
      var c := s.optionStage;
      var l := options(c + 1, s.choices[..c + 1]);
      var u := ExploreNext(s, options, checked);
      DiscoverKeeps(u, options, checked);
      var t := Discover(u, options, checked);
      forall i | 0 <= i <= c
        ensures t.listings[i] == s.listings[i] && t.choices[i] == s.choices[i]
      {
        assert t.listings[i] == u.listings[i] && t.choices[i] == u.choices[i];
      }
      assert u.listings[c + 1] == Some(l) && u.choices[c + 1] == FirstOf(l);
      assert t.listings[c + 1] == Some(l) && t.choices[c + 1] == FirstOf(l);
      assert forall i :: c + 1 < i < |t.choices| ==> t.choices[i] == FirstOf(t.listings[i].value);
    }
  }

  /** A discovery pass keeps the discovered stages, gives every stage after
      the cursor its oracle listing with the first entry chosen, leaves the
      flag alone as written and keeps it exact when corrected. */
  lemma {:induction false} DiscoverFacts(s: Explorer, options: Oracle, rs: seq<int>, checked: bool)
    requires Tracks(s, options) && Sized(options, rs) && |rs| == |s.listings|
    requires checked ==> FlagExact(s)
    ensures var t := Discover(s, options, checked);
      && Tracks(t, options)
      && (forall i :: 0 <= i <= s.optionStage ==> t.listings[i] == s.listings[i] && t.choices[i] == s.choices[i])
      && (forall i :: s.optionStage < i < |t.choices| ==> t.choices[i] == FirstOf(t.listings[i].value))
      && (!checked ==> t.isExhausted == s.isExhausted)
      && (checked ==> FlagExact(t))
    decreases LastStage(s) - s.optionStage
  {
    if !s.isExhausted && s.optionStage < LastStage(s) {
      var c := s.optionStage;
      var u := ExploreNext(s, options, checked);
      DiscoverStep(s, options, checked);
      DiscoverFacts(u, options, rs, checked);
    }
    DiscoverKeeps(s, options, checked);
  }

  /** nextChoice leaves the cursor on a stage at or before the old one;
      every stage up to it keeps its listing and every stage before it its
      choice. */
  lemma NextChoiceKeepsPrefix(s: Explorer)
    requires Inv(s) && 0 <= s.optionStage && !s.isExhausted
    ensures var t := NextChoice(s);
      && 0 <= t.optionStage <= s.optionStage
      && (forall i :: 0 <= i <= t.optionStage ==> t.listings[i] == s.listings[i])
      && (forall i :: 0 <= i < t.optionStage ==> t.choices[i] == s.choices[i])
  {
    NextChoiceIsOdometer(s);
    var c := s.optionStage;
    var j := RightmostMovable(s, c);
    var t := NextChoice(s);
    if j >= 0 {
      IncrementShape(s, j);
      assert t.listings == Increment(s, j).listings && t.choices == Increment(s, j).choices;
    } else if c > 0 {
      assert t.optionStage == 0 && t.listings[0] == s.listings[0];
    }
  }

  /** nextChoice keeps every remaining discovered stage on its oracle listing. */
  lemma NextChoiceKeepsTracks(s: Explorer, options: Oracle)
    requires Tracks(s, options) && 0 <= s.optionStage
    ensures Tracks(NextChoice(s), options)
  {
    NextChoicePreservesInv(s);
    if !s.isExhausted {
      NextChoiceKeepsPrefix(s);
      var t := NextChoice(s);
      forall i | 0 <= i <= t.optionStage
        ensures t.listings[i] == Some(options(i, t.choices[..i]))
      {
        assert t.choices[..i] == s.choices[..i];
      }
    }
  }

  /** Positions of a combination that keeps the stages before j, moves
      stage j one entry up and starts every later stage at its first entry. */
  lemma PositionsOfSuccessor(s: Explorer, t: Explorer, options: Oracle, j: int)
    requires Tracks(s, options) && Tracks(t, options)
    requires s.optionStage == LastStage(s) && t.optionStage == LastStage(t) && |t.listings| == |s.listings|
    requires 0 <= j < |s.listings|
    requires forall i :: 0 <= i < j ==> t.choices[i] == s.choices[i]
    requires Digit(t, j) == Digit(s, j) + 1
    requires forall i :: j < i < |t.choices| ==> Positions(t.choices, options)[i] == 0
    ensures Positions(t.choices, options) == Succ(Positions(s.choices, options), j)
  {
    var ps, pt := Positions(s.choices, options), Positions(t.choices, options);
    forall i | 0 <= i < |s.choices|
      ensures pt[i] == Succ(ps, j)[i]
    {
      SuccAt(ps, j, i);
      if i <= j {
        assert t.choices[..i] == s.choices[..i];
      }
    }
    SuccAt(ps, j, 0);
  }

  /** One advance from a combination that is not the last one steps the
      positions to the next number in stage-major order. As written, the
      flag goes up only when the last stage was the one that grew. */
  lemma AdvanceSteps(s: Explorer, options: Oracle, rs: seq<int>, checked: bool)
    requires Tracks(s, options) && Sized(options, rs) && |rs| == |s.listings|
    requires s.optionStage == LastStage(s) && !s.isExhausted
    requires RightmostMovable(s, LastStage(s)) >= 0
    requires checked ==> FlagExact(s)
    ensures var j := RightmostMovable(s, LastStage(s));
      var t := Advance(s, options, checked);
      && Tracks(t, options)
      && Positions(t.choices, options) == Succ(Positions(s.choices, options), j)
      && (checked ==> FlagExact(t))
      && (!checked ==> (t.isExhausted <==> j == LastStage(s) && AllStagesAtLast(t)))
  {
    var j := RightmostMovable(s, LastStage(s));
    assert s.listings[j] == Some(options(j, s.choices[..j]));
    NextChoiceIsLexicographicStep(s);
    NextChoiceKeepsTracks(s, options);
    var t0 := NextChoice(s);
    assert t0.isExhausted == AllStagesAtLast(t0) by {
      NextChoiceIsOdometer(s);
    }
    if checked {
      NextChoiceKeepsFlagExact(s);
    }
    DiscoverFacts(t0, options, rs, checked);
    var t := Discover(t0, options, checked);
    FirstChosenIsZero(t, options, rs, t0.optionStage);
    assert t == Advance(s, options, checked);
    assert Digit(t, j) == Digit(t0, j);
    PositionsOfSuccessor(s, t, options, j);
    if j < LastStage(s) {
      assert !StageAtLast(t0.listings[LastStage(s)], t0.choices[LastStage(s)]);
    }
  }

  // ---------------------------------------------------------------------
  // The walk

  lemma {:induction false} ProductPositive(rs: seq<int>)
    requires forall i :: 0 <= i < |rs| ==> rs[i] >= 1
    ensures Product(rs) >= 1
    decreases |rs|
  {
    if rs != [] {
      ProductPositive(rs[..|rs| - 1]);
      MulIsTimes(Product(rs[..|rs| - 1]), rs[|rs| - 1]);
      MulLe(1, Product(rs[..|rs| - 1]), rs[|rs| - 1]);
    }
  }

  lemma SizesPositive(options: Oracle, rs: seq<int>)
    requires Sized(options, rs)
    ensures forall i :: 0 <= i < |rs| ==> rs[i] >= 1
  {
    forall i | 0 <= i < |rs|
      ensures rs[i] >= 1
    {
      assert |options(i, [])| == rs[i];
    }
  }

  /** The product is at least the last stage's size. */
  lemma ProductAtLeastLast(options: Oracle, rs: seq<int>)
    requires Sized(options, rs) && |rs| >= 1
    ensures Product(rs) >= rs[|rs| - 1]
  {
    var n := |rs| - 1;
    SizesPositive(options, rs);
    ProductPositive(rs[..n]);
    MulIsTimes(Product(rs[..n]), rs[n]);
    MulLe(1, Product(rs[..n]), rs[n]);
  }

  /** An advance keeps the state on the oracle's listings, and keeps the
      flag exact with the corrected explore. */
  lemma AdvanceTracks(p: Explorer, options: Oracle, rs: seq<int>, checked: bool)
    requires Tracks(p, options) && Sized(options, rs) && |rs| == |p.listings| && 0 <= p.optionStage
    requires checked ==> FlagExact(p)
    ensures Tracks(Advance(p, options, checked), options)
    ensures checked ==> FlagExact(Advance(p, options, checked))
  {
    NextChoiceKeepsTracks(p, options);
    NextChoicePreservesInv(p);
    if checked {
      NextChoiceKeepsFlagExact(p);
    }
    DiscoverFacts(NextChoice(p), options, rs, checked);
  }

  /** The first discovery pass puts the state on the oracle's listings. */
  lemma StartTracks(options: Oracle, rs: seq<int>, checked: bool)
    requires Sized(options, rs) && |rs| >= 1
    ensures Tracks(Walk(options, |rs|, 0, checked), options)
    ensures checked ==> FlagExact(Walk(options, |rs|, 0, checked))
    ensures !checked ==> !Walk(options, |rs|, 0, checked).isExhausted
  {
    InitEstablishesInv(|rs|);
    InitFlagExact(|rs|);
    DiscoverFacts(Init(|rs|), options, rs, checked);
  }

  /** One more step of the walk is one more advance. */
  lemma WalkStep(options: Oracle, n: nat, k: nat, checked: bool)
    requires n >= 1 && k >= 1
    ensures Walk(options, n, k, checked) == Advance(Walk(options, n, k - 1, checked), options, checked)
  {
  }

  /** Every state of the walk follows the oracle, and with the corrected
      explore its flag is exact. */
  lemma {:induction false} WalkTracks(options: Oracle, rs: seq<int>, k: nat, checked: bool)
    requires Sized(options, rs) && |rs| >= 1
    ensures Tracks(Walk(options, |rs|, k, checked), options)
    ensures checked ==> FlagExact(Walk(options, |rs|, k, checked))
    ensures !checked && rs[|rs| - 1] == 1 ==> !Walk(options, |rs|, k, checked).isExhausted
    decreases k
  {
    if k == 0 {
      StartTracks(options, rs, checked);
    } else {
      WalkTracks(options, rs, k - 1, checked);
      var p := Walk(options, |rs|, k - 1, checked);
      AdvanceTracks(p, options, rs, checked);
      if !checked && rs[|rs| - 1] == 1 {
        AdvanceNeverRaisesFlag(p, options, rs);
      }
    }
  }

  /** A combination short of the last one is not flagged. */
  lemma BelowLastNotExhausted(s: Explorer, options: Oracle, rs: seq<int>)
    requires Tracks(s, options) && Sized(options, rs) && |rs| == |s.listings|
    requires s.optionStage == LastStage(s)
    requires Value(Positions(s.choices, options), rs) < Product(rs) - 1
    ensures !s.isExhausted
    ensures RightmostMovable(s, LastStage(s)) >= 0
  {
    FullPositions(s, options, rs);
    ValueAllMax(Positions(s.choices, options), rs);
  }

  /** The last combination passes exhaustionCheck. */
  lemma LastPassesCheck(s: Explorer, options: Oracle, rs: seq<int>)
    requires Tracks(s, options) && Sized(options, rs) && |rs| == |s.listings|
    requires s.optionStage == LastStage(s)
    requires Value(Positions(s.choices, options), rs) == Product(rs) - 1
    ensures AllStagesAtLast(s)
    ensures AllMax(Positions(s.choices, options), rs)
  {
    FullPositions(s, options, rs);
    ValueAllMax(Positions(s.choices, options), rs);
  }

  /** An advance from a combination short of the last one adds one. */
  lemma AdvanceAddsOne(s: Explorer, options: Oracle, rs: seq<int>, checked: bool)
    requires Tracks(s, options) && Sized(options, rs) && |rs| == |s.listings|
    requires s.optionStage == LastStage(s)
    requires checked ==> FlagExact(s)
    requires Value(Positions(s.choices, options), rs) < Product(rs) - 1
    ensures var t := Advance(s, options, checked);
      && InRange(Positions(t.choices, options), rs)
      && Value(Positions(t.choices, options), rs) == Value(Positions(s.choices, options), rs) + 1
  {
    BelowLastNotExhausted(s, options, rs);
    var ps := Positions(s.choices, options);
    var j := RightmostMovable(s, LastStage(s));
    assert InRange(Succ(ps, j), rs) && Value(Succ(ps, j), rs) == Value(ps, rs) + 1 by {
      MovableDigits(s, options, rs);
      SuccInRange(ps, rs, j);
      SuccValue(ps, rs, j);
    }
    AdvanceSteps(s, options, rs, checked);
  }

  /** The first discovery pass picks the first entry everywhere: number 0. */
  lemma FirstCombinationIsZero(options: Oracle, rs: seq<int>, checked: bool)
    requires Sized(options, rs) && |rs| >= 1
    ensures var s := Walk(options, |rs|, 0, checked);
      && InRange(Positions(s.choices, options), rs)
      && Value(Positions(s.choices, options), rs) == 0
  {
    var s := Walk(options, |rs|, 0, checked);
    InitEstablishesInv(|rs|);
    DiscoverFacts(Init(|rs|), options, rs, checked);
    FirstChosenIsZero(s, options, rs, -1);
    FullPositions(s, options, rs);
    ValueOfZeros(Positions(s.choices, options), rs);
  }

  /** A fully discovered state that follows the oracle and whose positions,
      read as a mixed-radix number, are `k`; with the corrected explore its
      flag is exact. */
  ghost predicate OnCombination(s: Explorer, options: Oracle, rs: seq<int>, k: int, checked: bool)
  {
    Tracks(s, options) && |rs| == |s.listings| && s.optionStage == LastStage(s)
    && (checked ==> FlagExact(s))
    && InRange(Positions(s.choices, options), rs) && Value(Positions(s.choices, options), rs) == k
  }

  lemma StartOnCombination(options: Oracle, rs: seq<int>, checked: bool)
    requires Sized(options, rs) && |rs| >= 1
    ensures OnCombination(Walk(options, |rs|, 0, checked), options, rs, 0, checked)
  {
    StartTracks(options, rs, checked);
    FirstCombinationIsZero(options, rs, checked);
  }

  lemma StepOnCombination(p: Explorer, options: Oracle, rs: seq<int>, k: int, checked: bool)
    requires Sized(options, rs) && OnCombination(p, options, rs, k, checked) && k < Product(rs) - 1
    ensures OnCombination(Advance(p, options, checked), options, rs, k + 1, checked)
  {
    AdvanceTracks(p, options, rs, checked);
    AdvanceAddsOne(p, options, rs, checked);
  }

  lemma {:induction false} WalkOnCombination(options: Oracle, rs: seq<int>, k: nat, checked: bool)
    requires Sized(options, rs) && |rs| >= 1 && k < Product(rs)
    ensures OnCombination(Walk(options, |rs|, k, checked), options, rs, k, checked)
    ensures !checked && rs[|rs| - 1] >= 2 && k == Product(rs) - 1 >= 1 ==> Walk(options, |rs|, k, checked).isExhausted
    decreases k
  {
    if k == 0 {
      StartOnCombination(options, rs, checked);
    } else {
      var p := Walk(options, |rs|, k - 1, checked);
      assert OnCombination(p, options, rs, k - 1, checked) by {
        WalkOnCombination(options, rs, k - 1, checked);
      }
      WalkStep(options, |rs|, k, checked);
      assert OnCombination(Walk(options, |rs|, k, checked), options, rs, k, checked) by {
        StepOnCombination(p, options, rs, k - 1, checked);
      }
      if !checked && rs[|rs| - 1] >= 2 && k == Product(rs) - 1 {
        assert Walk(options, |rs|, k, checked).isExhausted by {
          AdvanceToLastRaisesFlag(p, options, rs);
        }
      }
    }
  }

  /** The k-th combination of the walk is the k-th in stage-major order: its
      positions, read as a mixed-radix number over the stage sizes, equal k.
      Before the last combination the flag is down. */
  lemma WalkVisitsInOrder(options: Oracle, rs: seq<int>, k: nat, checked: bool)
    requires Sized(options, rs) && |rs| >= 1 && k < Product(rs)
    ensures var s := Walk(options, |rs|, k, checked);
      && InRange(Positions(s.choices, options), rs)
      && Value(Positions(s.choices, options), rs) == k
      && (k < Product(rs) - 1 ==> !s.isExhausted)
  {
    WalkOnCombination(options, rs, k, checked);
    if k < Product(rs) - 1 {
      BelowLastNotExhausted(Walk(options, |rs|, k, checked), options, rs);
    }
  }

  /** No combination is visited twice among the first Product(rs). */
  lemma WalkNeverRepeats(options: Oracle, rs: seq<int>, k1: nat, k2: nat, checked: bool)
    requires Sized(options, rs) && |rs| >= 1 && k1 < k2 < Product(rs)
    ensures Walk(options, |rs|, k1, checked).choices != Walk(options, |rs|, k2, checked).choices
  {
    WalkVisitsInOrder(options, rs, k1, checked);
    WalkVisitsInOrder(options, rs, k2, checked);
  }

  /** Every combination is visited: the in-range positions `ds` are those of
      the walk state numbered by their own mixed-radix value. */
  lemma WalkCoversAll(options: Oracle, rs: seq<int>, ds: seq<int>, checked: bool)
    requires Sized(options, rs) && |rs| >= 1 && InRange(ds, rs)
    ensures 0 <= Value(ds, rs) < Product(rs)
    ensures Positions(Walk(options, |rs|, Value(ds, rs), checked).choices, options) == ds
  {
    ValueBounds(ds, rs);
    var k := Value(ds, rs);
    WalkVisitsInOrder(options, rs, k, checked);
    ValueInjective(Positions(Walk(options, |rs|, k, checked).choices, options), ds, rs);
  }

  /** A corrected walk state on the last combination is flagged, and an
      advance from it changes nothing. */
  lemma CheckedLastIsFinal(s: Explorer, options: Oracle, rs: seq<int>)
    requires Sized(options, rs) && OnCombination(s, options, rs, Product(rs) - 1, true)
    ensures s.isExhausted
    ensures Advance(s, options, true) == s
  {
    LastPassesCheck(s, options, rs);
    ExhaustedIsFinal(s, []);
  }

  /** With the corrected explore the walk ends after exactly Product(rs)
      combinations: the flag is down before the last one, up on it, and an
      advance from there changes nothing. */
  lemma CheckedWalkEndsAfterProduct(options: Oracle, rs: seq<int>, last: nat)
    requires Sized(options, rs) && |rs| >= 1
    requires last == Product(rs) - 1
    ensures forall k: nat :: k < last ==> !Walk(options, |rs|, k, true).isExhausted
    ensures Walk(options, |rs|, last, true).isExhausted
    ensures Advance(Walk(options, |rs|, last, true), options, true) == Walk(options, |rs|, last, true)
  {
    forall k: nat | k < last
      ensures !Walk(options, |rs|, k, true).isExhausted
    {
      WalkVisitsInOrder(options, rs, k, true);
    }
    WalkOnCombination(options, rs, last, true);
    CheckedLastIsFinal(Walk(options, |rs|, last, true), options, rs);
  }

  /** As written, an advance that reaches the last combination raises the
      flag when the last stage offers at least two options. */
  lemma AdvanceToLastRaisesFlag(p: Explorer, options: Oracle, rs: seq<int>)
    requires Sized(options, rs) && OnCombination(p, options, rs, Product(rs) - 2, false)
    requires rs[|rs| - 1] >= 2
    ensures Advance(p, options, false).isExhausted
  {
    var s := Advance(p, options, false);
    BelowLastNotExhausted(p, options, rs);
    FullPositions(p, options, rs);
    AdvanceAddsOne(p, options, rs, false);
    AdvanceSteps(p, options, rs, false);
    LastPassesCheck(s, options, rs);
    var j := RightmostMovable(p, LastStage(p));
    SuccAt(Positions(p.choices, options), j, |rs| - 1);
  }

  /** As written, the walk also ends on its last combination when the last
      stage offers at least two options: that combination is then reached by
      nextChoice moving the last stage. */
  lemma WalkEndsWhenLastStageHasTwoOptions(options: Oracle, rs: seq<int>, last: nat)
    requires Sized(options, rs) && |rs| >= 1 && rs[|rs| - 1] >= 2
    requires last == Product(rs) - 1
    ensures last >= 1
    ensures Walk(options, |rs|, last, false).isExhausted
  {
    ProductAtLeastLast(options, rs);
    WalkOnCombination(options, rs, last, false);
  }

  /** As written, an advance never raises the flag when the last stage
      offers a single option. */
  lemma AdvanceNeverRaisesFlag(p: Explorer, options: Oracle, rs: seq<int>)
    requires Tracks(p, options) && Sized(options, rs) && |rs| == |p.listings|
    requires p.optionStage == LastStage(p) && rs[|rs| - 1] == 1 && !p.isExhausted
    ensures !Advance(p, options, false).isExhausted
  {
    assert p.listings[LastStage(p)] == Some(options(LastStage(p), p.choices[..LastStage(p)]));
    OneOptionLastStageNeverExhausted(p, []);
    NextChoiceKeepsTracks(p, options);
    DiscoverFacts(NextChoice(p), options, rs, false);
  }

  /** As written, when the last stage offers a single option the flag is
      never raised, however long the driver goes on. */
  lemma WalkNeverEndsWhenLastStageHasOneOption(options: Oracle, rs: seq<int>, k: nat)
    requires Sized(options, rs) && |rs| >= 1 && rs[|rs| - 1] == 1
    ensures !Walk(options, |rs|, k, false).isExhausted
  {
    WalkTracks(options, rs, k, false);
  }

  // ---------------------------------------------------------------------
  // A worked walk

  /** Two stages whose listings are always ["a1", "a2"] and ["b1", "b2", "b3"]. */
  function TwoByThree(i: int, before: seq<Option<string>>): seq<string>
  {
    if i == 0 then ["a1", "a2"] else ["b1", "b2", "b3"]
  }

  /** Stages of two and three options: the walk visits six combinations, the
      flag raised on the sixth and on no earlier one. */
  lemma TwoByThreeEndsOnSixth()
    ensures forall k: nat :: k < 5 ==> !Walk(TwoByThree, 2, k, false).isExhausted
    ensures Walk(TwoByThree, 2, 5, false).isExhausted
  {
    var rs := [2, 3];
    assert Sized(TwoByThree, rs) by {
      forall i, p | 0 <= i < |rs|
        ensures |TwoByThree(i, p)| == rs[i] && rs[i] >= 1
        ensures Distinct(TwoByThree(i, p)) && "" !in TwoByThree(i, p)
      {
      }
    }
    assert Product(rs) == 6 by {
      assert rs[..1] == [2] && [2][..0] == [];
    }
    forall k: nat | k < 5
      ensures !Walk(TwoByThree, 2, k, false).isExhausted
    {
      WalkVisitsInOrder(TwoByThree, rs, k, false);
    }
    WalkEndsWhenLastStageHasTwoOptions(TwoByThree, rs, 5);
  }
}
