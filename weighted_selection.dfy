/** Weighted selection of one element from a single pass over a sequence:
    the Random and RandomOrDefault overloads that take a weight selector.
    Each element is accepted with probability weight / totalWeight, where
    totalWeight is the running sum of the weights seen so far, and an
    accepted element replaces the held candidate.

    Weights and probabilities are real numbers here (the float and double
    roundings of the C# code are not modelled). The generator is modelled
    by the values its NextSingle() / NextDouble() calls return, in order:
    draws[i] is the draw made for the element at position i. */
module WeightedSelection {
  import opened Outcomes

  /** Unity's Mathf.Clamp01. */
  function Clamp01(value: real): (r: real)
    ensures 0.0 <= r <= 1.0
    ensures 0.0 <= value <= 1.0 ==> r == value
  {
    if value < 0.0 then 0.0 else if value > 1.0 then 1.0 else value
  }

  /** Unity's Mathf.InverseLerp: where value lies between a and b, as a
      fraction clamped to [0, 1]; 0 when the interval is empty. */
  function InverseLerp(a: real, b: real, value: real): (r: real)
    ensures 0.0 <= r <= 1.0
    ensures a != b && a <= value <= b ==> r == (value - a) / (b - a)
  {
    if a != b then
      if a <= value <= b then RatioInUnit(value - a, b - a); Clamp01((value - a) / (b - a))
      else Clamp01((value - a) / (b - a))
    else 0.0
  }

  /** A part of a positive whole is a fraction in [0, 1]. */
  lemma RatioInUnit(part: real, whole: real)
    requires 0.0 <= part <= whole && whole > 0.0
    ensures 0.0 <= part / whole <= 1.0
  {
    assert part / whole * whole == part;
  }

  /** The contract of NextSingle() / NextDouble(): every draw lies in [0, 1). */
  predicate DrawsInUnitInterval(draws: seq<real>)
  {
    forall i :: 0 <= i < |draws| ==> 0.0 <= draws[i] < 1.0
  }

  /** Weights are not negative: the algorithm defines no behaviour for a
      negative weight. */
  predicate NonNegativeWeights<T>(s: seq<T>, weight: T -> real)
  {
    forall i :: 0 <= i < |s| ==> weight(s[i]) >= 0.0
  }

  /** The sum of the weights of the first k elements: totalWeight after the
      loop has seen k elements. */
  function TotalWeight<T>(s: seq<T>, weight: T -> real, k: nat): (r: real)
    requires k <= |s|
    ensures NonNegativeWeights(s, weight) && k > 0 ==> r >= weight(s[k - 1])
  {
    if k == 0 then 0.0 else TotalWeight(s, weight, k - 1) + weight(s[k - 1])
  }

  /** The acceptance probability of the element at position i: its weight
      as a fraction of the running total that includes it. */
  function AcceptanceAt<T>(s: seq<T>, weight: T -> real, i: nat): (r: real)
    requires i < |s|
    ensures 0.0 <= r <= 1.0
    ensures weight(s[i]) == 0.0 ==> r == 0.0
  {
    InverseLerp(0.0, TotalWeight(s, weight, i + 1), weight(s[i]))
  }

  /** The draw for position i falls below its acceptance probability. */
  predicate Accepted<T>(s: seq<T>, weight: T -> real, draws: seq<real>, i: nat)
    requires i < |s| && i < |draws|
  {
    draws[i] < AcceptanceAt(s, weight, i)
  }

  /** The last of the first k positions whose element was accepted, or -1
      when none was: the element there is the one the loop holds. */
  function LastAccepted<T>(s: seq<T>, weight: T -> real, draws: seq<real>, k: nat): (r: int)
    requires k <= |s| && k <= |draws|
    ensures -1 <= r < k
    ensures r >= 0 ==> Accepted(s, weight, draws, r)
    ensures forall j :: r < j < k ==> !Accepted(s, weight, draws, j)
  {
    if k == 0 then -1
    else if Accepted(s, weight, draws, k - 1) then k - 1
    else LastAccepted(s, weight, draws, k - 1)
  }

  /** The running total never decreases and stays non-negative. */
  lemma {:induction false} TotalWeightMonotone<T>(s: seq<T>, weight: T -> real, j: nat, k: nat)
    requires NonNegativeWeights(s, weight) && j <= k <= |s|
    ensures 0.0 <= TotalWeight(s, weight, j) <= TotalWeight(s, weight, k)
    decreases k
  {
    if k > 0 {
      if j < k {
        TotalWeightMonotone(s, weight, j, k - 1);
      } else {
        TotalWeightMonotone(s, weight, 0, k - 1);
      }
    }
  }

  /** The acceptance of element i is w_i / total_i, the running total that
      includes it; it is 0 while that total is 0. Hence a zero weight is
      never accepted and a first positive weight is always accepted. */
  lemma AcceptanceIsWeightShare<T>(s: seq<T>, weight: T -> real, i: nat)
    requires NonNegativeWeights(s, weight) && i < |s|
    ensures TotalWeight(s, weight, i + 1) > 0.0 ==>
              AcceptanceAt(s, weight, i) == weight(s[i]) / TotalWeight(s, weight, i + 1)
    ensures TotalWeight(s, weight, i + 1) == 0.0 ==> AcceptanceAt(s, weight, i) == 0.0
    ensures weight(s[i]) == 0.0 ==> AcceptanceAt(s, weight, i) == 0.0
    ensures weight(s[i]) > 0.0 && TotalWeight(s, weight, i) == 0.0 ==> AcceptanceAt(s, weight, i) == 1.0
  {
    TotalWeightMonotone(s, weight, 0, i);
    var w, total := weight(s[i]), TotalWeight(s, weight, i + 1);
    assert total == TotalWeight(s, weight, i) + w;
    if total > 0.0 {
      assert 0.0 <= w <= total;
    }
  }

  /** A zero weight is never accepted, since every draw is at least 0: an
      accepted element has a positive weight. */
  lemma AcceptedWeightIsPositive<T>(s: seq<T>, weight: T -> real, draws: seq<real>, i: nat)
    requires NonNegativeWeights(s, weight) && DrawsInUnitInterval(draws)
    requires i < |s| && i < |draws|
    ensures Accepted(s, weight, draws, i) ==> weight(s[i]) > 0.0
  {
    AcceptanceIsWeightShare(s, weight, i);
  }

  /** The first element with a positive weight (every earlier weight is 0)
      has acceptance w / w = 1, so every draw in [0, 1) accepts it. */
  lemma FirstPositiveWeightIsAccepted<T>(s: seq<T>, weight: T -> real, draws: seq<real>, i: nat)
    requires NonNegativeWeights(s, weight) && DrawsInUnitInterval(draws)
    requires i < |s| && i < |draws|
    requires weight(s[i]) > 0.0 && TotalWeight(s, weight, i) == 0.0
    ensures Accepted(s, weight, draws, i)
  {
    AcceptanceIsWeightShare(s, weight, i);
  }

  /** The flag-versus-count distinction: nothing among the first k elements
      is accepted exactly when all of their weights are 0, which a
      non-empty sequence can satisfy. */
  lemma {:induction false} NothingAcceptedIffAllZero<T>(s: seq<T>, weight: T -> real, draws: seq<real>, k: nat)
    requires NonNegativeWeights(s, weight) && DrawsInUnitInterval(draws)
    requires k <= |s| && k <= |draws|
    ensures LastAccepted(s, weight, draws, k) < 0 <==> forall j :: 0 <= j < k ==> weight(s[j]) == 0.0
    ensures LastAccepted(s, weight, draws, k) < 0 ==> TotalWeight(s, weight, k) == 0.0
  {
    if k > 0 {
      NothingAcceptedIffAllZero(s, weight, draws, k - 1);
      AcceptanceIsWeightShare(s, weight, k - 1);
      TotalWeightMonotone(s, weight, 0, k - 1);
    }
  }

  /** The chance that element i is accepted and then survives every later
      element: AcceptanceAt(i) times the product over later positions j of
      1 - AcceptanceAt(j), for independent draws. */
  function SelectionProbability<T>(s: seq<T>, weight: T -> real, i: nat): real
    requires i < |s|
  {
    AcceptanceAt(s, weight, i) * Survival(s, weight, i + 1, |s|)
  }

  /** The product over positions lo .. hi - 1 of 1 - AcceptanceAt(j): the
      chance that none of them replaces the candidate. */
  function Survival<T>(s: seq<T>, weight: T -> real, lo: nat, hi: nat): real
    requires lo <= hi <= |s|
    decreases hi - lo
  {
    if lo == hi then 1.0 else (1.0 - AcceptanceAt(s, weight, lo)) * Survival(s, weight, lo + 1, hi)
  }

  /** Each later element keeps the candidate with chance total_j / total_j+1,
      so the survival over lo .. hi - 1 telescopes to total_lo / total_hi. */
  lemma {:induction false} SurvivalTelescopes<T>(s: seq<T>, weight: T -> real, lo: nat, hi: nat)
    requires NonNegativeWeights(s, weight) && lo <= hi <= |s|
    requires TotalWeight(s, weight, lo) > 0.0
    ensures TotalWeight(s, weight, hi) >= TotalWeight(s, weight, lo)
    ensures Survival(s, weight, lo, hi) == TotalWeight(s, weight, lo) / TotalWeight(s, weight, hi)
    decreases hi - lo
  {
    TotalWeightMonotone(s, weight, lo, hi);
    if lo < hi {
      var before, after, last := TotalWeight(s, weight, lo), TotalWeight(s, weight, lo + 1), TotalWeight(s, weight, hi);
      TotalWeightMonotone(s, weight, lo, lo + 1);
      TotalWeightMonotone(s, weight, lo + 1, hi);
      AcceptanceIsWeightShare(s, weight, lo);
      SurvivalTelescopes(s, weight, lo + 1, hi);
      KeepShare(before, weight(s[lo]), after);
      var keep, rest := 1.0 - AcceptanceAt(s, weight, lo), Survival(s, weight, lo + 1, hi);
      assert keep == before / after;
      assert rest == after / last;
      assert Survival(s, weight, lo, hi) == keep * rest;
      ChainRatio(before, after, last);
    } else {
      SelfRatio(TotalWeight(s, weight, lo));
    }
  }

  /** t / t == 1. */
  lemma SelfRatio(t: real)
    requires t > 0.0
    ensures t / t == 1.0
  {
  }

  /** 1 - w / (t + w) == t / (t + w). */
  lemma KeepShare(t: real, w: real, total: real)
    requires total == t + w && total > 0.0
    ensures 1.0 - w / total == t / total
  {
    var keep := 1.0 - w / total;
    assert w / total * total == w;
    assert keep * total == total - w;
    assert keep * total == t;
    assert keep == t / total;
  }

  /** (a / b) * (b / c) == a / c. */
  lemma ChainRatio(a: real, b: real, c: real)
    requires b > 0.0 && c > 0.0
    ensures (a / b) * (b / c) == a / c
  {
  }

  /** The closed form of weighted selection: element i ends up selected with
      probability w_i / total, its share of the sum of all weights, as the
      A/B/C walk-through in the documentation describes. */
  lemma WeightedSelectionIsProportional<T>(s: seq<T>, weight: T -> real, i: nat)
    requires NonNegativeWeights(s, weight) && i < |s|
    requires TotalWeight(s, weight, |s|) > 0.0
    ensures SelectionProbability(s, weight, i) == weight(s[i]) / TotalWeight(s, weight, |s|)
  {
    AcceptanceIsWeightShare(s, weight, i);
    TotalWeightMonotone(s, weight, i + 1, |s|);
    var at, total := TotalWeight(s, weight, i + 1), TotalWeight(s, weight, |s|);
    if at > 0.0 {
      SurvivalTelescopes(s, weight, i + 1, |s|);
      ChainRatio(weight(s[i]), at, total);
    } else {
      TotalWeightMonotone(s, weight, i, i + 1);
    }
  }

  /** An instance of WeightedSelectionIsProportional: three elements A, B, C
      with weights 1, 1 and 2 are selected with probabilities 1/4, 1/4 and
      1/2. */
  lemma ThreeElementExample(s: seq<char>, weight: char -> real)
    requires s == ['A', 'B', 'C']
    requires weight('A') == 1.0 && weight('B') == 1.0 && weight('C') == 2.0
    ensures SelectionProbability(s, weight, 0) == 0.25
    ensures SelectionProbability(s, weight, 1) == 0.25
    ensures SelectionProbability(s, weight, 2) == 0.5
  {
    assert weight(s[0]) == 1.0 && weight(s[1]) == 1.0 && weight(s[2]) == 2.0;
    assert TotalWeight(s, weight, 1) == 1.0;
    assert TotalWeight(s, weight, 2) == 2.0;
    assert TotalWeight(s, weight, 3) == 4.0;
    WeightedSelectionIsProportional(s, weight, 0);
    WeightedSelectionIsProportional(s, weight, 1);
    WeightedSelectionIsProportional(s, weight, 2);
  }

  /** The foreach loop shared by the four weighted overloads: add each weight
      to the running total and replace the held candidate when the draw falls
      below the element's share of that total. The strict overloads also keep
      isAnySelected; the OrDefault overloads keep no flag and ignore it. */
  method WeightedScan<T>(source: seq<T>, weight: T -> real, draws: seq<real>, dflt: T)
    returns (current: T, totalWeight: real, isAnySelected: bool)
    requires |draws| == |source|
    ensures totalWeight == TotalWeight(source, weight, |source|)
    ensures isAnySelected <==> LastAccepted(source, weight, draws, |source|) >= 0
    ensures var k := LastAccepted(source, weight, draws, |source|);
              current == if k >= 0 then source[k] else dflt
  {
    current, totalWeight, isAnySelected := dflt, 0.0, false;
    for i := 0 to |source|
      invariant totalWeight == TotalWeight(source, weight, i)
      invariant isAnySelected <==> LastAccepted(source, weight, draws, i) >= 0
      invariant var k := LastAccepted(source, weight, draws, i);
                  current == if k >= 0 then source[k] else dflt
    {
      var element := source[i];
      var w := weight(element);
      totalWeight := totalWeight + w;
      var weightPercent := InverseLerp(0.0, totalWeight, w);
      if draws[i] < weightPercent {
        current := element;
        isAnySelected := true;
      }
    }
  }

  /** The four weighted overloads: RandomOrDefault(weightSelector) and
      Random(weightSelector) draw from the shared generator (`random` is
      Shared), the overloads with a Random argument from it (`random` is
      Explicit); `policy` says what a pass that accepted nothing gives. */
  method SelectWeighted<T>(source: Nullable<seq<T>>, weightSelector: Nullable<T -> real>, random: RandomArg,
                           policy: EmptyPolicy, dflt: T, draws: seq<real>)
    returns (r: Result<T>)
    requires source.NonNull? ==> |draws| == |source.value|
    requires DrawsInUnitInterval(draws)
    requires source.NonNull? && weightSelector.NonNull? && random != Explicit(true) ==>
               NonNegativeWeights(source.value, weightSelector.value)
    ensures source.Null? ==> r == Err(ArgumentNull("source"))
    ensures source.NonNull? && weightSelector.Null? ==> r == Err(ArgumentNull("weightSelector"))
    ensures source.NonNull? && weightSelector.NonNull? && random == Explicit(true) ==> r == Err(ArgumentNull("random"))
    ensures source.NonNull? && weightSelector.NonNull? && random != Explicit(true) ==>
              var s, w := source.value, weightSelector.value;
              var k := LastAccepted(s, w, draws, |s|);
              && (k >= 0 ==> r == Ok(s[k]) && w(s[k]) > 0.0)
              && (k < 0 ==> r == if policy == OrDefault then Ok(dflt) else Err(InvalidOperation(SequenceWasEmpty)))
              && (k < 0 <==> forall j :: 0 <= j < |s| ==> w(s[j]) == 0.0)
  {
    if source.Null? {
      return Err(ArgumentNull("source"));
    }
    if weightSelector.Null? {
      return Err(ArgumentNull("weightSelector"));
    }
    if random == Explicit(true) {
      return Err(ArgumentNull("random"));
    }
    var s, w := source.value, weightSelector.value;
    var current, totalWeight, isAnySelected := WeightedScan(s, w, draws, dflt);
    NothingAcceptedIffAllZero(s, w, draws, |s|);
    var k := LastAccepted(s, w, draws, |s|);
    if k >= 0 {
      AcceptedWeightIsPositive(s, w, draws, k);
    }
    if policy == OrDefault {
      r := Ok(current);
    } else if !isAnySelected {
      r := Err(InvalidOperation(SequenceWasEmpty));
    } else {
      r := Ok(current);
    }
  }
}
