# LinqExtensions: single-pass selection and search, modelled in Dafny

This project models the static class `LinqExtensions` of UnityRandomLinq.
That class holds sequence extensions for a Unity code base. Its core is
random selection of one element in a single forward pass over a sequence
whose length is not known in advance:

- **Uniform selection** (reservoir sampling of size one): the overloads
  `RandomOrDefault()`, `RandomOrDefault(Random)`, `Random()` and `Random(Random)`.
  The loop counts the elements. Whenever `Next(count)` returns 0, the current
  element replaces the held candidate.
- **Weighted selection**: the four overloads that take a `weightSelector`.
  The loop keeps a running `totalWeight`. Each element is accepted, and so
  replaces the candidate, when its draw falls below `weight / totalWeight`.
  The strict overloads also track an `isAnySelected` flag.

Beside those it holds two linear scans: `IndexOf` (by predicate and by item)
and `MaxOrDefault` (int and long).

How the model is built:

- **Overloads.** The eight selection overloads become two methods,
  `SelectUniform` and `SelectWeighted`. An `EmptyPolicy` argument picks
  between `OrDefault` (return `default(TSource)`, passed in as `dflt`) and
  `Throw` (throw `InvalidOperationException("Sequence was empty")`).
- **Generator.** A `RandomArg` says where the draws come from: the shared
  thread-local generator (`Shared`, never null) or an explicit `Random`
  argument (`Explicit`, which may be null).
- **Randomness.** The random numbers are a caller-supplied sequence of draws,
  one per element:
  - uniform: `draws[i]` is what `Next(i + 1)` returned, so it lies in `[0, i + 1)`;
  - weighted: `draws[i]` is what `NextSingle()` or `NextDouble()` returned, a
    real in `[0, 1)`.
- **Results and nulls.** A null reference is a `Nullable` value. An exception
  is an `Err` result: `ArgumentNull(paramName)` or `InvalidOperation(message)`.
- **Loops.** Each selection loop is a method with a loop and invariants:
  `UniformScan` and `WeightedScan`. It is proved against a specification
  function: `LastZero`, or `LastAccepted` with `TotalWeight`.
- **Distribution.**
  - Uniform: a counting lemma shows fairness. Over all draw vectors that
    `Next` can produce, every position is selected by exactly (n-1)! of the
    n! vectors.
  - Weighted: a closed form. With independent draws, element `i` is accepted
    and then survives every later element with probability
    `w_i / sum of all weights`.

Files and modules:

- `outcomes.dfy` (`Outcomes`): nullable arguments, exceptions, results,
  policies.
- `search.dfy` (`Search`): `IndexOf`, `IndexOfItem`, `Max`, `MaxOrDefault`.
- `uniform_selection.dfy` (`UniformSelection`): the uniform loop and
  overloads.
- `uniform_fairness.dfy` (`UniformFairness`): the counting proof.
- `weighted_selection.dfy` (`WeightedSelection`): the weighted loop, the
  overloads and the closed form.

Modelling notes:

- The weighted `RandomOrDefault` overloads have no count check and no flag.
  They return whatever `current` holds, which is `default(TSource)` when
  nothing was accepted.
- In the model, `WeightedScan` computes `isAnySelected` for all four weighted
  overloads. Only the strict policy reads it.

## Model

| member | source | states |
|---|---|---|
| `Search.FirstIndex` | LinqExtensions.cs:84-95 | the result lies in [-1, length); a result i >= 0 satisfies the predicate and no earlier element does; -1 means no element does |
| `Search.IndexOf` | LinqExtensions.cs:72-96 | a null source throws ArgumentNull("source"), then a null predicate throws ArgumentNull("predicate"); otherwise the result is the smallest index whose element satisfies the predicate, or -1; it lies in [-1, length) |
| `Search.IndexOfItem` | LinqExtensions.cs:57-70 | a null source throws ArgumentNull("source"); otherwise the result lies in [-1, length), a result i >= 0 holds the item and the item does not occur before i, and the result is -1 exactly when the item is absent |
| `Search.Max` | LinqExtensions.cs:25 | on a non-empty sequence the result is the selected value of some element and is at least the selected value of every element |
| `Search.MaxOrDefault` | LinqExtensions.cs:9-55 | null source, then null selector, throw ArgumentNull; an empty sequence gives 0; otherwise the result is selector(x) for some element x and is >= selector(y) for every y |
| `UniformSelection.LastZero` | LinqExtensions.cs:110-117 | the position of the last zero draw, or -1: that position's draw is 0 and every later draw is not 0 |
| `UniformSelection.LastZeroSnoc` | LinqExtensions.cs:112-116 | one more draw moves the choice to the new position when it is 0 and keeps the previous choice otherwise |
| `UniformSelection.FirstElementIsTaken` | LinqExtensions.cs:112-116 | since Next(1) returns 0, a non-empty pass always selects a position in [0, n) |
| `UniformSelection.Held` | LinqExtensions.cs:108-117 | the candidate held after some elements is either the initial default or one of the elements consumed so far; with draws in range and at least one element consumed it is one of those elements |
| `UniformSelection.UniformScan` | LinqExtensions.cs:108-117 | after the loop count equals the length of the sequence, and current is the element at the last zero draw (default when there is none); with draws in range a non-empty sequence yields one of its own elements |
| `UniformSelection.SelectUniform` | LinqExtensions.cs:101-212 | null source, then a null explicit Random, throw ArgumentNull; an empty sequence gives default under OrDefault and throws "Sequence was empty" under Throw; a non-empty sequence gives the element at the last zero draw; an error other than a null argument occurs exactly when the policy is Throw and the length is 0 |
| `UniformFairness.DrawVectorsAreValid` | LinqExtensions.cs:113 | the draw vectors for n elements are exactly the length-n vectors whose i-th entry lies in [0, i + 1) |
| `UniformFairness.DrawVectorsCount` | LinqExtensions.cs:110-117 | a pass over n elements can see n! draw vectors |
| `UniformFairness.SelectingNewest` | LinqExtensions.cs:113-116 | the newest of n + 1 elements is selected exactly by the vectors whose last draw is 0 |
| `UniformFairness.SelectingEarlier` | LinqExtensions.cs:113-116 | an earlier position stays selected exactly by its earlier vectors extended with a non-zero last draw |
| `UniformFairness.UniformSelectionIsFair` | LinqExtensions.cs:98-117 | for every position i < n, exactly (n-1)! of the n * (n-1)! valid draw vectors select i, so every element is selected by the same number of vectors |
| `UniformFairness.EveryVectorSelects` | LinqExtensions.cs:110-117 | every valid draw vector for n > 0 elements selects one position in [0, n), so the selecting sets cover all vectors |
| `WeightedSelection.Clamp01` | LinqExtensions.cs:243 | the result lies in [0, 1] and is the value itself when the value already lies there |
| `WeightedSelection.InverseLerp` | LinqExtensions.cs:243 | the result lies in [0, 1]; for a value between distinct ends a and b it is (value - a) / (b - a) |
| `WeightedSelection.TotalWeight` | LinqExtensions.cs:238-242 | with non-negative weights the running totalWeight after k > 0 elements is at least the weight of the k-th element, so the current weight never exceeds the total it is divided by |
| `WeightedSelection.AcceptanceAt` | LinqExtensions.cs:243 | weightPercent lies in [0, 1], and an element of weight 0 has weightPercent 0 |
| `WeightedSelection.LastAccepted` | LinqExtensions.cs:239-248 | the last of the first k positions whose draw fell below its acceptance, or -1: that position was accepted and no later one was |
| `WeightedSelection.TotalWeightMonotone` | LinqExtensions.cs:241-242 | with non-negative weights the running total is non-negative and never decreases |
| `WeightedSelection.AcceptanceIsWeightShare` | LinqExtensions.cs:241-243 | the acceptance of element i is w_i / total_i when that total is positive and 0 when it is 0; a zero weight has acceptance 0; the first positive weight has acceptance w / w = 1 |
| `WeightedSelection.AcceptedWeightIsPositive` | LinqExtensions.cs:243-247 | a zero-weight element is never accepted, because every draw is >= 0; so an accepted element has a positive weight |
| `WeightedSelection.FirstPositiveWeightIsAccepted` | LinqExtensions.cs:218 | an element with positive weight whose predecessors all weigh 0 has acceptance 1, so every draw in [0, 1) accepts it |
| `WeightedSelection.NothingAcceptedIffAllZero` | LinqExtensions.cs:321-338 | nothing among the first k elements is accepted exactly when all their weights are 0, and then the running total is 0, so a non-empty all-zero sequence leaves the flag unset |
| `WeightedSelection.SurvivalTelescopes` | LinqExtensions.cs:222-223 | the chance that no element in lo .. hi - 1 replaces the candidate telescopes to total_lo / total_hi |
| `WeightedSelection.WeightedSelectionIsProportional` | LinqExtensions.cs:214-224 | with a positive total, element i is accepted and survives every later element with probability w_i / (sum of all weights) |
| `WeightedSelection.ThreeElementExample` | LinqExtensions.cs:217-220 | an instance of WeightedSelectionIsProportional: A, B, C with weights 1, 1, 2 are selected with probabilities 1/4, 1/4, 1/2 |
| `WeightedSelection.WeightedScan` | LinqExtensions.cs:320-333 | after the loop totalWeight is the sum of all weights, isAnySelected holds exactly when some element was accepted, and current is the last accepted element (default when none was) |
| `WeightedSelection.SelectWeighted` | LinqExtensions.cs:225-392 | null source, then null weightSelector, then a null explicit Random, throw ArgumentNull; otherwise the last accepted element is returned and has positive weight; when none was accepted OrDefault returns default and Throw throws "Sequence was empty"; nothing is accepted exactly when every weight is 0 |

## Left out

- `ThreadSafeRandom` (the lock-guarded seed generator, the per-thread
  `Random` instances and `Mathf.Lerp`) is not modelled. Its concurrency has
  no counterpart in a sequential model. Its visible contract is a
  precondition on the supplied draws:
  - `Next(count)` lies in `[0, count)`;
  - `NextSingle()` and `NextDouble()` lie in `[0, 1)`.
- Probability is not modelled as such. Uniform fairness is stated by counting
  draw vectors. The weighted distribution is stated as a product of
  acceptance and survival terms. Independence of the draws is assumed, not
  stated.
- Floating point is not modelled. This covers `double` accumulation,
  `(float)` casts, `NextSingle` versus `NextDouble`, and rounding in
  `Mathf.InverseLerp`. Weights and draws are reals.
  - `Mathf` is a Unity library that is not part of this model. `InverseLerp`
    and `Clamp01` follow Unity's published definitions.
  - Because of the casts, `NextSingle()` can round a double just below 1 up
    to `1.0f`. The model's draws stay strictly below 1, so it does not
    capture this.
- Negative weights are excluded by a precondition (`NonNegativeWeights`).
  The code does not guard against them, and their outcome is not defined.
- `IList<T>.IndexOf` dispatch in `IndexOf(item)` is treated as the same
  first-match linear scan. C# `Equals` is Dafny equality.
- Int and long overflow are not modelled. `Search.MaxOrDefault` is one
  function on mathematical integers and stands for both the `int` and the
  `long` overload. Indices are unbounded too.
- `MaxOrDefault` enumerates its source twice (`Any()` then `Max()`). A finite
  sequence value gives the same result both times, so the model reads it
  once.
- Lazy enumeration and delegate exceptions are not modelled. Sequences are
  finite values, delegates are total functions, and nothing propagates an
  exception out of a selector or predicate.
- The null checks are modelled by results: each method states an
  `ArgumentNull` result that does not depend on the elements or the draws.
  The model does not count how many elements were enumerated.
