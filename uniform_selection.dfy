/** Uniform selection of one element from a single pass over a sequence
    (reservoir sampling of size one): the Random and RandomOrDefault
    overloads without a weight selector.

    The generator is modelled by the values its Next(count) calls return, in
    order: draws[i] is the result of Next(i + 1) for the element at position
    i. */
module UniformSelection {
  import opened Outcomes

  /** The contract of Random.Next(count): the i-th draw, made with count
      i + 1, lies in [0, i + 1). */
  predicate NextInRange(draws: seq<nat>)
  {
    forall i :: 0 <= i < |draws| ==> draws[i] <= i
  }

  /** The position of the last zero draw, or -1 when no draw is zero: the
      element there is the one the loop holds at the end. */
  function LastZero(draws: seq<nat>): (r: int)
    ensures -1 <= r < |draws|
    ensures r >= 0 ==> draws[r] == 0
    ensures forall j :: r < j < |draws| ==> draws[j] != 0
  {
    if draws == [] then -1
    else if draws[|draws| - 1] == 0 then |draws| - 1
    else LastZero(draws[..|draws| - 1])
  }

  /** One more draw: a zero moves the choice to the new position, anything
      else keeps the previous choice. */
  lemma LastZeroSnoc(prefix: seq<nat>, x: nat)
    ensures LastZero(prefix + [x]) == if x == 0 then |prefix| else LastZero(prefix)
  {
    assert (prefix + [x])[..|prefix|] == prefix;
  }

  /** Next(1) can only return 0, so the first element is always taken and a
      non-empty pass always ends holding one of its elements. */
  lemma FirstElementIsTaken(draws: seq<nat>)
    requires NextInRange(draws) && |draws| > 0
    ensures 0 <= LastZero(draws) < |draws|
  {
    assert draws[0] == 0;
  }

  /** The element the loop holds after consuming the elements whose draws
      are given: the element at the last zero draw, or the initial
      default(TSource) when no draw was zero. */
  function Held<T>(source: seq<T>, draws: seq<nat>, dflt: T): (r: T)
    requires |draws| <= |source|
    ensures r == dflt || r in source[..|draws|]
    ensures NextInRange(draws) && |draws| > 0 ==> r in source[..|draws|]
  {
    assert NextInRange(draws) && |draws| > 0 ==> draws[0] == 0;
    var k := LastZero(draws);
    if k < 0 then dflt else source[k]
  }

  /** The foreach loop shared by the four uniform overloads: count the
      elements and replace the held candidate whenever Next(count) is 0. */
  method UniformScan<T>(source: seq<T>, draws: seq<nat>, dflt: T) returns (current: T, count: nat)
    requires |draws| == |source|
    ensures count == |source|
    ensures current == Held(source, draws, dflt)
    ensures NextInRange(draws) && |source| > 0 ==> current in source
  {
    current, count := dflt, 0;
    for i := 0 to |source|
      invariant count == i
      invariant current == Held(source, draws[..i], dflt)
    {
      count := count + 1;
      assert draws[..i + 1] == draws[..i] + [draws[i]];
      LastZeroSnoc(draws[..i], draws[i]);
      if draws[count - 1] == 0 {
        current := source[i];
      }
    }
    assert draws[..|source|] == draws;
    if NextInRange(draws) && |source| > 0 {
      FirstElementIsTaken(draws);
    }
  }

  /** The four uniform overloads: RandomOrDefault() and Random() draw from the
      shared generator (`random` is Shared), RandomOrDefault(Random) and
      Random(Random) from their argument (`random` is Explicit); `policy`
      says what an empty sequence gives. */
  method SelectUniform<T>(source: Nullable<seq<T>>, random: RandomArg, policy: EmptyPolicy, dflt: T, draws: seq<nat>)
    returns (r: Result<T>)
    requires source.NonNull? ==> |draws| == |source.value|
    requires NextInRange(draws)
    ensures source.Null? ==> r == Err(ArgumentNull("source"))
    ensures source.NonNull? && random == Explicit(true) ==> r == Err(ArgumentNull("random"))
    ensures source.NonNull? && random != Explicit(true) && |source.value| == 0 ==>
              r == if policy == OrDefault then Ok(dflt) else Err(InvalidOperation(SequenceWasEmpty))
    ensures source.NonNull? && random != Explicit(true) && |source.value| > 0 ==>
              0 <= LastZero(draws) < |source.value| && r == Ok(source.value[LastZero(draws)])
    ensures source.NonNull? && random != Explicit(true) ==>
              (r.Err? <==> policy == Throw && |source.value| == 0)
  {
    if source.Null? {
      return Err(ArgumentNull("source"));
    }
    if random == Explicit(true) {
      return Err(ArgumentNull("random"));
    }
    var current, count := UniformScan(source.value, draws, dflt);
    if count == 0 {
      r := if policy == OrDefault then Ok(dflt) else Err(InvalidOperation(SequenceWasEmpty));
    } else {
      FirstElementIsTaken(draws);
      r := Ok(current);
    }
  }
}
