/** The linear-scan extensions: IndexOf by predicate and by item, and
    MaxOrDefault. */
module Search {
  import opened Outcomes

  /** The index of the first element of s that satisfies p, or -1 when none
      does: the value the predicate overload of IndexOf computes. */
  function FirstIndex<T>(s: seq<T>, p: T -> bool): (r: int)
    ensures -1 <= r < |s|
    ensures r >= 0 ==> p(s[r])
    ensures forall j :: 0 <= j < |s| && (r < 0 || j < r) ==> !p(s[j])
  {
    if s == [] then -1
    else if p(s[0]) then 0
    else
      var k := FirstIndex(s[1..], p);
      assert forall j :: 1 <= j < |s| ==> s[j] == s[1..][j - 1];
      if k < 0 then -1 else k + 1
  }

  /** IndexOf(source, predicate), with the delegate as `pred`: null checks in
      parameter order, then a scan that stops at the first element the
      delegate accepts. */
  method IndexOf<T>(source: Nullable<seq<T>>, pred: Nullable<T -> bool>) returns (r: Result<int>)
    ensures source.Null? ==> r == Err(ArgumentNull("source"))
    ensures source.NonNull? && pred.Null? ==> r == Err(ArgumentNull("predicate"))
    ensures source.NonNull? && pred.NonNull? ==>
              var s, p := source.value, pred.value;
              && r.Ok? && -1 <= r.value < |s|
              && (r.value >= 0 ==> p(s[r.value]))
              && (forall j :: 0 <= j < |s| && (r.value < 0 || j < r.value) ==> !p(s[j]))
              && r.value == FirstIndex(s, p)
  {
    if source.Null? {
      return Err(ArgumentNull("source"));
    }
    if pred.Null? {
      return Err(ArgumentNull("predicate"));
    }
    var s, p := source.value, pred.value;
    var index := 0;
    while index < |s|
      invariant 0 <= index <= |s|
      invariant forall j :: 0 <= j < index ==> !p(s[j])
    {
      if p(s[index]) {
        return Ok(index);
      }
      index := index + 1;
    }
    return Ok(-1);
  }

  /** IndexOf(source, item): the predicate overload with the predicate
      "equals item". A source that is an IList answers through its own
      IndexOf, which finds the same first position. */
  function IndexOfItem<T(==)>(source: Nullable<seq<T>>, item: T): (r: Result<int>)
    ensures source.Null? ==> r == Err(ArgumentNull("source"))
    ensures source.NonNull? ==> r.Ok? && -1 <= r.value < |source.value|
    ensures source.NonNull? && r.Ok? && r.value >= 0 ==>
              source.value[r.value] == item && item !in source.value[..r.value]
    ensures source.NonNull? && r.Ok? ==> (r.value == -1 <==> item !in source.value)
  {
    if source.Null? then Err(ArgumentNull("source"))
    else Ok(FirstIndex(source.value, x => x == item))
  }

  /** Enumerable.Max(selector) on a non-empty sequence: the largest selected
      value. */
  function Max<T>(s: seq<T>, selector: T -> int): (m: int)
    requires |s| > 0
    ensures exists i :: 0 <= i < |s| && m == selector(s[i])
    ensures forall i :: 0 <= i < |s| ==> selector(s[i]) <= m
  {
    if |s| == 1 then selector(s[0])
    else
      var rest := Max(s[1..], selector);
      assert forall j :: 1 <= j < |s| ==> s[j] == s[1..][j - 1];
      if selector(s[0]) >= rest then selector(s[0]) else rest
  }

  /** MaxOrDefault(source, selector), for both the int and the long
      overload: 0 on an empty sequence, the largest selected value otherwise. */
  function MaxOrDefault<T>(source: Nullable<seq<T>>, selector: Nullable<T -> int>): (r: Result<int>)
    ensures source.Null? ==> r == Err(ArgumentNull("source"))
    ensures source.NonNull? && selector.Null? ==> r == Err(ArgumentNull("selector"))
    ensures source.NonNull? && selector.NonNull? && source.value == [] ==> r == Ok(0)
    ensures source.NonNull? && selector.NonNull? && source.value != [] ==>
              var s, f := source.value, selector.value;
              && r.Ok?
              && (exists i :: 0 <= i < |s| && r.value == f(s[i]))
              && (forall i :: 0 <= i < |s| ==> f(s[i]) <= r.value)
  {
    if source.Null? then Err(ArgumentNull("source"))
    else if selector.Null? then Err(ArgumentNull("selector"))
    else if |source.value| > 0 then Ok(Max(source.value, selector.value))
    else Ok(0)
  }
}
