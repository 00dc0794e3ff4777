/** Searching sequences for the first element with a property. */
module Seqs {
  import opened Outcomes

  /** The index of the first element at or after `from` that satisfies `p`,
      the way a Rust `iter().skip(from)` loop that breaks on a match finds it. */
  function FirstMatch<T>(xs: seq<T>, p: T -> bool, from: nat): (r: Option<nat>)
    ensures r.Some? ==> from <= r.value < |xs| && p(xs[r.value])
    ensures r.Some? ==> forall j :: from <= j < r.value ==> !p(xs[j])
    ensures r.None? ==> forall j :: from <= j < |xs| ==> !p(xs[j])
    decreases |xs| - from
  {
    if from >= |xs| then None
    else if p(xs[from]) then Some(from)
    else FirstMatch(xs, p, from + 1)
  }

  /** An index that satisfies `p` with nothing before it (from `from` on)
      doing so is the one the search finds. */
  lemma FirstMatchAt<T>(xs: seq<T>, p: T -> bool, from: nat, i: nat)
    requires from <= i < |xs| && p(xs[i])
    requires forall j :: from <= j < i ==> !p(xs[j])
    ensures FirstMatch(xs, p, from) == Some(i)
  {
  }

  /** Applies `f` to each element in order and collects the results,
      stopping at the first failure, the way a loop using `?` does. */
  function TryMap<A, B, E>(xs: seq<A>, f: A -> Result<B, E>): (r: Result<seq<B>, E>)
    ensures r.Ok? <==> forall k :: 0 <= k < |xs| ==> f(xs[k]).Ok?
    ensures r.Ok? ==> |r.value| == |xs| && forall k :: 0 <= k < |xs| ==> r.value[k] == f(xs[k]).value
    ensures r.Err? ==> exists k :: 0 <= k < |xs| && f(xs[k]) == Err(r.error)
                                  && forall j :: 0 <= j < k ==> f(xs[j]).Ok?
    decreases |xs|
  {
    if |xs| == 0 then Ok([])
    else
      match f(xs[0])
      case Err(e) => Err(e)
      case Ok(y) =>
        var more := TryMap(xs[1..], f);
        assert forall j :: 1 <= j < |xs| ==> xs[j] == xs[1..][j - 1];
        match more
        case Err(e) => Err(e)
        case Ok(ys) => Ok([y] + ys)
  }
}
