/**
 * Small failure-carrying datatypes shared by the rest of the model, and the
 * one way of running through a list of outcomes that the table reader uses.
 */
module Common {

  /** A value that may be absent; `None` also stands for JavaScript's `undefined`. */
  datatype Option<+T> = None | Some(value: T)

  /** Either a computed value or the reason the computation stopped. */
  datatype Result<+T, +E> = Success(value: T) | Failure(error: E)

  predicate StrictlyIncreasing(xs: seq<nat>) {
    forall i, j :: 0 <= i < j < |xs| ==> xs[i] < xs[j]
  }

  /** The outcome is a success that carries a value. */
  predicate HasValue<T, E>(x: Result<Option<T>, E>) {
    x.Success? && x.value.Some?
  }

  /**
   * Runs through the outcomes in order: a failure ends the run with that
   * failure, `Success(None)` contributes nothing and `Success(Some(v))`
   * contributes `v`.
   */
  function Collect<T, E>(outcomes: seq<Result<Option<T>, E>>): (r: Result<seq<T>, E>)
    ensures r.Success? ==> |r.value| <= |outcomes|
    decreases |outcomes|
  {
    if |outcomes| == 0 then Success([])
    else
      match Collect(outcomes[..|outcomes| - 1])
      case Failure(e) => Failure(e)
      case Success(vs) =>
        match outcomes[|outcomes| - 1]
        case Failure(e) => Failure(e)
        case Success(None) => Success(vs)
        case Success(Some(v)) => Success(vs + [v])
  }

  /** The positions of the outcomes that carry a value, ascending. */
  function Present<T, E>(outcomes: seq<Result<Option<T>, E>>): (r: seq<nat>)
    ensures StrictlyIncreasing(r)
    ensures forall k :: 0 <= k < |r| ==> r[k] < |outcomes| && HasValue(outcomes[r[k]])
    ensures forall i :: 0 <= i < |outcomes| && HasValue(outcomes[i]) ==> i in r
    decreases |outcomes|
  {
    if |outcomes| == 0 then []
    else
      var prefix := outcomes[..|outcomes| - 1];
      var earlier := Present(prefix);
      assert forall i :: 0 <= i < |prefix| ==> prefix[i] == outcomes[i];
      if HasValue(outcomes[|outcomes| - 1]) then
        var r := earlier + [|outcomes| - 1];
        assert forall x :: x in earlier ==> x in r;
        r
      else earlier
  }

  /** The run fails exactly when one of the outcomes is a failure. */
  lemma {:induction false} CollectFails<T, E>(outcomes: seq<Result<Option<T>, E>>)
    ensures Collect(outcomes).Failure? <==> exists i :: 0 <= i < |outcomes| && outcomes[i].Failure?
    decreases |outcomes|
  {
    if |outcomes| > 0 {
      var prefix := outcomes[..|outcomes| - 1];
      CollectFails(prefix);
      if Collect(prefix).Failure? {
        var i :| 0 <= i < |prefix| && prefix[i].Failure?;
        assert outcomes[i] == prefix[i];
      }
      if exists i :: 0 <= i < |outcomes| - 1 && outcomes[i].Failure? {
        var i :| 0 <= i < |outcomes| - 1 && outcomes[i].Failure?;
        assert prefix[i] == outcomes[i];
      }
    }
  }

  /**
   * A run without failures returns the carried values, one per outcome that
   * carries one, in the order of the outcomes.
   */
  lemma {:induction false} CollectInOrder<T, E>(outcomes: seq<Result<Option<T>, E>>)
    requires Collect(outcomes).Success?
    ensures |Collect(outcomes).value| == |Present(outcomes)|
    ensures forall k :: 0 <= k < |Present(outcomes)| ==>
              Collect(outcomes).value[k] == outcomes[Present(outcomes)[k]].value.value
    decreases |outcomes|
  {
    if |outcomes| > 0 {
      var n := |outcomes| - 1;
      var prefix := outcomes[..n];
      CollectInOrder(prefix);
      var vs := Collect(prefix).value;
      var earlier := Present(prefix);
      var all := Collect(outcomes).value;
      var positions := Present(outcomes);
      if HasValue(outcomes[n]) {
        assert all == vs + [outcomes[n].value.value];
        assert positions == earlier + [n];
      } else {
        assert all == vs;
        assert positions == earlier;
      }
      forall k | 0 <= k < |positions|
        ensures all[k] == outcomes[positions[k]].value.value
      {
        if k < |earlier| {
          assert positions[k] == earlier[k];
          assert prefix[earlier[k]] == outcomes[earlier[k]];
        }
      }
    }
  }

  /** Outcomes that all carry nothing collect to nothing. */
  lemma {:induction false} CollectNothing<T, E>(outcomes: seq<Result<Option<T>, E>>)
    requires forall i :: 0 <= i < |outcomes| ==> outcomes[i] == Success(None)
    ensures Collect(outcomes) == Success([])
    decreases |outcomes|
  {
    if |outcomes| > 0 {
      var prefix := outcomes[..|outcomes| - 1];
      assert forall i :: 0 <= i < |prefix| ==> prefix[i] == outcomes[i];
      CollectNothing(prefix);
    }
  }
}
