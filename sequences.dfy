/**
 * Mapping a fallible step over a sequence, first to last, the way a
 * `forEach` whose callback may throw visits a list: the results in order,
 * or the failure of the first element whose step fails.
 */
module Sequences {
  import opened Wrappers

  function MapResult<A, B, E>(xs: seq<A>, f: A -> Result<B, E>): Result<seq<B>, E>
    decreases |xs|
  {
    if xs == [] then Ok([])
    else
      match MapResult(xs[..|xs| - 1], f)
      case Err(e) => Err(e)
      case Ok(ys) =>
        match f(xs[|xs| - 1])
        case Err(e) => Err(e)
        case Ok(y) => Ok(ys + [y])
  }

  /** The mapping succeeds exactly when every step does. */
  lemma {:induction false} MapResultOkIff<A, B, E>(xs: seq<A>, f: A -> Result<B, E>)
    ensures MapResult(xs, f).Ok? <==> forall i :: 0 <= i < |xs| ==> f(xs[i]).Ok?
    decreases |xs|
  {
    if xs != [] {
      var init := xs[..|xs| - 1];
      MapResultOkIff(init, f);
      assert forall i :: 0 <= i < |init| ==> init[i] == xs[i];
    }
  }

  /** On success the i-th result is the i-th step's. */
  lemma {:induction false} MapResultOkValues<A, B, E>(xs: seq<A>, f: A -> Result<B, E>)
    requires MapResult(xs, f).Ok?
    ensures |MapResult(xs, f).value| == |xs|
    ensures forall i :: 0 <= i < |xs| ==> f(xs[i]) == Ok(MapResult(xs, f).value[i])
    decreases |xs|
  {
    if xs != [] {
      var init := xs[..|xs| - 1];
      MapResultOkValues(init, f);
      assert forall i :: 0 <= i < |init| ==> init[i] == xs[i];
    }
  }

  /** On failure the error is that of the first step that fails. */
  lemma {:induction false} MapResultErrFirst<A, B, E>(xs: seq<A>, f: A -> Result<B, E>)
    requires MapResult(xs, f).Err?
    ensures exists k ::
      0 <= k < |xs| && f(xs[k]) == Err(MapResult(xs, f).error) &&
      (forall j :: 0 <= j < k ==> f(xs[j]).Ok?)
    decreases |xs|
  {
    var n := |xs|;
    var init := xs[..n - 1];
    assert forall i :: 0 <= i < n - 1 ==> init[i] == xs[i];
    if MapResult(init, f).Err? {
      MapResultErrFirst(init, f);
      var k :| 0 <= k < |init| && f(init[k]) == Err(MapResult(init, f).error) &&
        (forall j :: 0 <= j < k ==> f(init[j]).Ok?);
      assert f(xs[k]).Err?;
    } else {
      MapResultOkIff(init, f);
      assert f(xs[n - 1]).Err?;
    }
  }

  /** Once a prefix fails, the whole sequence fails with the same error. */
  lemma {:induction false} MapResultPrefixErr<A, B, E>(xs: seq<A>, f: A -> Result<B, E>, k: nat)
    requires k <= |xs|
    requires MapResult(xs[..k], f).Err?
    ensures MapResult(xs, f) == MapResult(xs[..k], f)
    decreases |xs| - k
  {
    if k < |xs| {
      var n := |xs|;
      assert xs[..n - 1][..k] == xs[..k];
      MapResultPrefixErr(xs[..n - 1], f, k);
    } else {
      assert xs[..k] == xs;
    }
  }

  /** A successful prefix extended by one successful step. */
  lemma MapResultSnoc<A, B, E>(xs: seq<A>, f: A -> Result<B, E>, i: nat, ys: seq<B>, y: B)
    requires i < |xs|
    requires MapResult(xs[..i], f) == Ok(ys)
    requires f(xs[i]) == Ok(y)
    ensures MapResult(xs[..i + 1], f) == Ok(ys + [y])
  {
    assert xs[..i + 1][..i] == xs[..i];
  }

  /** Read from the front: the first step, then the rest. */
  lemma {:induction false} MapResultCons<A, B, E>(x: A, xs: seq<A>, f: A -> Result<B, E>)
    ensures MapResult([x] + xs, f) ==
      match f(x)
      case Err(e) => Err(e)
      case Ok(y) =>
        match MapResult(xs, f)
        case Err(e) => Err(e)
        case Ok(ys) => Ok([y] + ys)
    decreases |xs|
  {
    var s := [x] + xs;
    if xs == [] {
      assert s[..|s| - 1] == [] && s[|s| - 1] == x;
      assert MapResult([], f) == Ok([]);
      if f(x).Ok? {
        var y := f(x).value;
        assert [] + [y] == [y] + [];
      }
    } else {
      var n := |xs|;
      assert s[..|s| - 1] == [x] + xs[..n - 1] && s[|s| - 1] == xs[n - 1];
      MapResultCons(x, xs[..n - 1], f);
      match MapResult(xs[..n - 1], f)
      case Err(_) =>
      case Ok(ys) =>
        match f(xs[n - 1])
        case Err(_) =>
        case Ok(z) =>
          if f(x).Ok? {
            var y := f(x).value;
            assert [y] + (ys + [z]) == ([y] + ys) + [z];
          }
    }
  }

  // Rewriting steps. Each is a one-line fact Dafny proves unaided; it is stated
  // as a lemma only so that a caller can obtain the rewritten term without the
  // definitions involved being unfolded. None of them is a property of the model.

  /** A sequence is its part before `i`, its `i`-th element and its part after. */
  lemma SplitAround<T>(xs: seq<T>, i: nat)
    requires i < |xs|
    ensures xs == (xs[..i] + [xs[i]]) + xs[i + 1..]
  {
  }
}
