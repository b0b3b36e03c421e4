/**
 * JavaScript's `xs.map(f).filter(y => y !== null)` over a sequence: every
 * element is mapped, the `null` results are dropped and the rest keep their
 * order.
 */
module Seqs {
  import opened Wrappers

  function MapFilter<T, U>(f: T -> Option<U>, xs: seq<T>): (ys: seq<U>)
    ensures |ys| <= |xs|
  {
    if xs == [] then []
    else
      match f(xs[0])
      case None => MapFilter(f, xs[1..])
      case Some(y) => [y] + MapFilter(f, xs[1..])
  }

  lemma MapFilterCons<T, U>(f: T -> Option<U>, x: T, xs: seq<T>)
    ensures f(x).None? ==> MapFilter(f, [x] + xs) == MapFilter(f, xs)
    ensures f(x).Some? ==> MapFilter(f, [x] + xs) == [f(x).value] + MapFilter(f, xs)
  {
    assert ([x] + xs)[0] == x;
    assert ([x] + xs)[1..] == xs;
  }

  /** Filtering a concatenation filters each half in place: order is kept. */
  lemma {:induction false} MapFilterAppend<T, U>(f: T -> Option<U>, a: seq<T>, b: seq<T>)
    ensures MapFilter(f, a + b) == MapFilter(f, a) + MapFilter(f, b)
    decreases |a|
  {
    if a == [] {
      assert a + b == b;
    } else {
      MapFilterAppend(f, a[1..], b);
      assert (a + b)[0] == a[0];
      assert (a + b)[1..] == a[1..] + b;
    }
  }

  /** Every kept value is the image of some element. */
  lemma {:induction false} MapFilterOrigin<T, U>(f: T -> Option<U>, xs: seq<T>, y: U)
    requires y in MapFilter(f, xs)
    ensures exists k :: 0 <= k < |xs| && f(xs[k]) == Some(y)
    decreases |xs|
  {
    if f(xs[0]) != Some(y) {
      MapFilterOrigin(f, xs[1..], y);
      var k :| 0 <= k < |xs[1..]| && f(xs[1..][k]) == Some(y);
      assert f(xs[k + 1]) == Some(y);
    }
  }

  /** Nothing survives when every element maps to `null`. */
  lemma {:induction false} MapFilterNone<T, U>(f: T -> Option<U>, xs: seq<T>)
    requires forall k :: 0 <= k < |xs| ==> f(xs[k]).None?
    ensures MapFilter(f, xs) == []
    decreases |xs|
  {
    if xs != [] {
      assert f(xs[0]).None?;
      MapFilterNone(f, xs[1..]);
    }
  }

  /**
   * The filter together with where each kept value came from: the source
   * indexes are strictly increasing, each kept value is its element's image,
   * and every element not listed maps to `null`.
   */
  method MapFilterWithOrigins<T, U>(f: T -> Option<U>, xs: seq<T>) returns (ys: seq<U>, origins: seq<nat>)
    ensures ys == MapFilter(f, xs)
    ensures |origins| == |ys|
    ensures forall k :: 0 <= k < |origins| ==> origins[k] < |xs|
    ensures forall k, l :: 0 <= k < l < |origins| ==> origins[k] < origins[l]
    ensures forall k :: 0 <= k < |origins| ==> f(xs[origins[k]]) == Some(ys[k])
    ensures forall j :: 0 <= j < |xs| && j !in origins ==> f(xs[j]).None?
  {
    ys, origins := [], [];
    var i := |xs|;
    while i > 0
      invariant 0 <= i <= |xs|
      invariant ys == MapFilter(f, xs[i..])
      invariant |origins| == |ys|
      invariant forall k :: 0 <= k < |origins| ==> i <= origins[k] < |xs|
      invariant forall k, l :: 0 <= k < l < |origins| ==> origins[k] < origins[l]
      invariant forall k :: 0 <= k < |origins| ==> f(xs[origins[k]]) == Some(ys[k])
      invariant forall j :: i <= j < |xs| && j !in origins ==> f(xs[j]).None?
    {
      i := i - 1;
      assert xs[i..][0] == xs[i];
      assert xs[i..][1..] == xs[i + 1..];
      match f(xs[i])
      case None =>
      case Some(y) =>
        ys := [y] + ys;
        origins := [i] + origins;
    }
    assert xs[0..] == xs;
  }
}
