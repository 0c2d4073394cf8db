/**
 * Ordered rule lists: every extractor of the payment pipeline tries its
 * rules in a fixed order and keeps the first one that succeeds.
 */
module Ordered {
  import opened Wrappers

  /**
   * The first element of `xs` on which `f` succeeds, with its index and the
   * value `f` produced there; None when `f` fails on every element.
   */
  function FirstHit<A, B>(xs: seq<A>, f: A -> Option<B>): (r: Option<(nat, B)>)
    ensures r.None? <==> forall i :: 0 <= i < |xs| ==> f(xs[i]).None?
    ensures r.Some? ==>
              && r.value.0 < |xs|
              && f(xs[r.value.0]) == Some(r.value.1)
              && forall i :: 0 <= i < r.value.0 ==> f(xs[i]).None?
  {
    if |xs| == 0 then None
    else
      match f(xs[0])
      case Some(v) => Some((0, v))
      case None =>
        match FirstHit(xs[1..], f)
        case None => None
        case Some(hit) =>
          assert forall i :: 1 <= i <= hit.0 ==> xs[i] == xs[1..][i - 1];
          Some((hit.0 + 1, hit.1))
  }

  /** "First success wins": a success preceded only by failures is the answer. */
  lemma FirstHitAt<A, B>(xs: seq<A>, f: A -> Option<B>, k: nat, v: B)
    requires k < |xs| && f(xs[k]) == Some(v)
    requires forall i :: 0 <= i < k ==> f(xs[i]).None?
    ensures FirstHit(xs, f) == Some((k, v))
  {
  }
}
