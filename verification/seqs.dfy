/** Generic sequence helpers. */
module Seqs {
  /** `[f(x) for x in xs]`: `f` applied to every element, in order. */
  function MapSeq<A, B>(f: A -> B, xs: seq<A>): (ys: seq<B>)
    ensures |ys| == |xs|
    ensures forall i | 0 <= i < |xs| :: ys[i] == f(xs[i])
  {
    if xs == [] then [] else [f(xs[0])] + MapSeq(f, xs[1..])
  }

  /** Mapping distributes over concatenation. */
  lemma {:induction false} MapSeqAppend<A, B>(f: A -> B, xs: seq<A>, ys: seq<A>)
    ensures MapSeq(f, xs + ys) == MapSeq(f, xs) + MapSeq(f, ys)
  {
    if xs != [] {
      assert (xs + ys)[1..] == xs[1..] + ys;
      MapSeqAppend(f, xs[1..], ys);
    }
  }
}
