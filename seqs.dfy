/**
 * The shape of a loop that pushes one value per element of its input.
 */
module Seqs {
  /** The sequence a loop builds by pushing f(x) for each x of `s` in turn. */
  function PushAll<A, B>(f: A -> B, s: seq<A>): seq<B>
    decreases |s|
  {
    if |s| == 0 then [] else PushAll(f, s[..|s| - 1]) + [f(s[|s| - 1])]
  }

  lemma {:induction false} PushAllAt<A, B>(f: A -> B, s: seq<A>)
    ensures |PushAll(f, s)| == |s|
    ensures forall i :: 0 <= i < |s| ==> PushAll(f, s)[i] == f(s[i])
    decreases |s|
  {
    if |s| > 0 {
      var init := s[..|s| - 1];
      PushAllAt(f, init);
      forall i | 0 <= i < |s|
        ensures PushAll(f, s)[i] == f(s[i])
      {
        if i < |init| {
          assert init[i] == s[i];
        }
      }
    }
  }
}
