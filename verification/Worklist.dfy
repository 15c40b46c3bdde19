/** Termination of stack-driven loops: every popped frame of depth d pushes at most m frames of
    depth d - 1, so a suitable total weight of the stack drops. */
module Worklist {

  function Weight(depth: nat, m: nat): (w: nat)
    ensures w > 0
  {
    if depth == 0 then 1 else 1 + m * Weight(depth - 1, m)
  }

  function Total(depths: seq<nat>, m: nat): nat {
    if depths == [] then 0 else Total(depths[..|depths| - 1], m) + Weight(depths[|depths| - 1], m)
  }

  lemma TotalPush(depths: seq<nat>, depth: nat, m: nat)
    ensures Total(depths + [depth], m) == Total(depths, m) + Weight(depth, m)
  {
    assert (depths + [depth])[..|depths|] == depths;
  }

  /** After the pop of a frame of this depth and `pushed` pushes one level down, the weight has dropped. */
  lemma PushesFit(depth: nat, m: nat, pushed: nat)
    requires depth > 0 && pushed <= m
    ensures pushed * Weight(depth - 1, m) < Weight(depth, m)
  {
    assert pushed * Weight(depth - 1, m) <= m * Weight(depth - 1, m) by {
      MulMonotone(pushed, m, Weight(depth - 1, m));
    }
  }

  lemma MulMonotone(a: nat, b: nat, w: nat)
    requires a <= b
    ensures a * w <= b * w
  {
    assert (b - a) * w >= 0;
    assert (b - a) * w == b * w - a * w;
  }

  lemma PushOneMore(pushed: nat, w: nat)
    ensures (pushed + 1) * w == pushed * w + w
  {
  }
}
