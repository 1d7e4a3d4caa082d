/** Data cut into chunks: packets of a transfer, records of a file. */
module Chunks {
  function Flatten<T>(chunks: seq<seq<T>>): (s: seq<T>)
    decreases |chunks|
  {
    if |chunks| == 0 then [] else chunks[0] + Flatten(chunks[1..])
  }

  lemma {:induction false} FlattenSplit<T>(xs: seq<seq<T>>, j: nat)
    requires j <= |xs|
    ensures Flatten(xs) == Flatten(xs[..j]) + Flatten(xs[j..])
    decreases |xs|
  {
    if j == 0 {
      assert xs[..0] == [] && xs[0..] == xs;
    } else {
      var rest := xs[1..];
      FlattenSplit(rest, j - 1);
      assert xs[..j][1..] == rest[..j - 1] && rest[j - 1..] == xs[j..];
      assert Flatten(xs[..j]) == xs[0] + Flatten(rest[..j - 1]);
      Associate(xs[0], Flatten(rest[..j - 1]), Flatten(xs[j..]));
    }
  }

  lemma Associate<T>(a: seq<T>, b: seq<T>, c: seq<T>)
    ensures a + (b + c) == (a + b) + c
  {
  }

  /** Data shifted by one element is unchanged exactly when it repeats what was
      shifted in. */
  lemma ShiftedIff<T>(prev: T, data: seq<T>)
    ensures ([prev] + data)[..|data|] == data <==> forall k | 0 <= k < |data| :: data[k] == prev
  {
    var shifted := ([prev] + data)[..|data|];
    assert forall k | 0 <= k < |data| :: shifted[k] == if k == 0 then prev else data[k - 1];
    if shifted == data {
      forall k | 0 <= k < |data| ensures data[k] == prev { ShiftedConstant(prev, data, k); }
    }
  }

  lemma {:induction false} ShiftedConstant<T>(prev: T, data: seq<T>, k: nat)
    requires k < |data| && ([prev] + data)[..|data|] == data
    ensures data[k] == prev
    decreases k
  {
    assert ([prev] + data)[..|data|][k] == ([prev] + data)[k];
    if k > 0 {
      ShiftedConstant(prev, data, k - 1);
    }
  }
}
