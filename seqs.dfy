/** Sequences of sequences, joined end to end. */
module Seqs {

  /** The concatenation of `xss` in order, defined by peeling off the last element. */
  function Flatten<T>(xss: seq<seq<T>>): seq<T>
    decreases |xss|
  {
    if xss == [] then [] else Flatten(xss[..|xss| - 1]) + xss[|xss| - 1]
  }

  /** Appending one more piece to `xss` appends it to the concatenation. */
  lemma FlattenSnoc<T>(xss: seq<seq<T>>, xs: seq<T>)
    ensures Flatten(xss + [xs]) == Flatten(xss) + xs
  {
    assert (xss + [xs])[..|xss|] == xss;
  }

  /** The concatenation of a prefix of `xss` extended by part of the next piece. */
  lemma FlattenPrefixStep<T>(xss: seq<seq<T>>, d: nat, j: nat)
    requires d < |xss| && j < |xss[d]|
    ensures Flatten(xss[..d]) + xss[d][..j + 1] == (Flatten(xss[..d]) + xss[d][..j]) + [xss[d][j]]
  {
    assert xss[d][..j + 1] == xss[d][..j] + [xss[d][j]];
  }

  /** Finishing piece `d` gives the concatenation of the first `d + 1` pieces. */
  lemma FlattenPrefixDone<T>(xss: seq<seq<T>>, d: nat)
    requires d < |xss|
    ensures Flatten(xss[..d]) + xss[d][..|xss[d]|] == Flatten(xss[..d + 1])
  {
    assert xss[..d + 1] == xss[..d] + [xss[d]];
    FlattenSnoc(xss[..d], xss[d]);
    assert xss[d][..|xss[d]|] == xss[d];
  }

  lemma {:induction false} FlattenAppend<T>(xss: seq<seq<T>>, yss: seq<seq<T>>)
    ensures Flatten(xss + yss) == Flatten(xss) + Flatten(yss)
    decreases |yss|
  {
    if yss == [] {
      assert xss + yss == xss;
    } else {
      var n := |yss| - 1;
      assert xss + yss == (xss + yss[..n]) + [yss[n]];
      FlattenSnoc(xss + yss[..n], yss[n]);
      FlattenAppend(xss, yss[..n]);
      FlattenSnoc(yss[..n], yss[n]);
      assert yss[..n] + [yss[n]] == yss;
    }
  }

  /** What the nested loops have visited is a prefix of the whole concatenation. */
  lemma FlattenPrefix<T>(xss: seq<seq<T>>, d: nat, j: nat)
    requires d < |xss| && j <= |xss[d]|
    ensures Flatten(xss[..d]) + xss[d][..j] <= Flatten(xss)
  {
    assert xss == (xss[..d] + [xss[d]]) + xss[d + 1..];
    FlattenAppend(xss[..d] + [xss[d]], xss[d + 1..]);
    FlattenSnoc(xss[..d], xss[d]);
    assert xss[d] == xss[d][..j] + xss[d][j..];
  }
}
