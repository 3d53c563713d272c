/** Histories of uploads: an upload taken out of the sequence of those that survive. */
module Histories {

  /** The history without the upload of this id, where `idOf` gives the id of an upload. */
  function Without<T>(h: seq<T>, id: nat, idOf: T -> nat): seq<T> {
    if h == [] then []
    else
      var rest := Without(h[..|h| - 1], id, idOf);
      if idOf(h[|h| - 1]) == id then rest else rest + [h[|h| - 1]]
  }

  lemma WithoutAppend<T>(h: seq<T>, u: T, id: nat, idOf: T -> nat)
    ensures Without(h + [u], id, idOf) == if idOf(u) == id then Without(h, id, idOf) else Without(h, id, idOf) + [u]
  {
    assert (h + [u])[..|h|] == h;
  }

  lemma {:induction false} WithoutMembers<T>(h: seq<T>, id: nat, idOf: T -> nat, u: T)
    ensures u in Without(h, id, idOf) <==> u in h && idOf(u) != id
  {
    if h != [] {
      var n := |h| - 1;
      WithoutMembers(h[..n], id, idOf, u);
      assert h == h[..n] + [h[n]];
    }
  }

  lemma {:induction false} WithoutAbsent<T>(h: seq<T>, id: nat, idOf: T -> nat)
    requires forall i :: 0 <= i < |h| ==> idOf(h[i]) != id
    ensures Without(h, id, idOf) == h
  {
    if h != [] {
      WithoutAbsent(h[..|h| - 1], id, idOf);
    }
  }
}
