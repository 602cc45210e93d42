/** Collecting results over a sequence. */
module Lists {
  import opened CText

  /** The results of f that are there, in order. */
  function Collect<T, U>(xs: seq<T>, f: T -> Option<U>): seq<U> {
    if xs == [] then [] else
      var last := |xs| - 1;
      Collect(xs[..last], f) + match f(xs[last]) { case Some(u) => [u] case None => [] }
  }

  lemma {:induction false} CollectNext<T, U>(xs: seq<T>, f: T -> Option<U>, i: nat)
    requires i < |xs|
    ensures Collect(xs[..i + 1], f) == Collect(xs[..i], f) + match f(xs[i]) { case Some(u) => [u] case None => [] }
  {
    assert xs[..i + 1][..i] == xs[..i];
  }

  lemma {:induction false} CollectAll<T, U>(xs: seq<T>, f: T -> Option<U>)
    ensures Collect(xs[..|xs|], f) == Collect(xs, f)
  {
    assert xs[..|xs|] == xs;
  }

  ghost predicate Yields<T, U>(xs: seq<T>, f: T -> Option<U>, u: U) {
    exists i :: 0 <= i < |xs| && f(xs[i]) == Some(u)
  }

  lemma {:induction false} CollectMembers<T, U>(xs: seq<T>, f: T -> Option<U>, u: U)
    ensures u in Collect(xs, f) <==> Yields(xs, f, u)
  {
    if xs != [] {
      var last := |xs| - 1;
      var front := xs[..last];
      CollectMembers(front, f, u);
      assert forall i :: 0 <= i < last ==> front[i] == xs[i];
      if Yields(front, f, u) {
        var i :| 0 <= i < |front| && f(front[i]) == Some(u);
        assert f(xs[i]) == Some(u);
      }
    }
  }

  lemma {:induction false} CollectOne<T, U>(x: T, f: T -> Option<U>)
    ensures Collect([x], f) == match f(x) { case Some(u) => [u] case None => [] }
  {
    assert [x][..0] == [];
  }

  lemma {:induction false} CollectConcat<T, U>(a: seq<T>, b: seq<T>, f: T -> Option<U>)
    ensures Collect(a + b, f) == Collect(a, f) + Collect(b, f)
  {
    if b == [] {
      assert a + b == a;
    } else {
      var last := |b| - 1;
      CollectConcat(a, b[..last], f);
      assert (a + b)[..|a| + last] == a + b[..last];
    }
  }

  /** When every result is there, they are in the places of the elements. */
  lemma {:induction false} CollectEvery<T, U>(xs: seq<T>, f: T -> Option<U>)
    requires forall i :: 0 <= i < |xs| ==> f(xs[i]).Some?
    ensures |Collect(xs, f)| == |xs| && forall i :: 0 <= i < |xs| ==> Some(Collect(xs, f)[i]) == f(xs[i])
  {
    if xs != [] { CollectEvery(xs[..|xs| - 1], f); }
  }
}
