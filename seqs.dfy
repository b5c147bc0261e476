/** Mapping each element of a list to zero or more results, in order: the
    shape of a loop that pushes what each input yields. */
module Seqs {
  function FlatMap<A, B>(xs: seq<A>, f: A -> seq<B>): seq<B>
    decreases |xs|
  {
    if xs == [] then [] else FlatMap(xs[..|xs| - 1], f) + f(xs[|xs| - 1])
  }

  lemma AppendAssociative<T>(a: seq<T>, b: seq<T>, c: seq<T>)
    ensures a + b + c == a + (b + c)
  {
  }

  /** Each input contributes independently and in order. */
  lemma {:induction false} FlatMapAppend<A, B>(a: seq<A>, b: seq<A>, f: A -> seq<B>)
    ensures FlatMap(a + b, f) == FlatMap(a, f) + FlatMap(b, f)
    decreases |b|
  {
    if b == [] {
      assert a + b == a;
    } else {
      var n := |b| - 1;
      FlatMapAppend(a, b[..n], f);
      assert (a + b)[..|a + b| - 1] == a + b[..n];
    }
  }

  /** With at most one result per input there are at most as many results
      as inputs, and exactly as many when every input yields one. */
  lemma {:induction false} FlatMapLength<A, B>(xs: seq<A>, f: A -> seq<B>)
    requires forall i | 0 <= i < |xs| :: |f(xs[i])| <= 1
    ensures |FlatMap(xs, f)| <= |xs|
    ensures |FlatMap(xs, f)| == |xs| <==> forall i | 0 <= i < |xs| :: |f(xs[i])| == 1
    decreases |xs|
  {
    if xs != [] {
      var n := |xs| - 1;
      var init := xs[..n];
      assert forall i | 0 <= i < n :: init[i] == xs[i];
      FlatMapLength(init, f);
      if forall i | 0 <= i < |xs| :: |f(xs[i])| == 1 {
        assert forall i | 0 <= i < n :: |f(init[i])| == 1;
      } else if |f(xs[n])| == 1 {
        var i :| 0 <= i < |xs| && |f(xs[i])| != 1;
        assert |f(init[i])| != 1;
      }
    }
  }

  /** A result is in the output exactly when some input yields it. */
  lemma {:induction false} FlatMapMembers<A, B>(xs: seq<A>, f: A -> seq<B>, y: B)
    ensures y in FlatMap(xs, f) <==> exists i | 0 <= i < |xs| :: y in f(xs[i])
    decreases |xs|
  {
    if xs != [] {
      var n := |xs| - 1;
      var init := xs[..n];
      FlatMapMembers(init, f, y);
      if exists i | 0 <= i < |xs| :: y in f(xs[i]) {
        var i :| 0 <= i < |xs| && y in f(xs[i]);
        if i < n {
          assert init[i] == xs[i];
        }
      }
      if exists i | 0 <= i < n :: y in f(init[i]) {
        var i :| 0 <= i < n && y in f(init[i]);
        assert init[i] == xs[i];
      }
    }
  }
}
