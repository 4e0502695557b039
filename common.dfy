/** Small value types and list combinators shared by every module of the model. */
module Common {

  /** A value that may be absent: Python's `None`, SQL's NULL, a missing row. */
  datatype Option<T> = None | Some(value: T)

  /** Python truthiness of an optional integer id: `None` and `0` are false. */
  predicate Truthy(x: Option<int>) {
    x.Some? && x.value != 0
  }

  /** The list an optional value contributes: one element or none. */
  function AsSeq<T>(o: Option<T>): (r: seq<T>)
    ensures |r| <= 1 && (r == [] <==> o.None?) && (o.Some? ==> r == [o.value])
  {
    match o
    case Some(v) => [v]
    case None => []
  }

  /** The concatenation of `f(x)` for every `x` of `xs`, in order: the shape of
      a loop that appends what each input contributes. */
  function FlatMap<A, B>(f: A -> seq<B>, xs: seq<A>): seq<B>
  {
    if xs == [] then [] else FlatMap(f, xs[..|xs| - 1]) + f(xs[|xs| - 1])
  }

  /** `FlatMap` distributes over concatenation. */
  lemma {:induction false} FlatMapConcat<A, B>(f: A -> seq<B>, a: seq<A>, b: seq<A>)
    ensures FlatMap(f, a + b) == FlatMap(f, a) + FlatMap(f, b)
    decreases |b|
  {
    if b == [] {
      assert a + b == a;
    } else {
      var ab := a + b;
      assert ab[..|ab| - 1] == a + b[..|b| - 1];
      assert ab[|ab| - 1] == b[|b| - 1];
      FlatMapConcat(f, a, b[..|b| - 1]);
    }
  }

  /** Every element of a `FlatMap` comes from `f` applied to some input. */
  lemma {:induction false} FlatMapFrom<A, B>(f: A -> seq<B>, xs: seq<A>, y: B)
    requires y in FlatMap(f, xs)
    ensures exists i :: 0 <= i < |xs| && y in f(xs[i])
  {
    if xs != [] {
      var n := |xs| - 1;
      if y in FlatMap(f, xs[..n]) {
        FlatMapFrom(f, xs[..n], y);
        var i :| 0 <= i < n && y in f(xs[..n][i]);
        assert xs[..n][i] == xs[i];
      } else {
        assert y in f(xs[n]);
      }
    }
  }

  /** A one-element input contributes exactly its own image. */
  lemma FlatMapSingle<A, B>(f: A -> seq<B>, x: A)
    ensures FlatMap(f, [x]) == f(x)
  {
    assert [x][..0] == [];
  }

  /** The state a loop reaches from `s0` by applying `f` to each input in turn. */
  function Fold<S, A>(f: (S, A) -> S, s0: S, xs: seq<A>): S
  {
    if xs == [] then s0 else f(Fold(f, s0, xs[..|xs| - 1]), xs[|xs| - 1])
  }

  /** Running a loop over `a + b` is running it over `a`, then over `b`. */
  lemma {:induction false} FoldConcat<S, A>(f: (S, A) -> S, s0: S, a: seq<A>, b: seq<A>)
    ensures Fold(f, s0, a + b) == Fold(f, Fold(f, s0, a), b)
    decreases |b|
  {
    if b == [] {
      assert a + b == a;
    } else {
      var ab := a + b;
      assert ab[..|ab| - 1] == a + b[..|b| - 1];
      assert ab[|ab| - 1] == b[|b| - 1];
      FoldConcat(f, s0, a, b[..|b| - 1]);
    }
  }

  /** A property every step preserves holds after the whole loop. */
  lemma {:induction false} FoldInvariant<S, A>(f: (S, A) -> S, s0: S, xs: seq<A>, inv: S -> bool)
    requires inv(s0)
    requires forall s, x :: inv(s) ==> inv(f(s, x))
    ensures inv(Fold(f, s0, xs))
  {
    if xs != [] {
      FoldInvariant(f, s0, xs[..|xs| - 1], inv);
    }
  }

  lemma FoldSingle<S, A>(f: (S, A) -> S, s0: S, x: A)
    ensures Fold(f, s0, [x]) == f(s0, x)
  {
    assert [x][..0] == [];
  }

  /** Running a loop over `[x] + xs` is one turn on `x`, then the loop over `xs`. */
  lemma FoldCons<S, A>(f: (S, A) -> S, s0: S, x: A, xs: seq<A>)
    ensures Fold(f, s0, [x] + xs) == Fold(f, f(s0, x), xs)
  {
    FoldConcat(f, s0, [x], xs);
    FoldSingle(f, s0, x);
  }
}
