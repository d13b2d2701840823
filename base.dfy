/** Small value types and sequence helpers shared by the other modules. */
module Base {

  datatype Option<+T> = None | Some(value: T)

  /** A computation that either succeeds with a value or raises an error. */
  datatype Result<+T, +E> = Success(value: T) | Failure(error: E)

  /** A step that either completes or raises an error, returning nothing. */
  datatype Outcome<+E> = Pass | Fail(error: E)

  function Min(a: int, b: int): int
  {
    if a <= b then a else b
  }

  /** Python's `xs[:n]` for a non-negative `n`. */
  function Take<T>(xs: seq<T>, n: nat): (r: seq<T>)
    ensures |r| == Min(n, |xs|)
    ensures r <= xs
  {
    if n <= |xs| then xs[..n] else xs
  }

  function Reverse<T>(xs: seq<T>): (r: seq<T>)
    ensures |r| == |xs|
    ensures multiset(r) == multiset(xs)
  {
    if xs == [] then []
    else
      assert xs == [xs[0]] + xs[1..];
      Reverse(xs[1..]) + [xs[0]]
  }

  /** Element `i` of the reversal is element `|xs| - 1 - i` of the original. */
  lemma {:induction false} ReverseAt<T>(xs: seq<T>, i: nat)
    requires i < |xs|
    ensures Reverse(xs)[i] == xs[|xs| - 1 - i]
  {
    if i < |xs| - 1 {
      assert xs[1..][|xs| - 2 - i] == xs[|xs| - 1 - i];
      ReverseAt(xs[1..], i);
    }
  }

  lemma ReverseMembership<T>(xs: seq<T>, x: T)
    ensures x in Reverse(xs) <==> x in xs
  {
    assert x in Reverse(xs) <==> x in multiset(Reverse(xs));
  }

  /** `f` applied to each element, the results concatenated in order. */
  function FlatMap<T, U>(f: T -> seq<U>, xs: seq<T>): seq<U>
  {
    if xs == [] then [] else f(xs[0]) + FlatMap(f, xs[1..])
  }

  lemma {:induction false} FlatMapAppend<T, U>(f: T -> seq<U>, a: seq<T>, b: seq<T>)
    ensures FlatMap(f, a + b) == FlatMap(f, a) + FlatMap(f, b)
  {
    if a == [] {
      assert a + b == b;
    } else {
      var head := f(a[0]);
      assert (a + b)[0] == a[0];
      assert (a + b)[1..] == a[1..] + b;
      calc {
        FlatMap(f, a + b);
        head + FlatMap(f, a[1..] + b);
        { FlatMapAppend(f, a[1..], b); }
        head + (FlatMap(f, a[1..]) + FlatMap(f, b));
        (head + FlatMap(f, a[1..])) + FlatMap(f, b);
        FlatMap(f, a) + FlatMap(f, b);
      }
    }
  }

  lemma FlatMapOne<T, U>(f: T -> seq<U>, x: T)
    ensures FlatMap(f, [x]) == f(x)
  {
    assert [x][1..] == [];
  }

  /** When `f` yields at most one element per input, so does the whole. */
  lemma {:induction false} FlatMapBounded<T, U>(f: T -> seq<U>, xs: seq<T>)
    requires forall x :: |f(x)| <= 1
    ensures |FlatMap(f, xs)| <= |xs|
  {
    if xs != [] {
      FlatMapBounded(f, xs[1..]);
    }
  }
}
