/**
 * The hash accumulator that the eqvHashCode functions feed. Its real
 * constants are not part of this model; what matters is the shape of the
 * combination, h' = h * Multiplier + x, folded left to right from Seed.
 * Each hashed object contributes its `hashCode()`, given as the function `hc`.
 */
module HashCollectors {

  const Multiplier: int := 31
  const Seed: int := 1

  /** One `hash(x)` step of the collector. */
  function Mix(h: int, x: int): int
  {
    h * Multiplier + x
  }

  /** The state after hashing the objects `xs`, in order, starting from `h`. */
  function Fold<T>(h: int, xs: seq<T>, hc: T -> int): int
  {
    if xs == [] then h else Mix(Fold(h, xs[..|xs| - 1], hc), hc(xs[|xs| - 1]))
  }

  /** Hashing two runs of objects one after the other is hashing their concatenation. */
  lemma {:induction false} FoldAppend<T>(h: int, xs: seq<T>, ys: seq<T>, hc: T -> int)
    ensures Fold(h, xs + ys, hc) == Fold(Fold(h, xs, hc), ys, hc)
    decreases |ys|
  {
    if ys == [] {
      assert xs + ys == xs;
    } else {
      var n := |ys| - 1;
      assert (xs + ys)[..|xs + ys| - 1] == xs + ys[..n];
      FoldAppend(h, xs, ys[..n], hc);
    }
  }

  /** Different starting states stay different whatever is hashed next. */
  lemma {:induction false} FoldInjective<T>(a: int, b: int, xs: seq<T>, hc: T -> int)
    requires a != b
    ensures Fold(a, xs, hc) != Fold(b, xs, hc)
    decreases |xs|
  {
    if xs != [] {
      FoldInjective(a, b, xs[..|xs| - 1], hc);
    }
  }

  /**
   * The collector is order-sensitive: swapping two adjacent objects with
   * different hash codes changes the final hash. This needs unbounded
   * integers: with a 32-bit hash and multiplier 31 the swap changes the
   * state by 30 * (x - y), which wraps to 0 when the two hash codes differ
   * by 2^31 (for example `Int.MIN_VALUE` and 0).
   */
  lemma FoldSwap<T>(h: int, xs: seq<T>, x: T, y: T, ys: seq<T>, hc: T -> int)
    requires hc(x) != hc(y)
    ensures Fold(h, xs + [x, y] + ys, hc) != Fold(h, xs + [y, x] + ys, hc)
  {
    var g := Fold(h, xs, hc);
    FoldAppend(h, xs, [x, y], hc);
    FoldAppend(h, xs, [y, x], hc);
    assert [x, y][..1] == [x] && [y, x][..1] == [y];
    assert Fold(g, [x], hc) == Mix(g, hc(x)) by { assert [x][..0] == []; }
    assert Fold(g, [y], hc) == Mix(g, hc(y)) by { assert [y][..0] == []; }
    var u := Fold(h, xs + [x, y], hc);
    var v := Fold(h, xs + [y, x], hc);
    assert u == Mix(Mix(g, hc(x)), hc(y));
    assert v == Mix(Mix(g, hc(y)), hc(x));
    FoldAppend(h, xs + [x, y], ys, hc);
    FoldAppend(h, xs + [y, x], ys, hc);
    FoldInjective(u, v, ys, hc);
  }

  /** `HashCollector`: a running hash that `hash(x)` calls update in place. */
  class HashCollector {
    var hash: int

    constructor ()
      ensures hash == Seed
    {
      hash := Seed;
    }

    method Hash(x: int)
      modifies this
      ensures hash == Mix(old(hash), x)
    {
      hash := Mix(hash, x);
    }
  }
}
