/**
  * Order-independent accumulation: folds over commutative monoids, and the saturating token counts
  * of `TokenUsage` in src/types.rs as one such monoid.
  */
module Folds {

  type u32 = x: int | 0 <= x < 0x1_0000_0000
  const U32_MAX: u32 := 0xFFFF_FFFF

  /** `u32::saturating_add`. */
  function SatAdd(a: u32, b: u32): u32 {
    if a + b > U32_MAX then U32_MAX else a + b
  }

  datatype TokenUsage = TokenUsage(input: u32, output: u32) {
    function Merge(other: TokenUsage): TokenUsage {
      TokenUsage(SatAdd(input, other.input), SatAdd(output, other.output))
    }
  }

  const NO_USAGE := TokenUsage(0, 0)

  // ------------------------------------------------------------------ folds

  ghost predicate CommutativeMonoid<R(!new)>(zero: R, op: (R, R) -> R) {
    && (forall a :: op(a, zero) == a)
    && (forall a, b :: op(a, b) == op(b, a))
    && (forall a, b, c :: op(op(a, b), c) == op(a, op(b, c)))
  }

  function Fold<T, R>(zero: R, op: (R, R) -> R, f: T -> R, s: seq<T>): R {
    if s == [] then zero else op(Fold(zero, op, f, s[..|s| - 1]), f(s[|s| - 1]))
  }

  lemma FoldSnoc<T, R>(zero: R, op: (R, R) -> R, f: T -> R, s: seq<T>, x: T)
    ensures Fold(zero, op, f, s + [x]) == op(Fold(zero, op, f, s), f(x))
  {
    assert (s + [x])[..|s|] == s;
  }

  lemma SplitLast<T>(a: seq<T>, b: seq<T>)
    requires b != []
    ensures a + b == (a + b[..|b| - 1]) + [b[|b| - 1]] && b == b[..|b| - 1] + [b[|b| - 1]]
  {}

  lemma {:induction false} FoldConcat<T, R(!new)>(zero: R, op: (R, R) -> R, f: T -> R, a: seq<T>, b: seq<T>)
    requires CommutativeMonoid(zero, op)
    ensures Fold(zero, op, f, a + b) == op(Fold(zero, op, f, a), Fold(zero, op, f, b))
  {
    if b == [] {
      assert a + b == a;
    } else {
      hide Fold;
      var rest, x := b[..|b| - 1], b[|b| - 1];
      FoldConcat(zero, op, f, a, rest);
      FoldSnoc(zero, op, f, a + rest, x);
      FoldSnoc(zero, op, f, rest, x);
      SplitLast(a, b);
      Associates(zero, op, Fold(zero, op, f, a), Fold(zero, op, f, rest), f(x));
    }
  }

  lemma Associates<R(!new)>(zero: R, op: (R, R) -> R, a: R, b: R, c: R)
    requires CommutativeMonoid(zero, op)
    ensures op(op(a, b), c) == op(a, op(b, c)) && op(a, b) == op(b, a) && op(b, c) == op(c, b)
  {}

  lemma FoldOne<T, R(!new)>(zero: R, op: (R, R) -> R, f: T -> R, x: T)
    requires CommutativeMonoid(zero, op)
    ensures Fold(zero, op, f, [x]) == f(x)
  {
    assert [x][..0] == [];
    assert op(zero, f(x)) == op(f(x), zero);
  }

  /** A fold does not depend on the order of the elements. */
  lemma {:induction false} FoldPermutation<T, R(!new)>(zero: R, op: (R, R) -> R, f: T -> R, a: seq<T>, b: seq<T>)
    requires CommutativeMonoid(zero, op) && multiset(a) == multiset(b)
    ensures Fold(zero, op, f, a) == Fold(zero, op, f, b)
    decreases |a|
  {
    if a == [] {
      assert |multiset(b)| == 0;
    } else {
      var n := |a| - 1;
      var k := SameElsewhere(a, b);
      FoldPermutation(zero, op, f, a[..n], b[..k] + b[k + 1..]);
      FoldWithout(zero, op, f, b, k);
    }
  }

  /** The last element of a occurs in b, and without it the two still have the same elements. */
  lemma SameElsewhere<T>(a: seq<T>, b: seq<T>) returns (k: nat)
    requires a != [] && multiset(a) == multiset(b)
    ensures k < |b| && b[k] == a[|a| - 1]
    ensures multiset(a[..|a| - 1]) == multiset(b[..k] + b[k + 1..])
  {
    var n := |a| - 1;
    assert a[n] in multiset(a);
    assert a[n] in multiset(b);
    k :| 0 <= k < |b| && b[k] == a[n];
    WithoutOne(b, k);
    assert a == a[..n] + [a[n]];
    CancelOne(multiset(a[..n]), multiset(b[..k] + b[k + 1..]), a[n]);
  }

  lemma CancelOne<T>(a: multiset<T>, b: multiset<T>, x: T)
    requires a + multiset{x} == b + multiset{x}
    ensures a == b
  {
    assert a == (a + multiset{x}) - multiset{x};
    assert b == (b + multiset{x}) - multiset{x};
  }

  lemma WithoutOne<T>(b: seq<T>, k: nat)
    requires k < |b|
    ensures b == b[..k] + [b[k]] + b[k + 1..]
    ensures multiset(b) == multiset(b[..k] + b[k + 1..]) + multiset{b[k]}
  {
    assert b == b[..k] + [b[k]] + b[k + 1..];
  }

  /** Taking one element out of the middle of a fold. */
  lemma FoldWithout<T, R(!new)>(zero: R, op: (R, R) -> R, f: T -> R, b: seq<T>, k: nat)
    requires CommutativeMonoid(zero, op) && k < |b|
    ensures Fold(zero, op, f, b) == op(Fold(zero, op, f, b[..k] + b[k + 1..]), f(b[k]))
  {
    var p, x, q := b[..k], b[k], b[k + 1..];
    WithoutOne(b, k);
    FoldConcat(zero, op, f, p, q);
    FoldConcat(zero, op, f, p, [x]);
    FoldConcat(zero, op, f, p + [x], q);
    FoldOne(zero, op, f, x);
    Associates(zero, op, Fold(zero, op, f, p), f(x), Fold(zero, op, f, q));
    Associates(zero, op, Fold(zero, op, f, p), Fold(zero, op, f, q), f(x));
    hide Fold, CommutativeMonoid;
  }

  // ------------------------------------------------------------------ the monoids in use

  function Plus(a: int, b: int): int { a + b }
  function PlusReal(a: real, b: real): real { a + b }
  function MergeUsage(a: TokenUsage, b: TokenUsage): TokenUsage { a.Merge(b) }

  lemma Monoids()
    ensures CommutativeMonoid(0, Plus)
    ensures CommutativeMonoid(0.0, PlusReal)
    ensures CommutativeMonoid(NO_USAGE, MergeUsage)
    ensures CommutativeMonoid(0, SatAdd)
  {}

  function Capped(n: int): u32
    requires n >= 0
  {
    if n > U32_MAX then U32_MAX else n
  }

  /** Saturating accumulation gives the true sum, capped once. `g` is `f` as unbounded numbers. */
  lemma {:induction false} SaturatingSum<T(!new)>(f: T -> u32, g: T -> int, s: seq<T>)
    requires forall t :: g(t) == f(t)
    ensures Fold(0, Plus, g, s) >= 0
    ensures Fold(0, SatAdd, f, s) == Capped(Fold(0, Plus, g, s))
  {
    if s != [] {
      SaturatingSum(f, g, s[..|s| - 1]);
      assert g(s[|s| - 1]) == f(s[|s| - 1]);
    }
  }

  /** Merging usages gives, on each side, the true sum, capped once. */
  lemma {:induction false} MergedUsage<T(!new)>(f: T -> TokenUsage, g: T -> int, h: T -> int, s: seq<T>)
    requires forall t :: g(t) == f(t).input && h(t) == f(t).output
    ensures Fold(0, Plus, g, s) >= 0 && Fold(0, Plus, h, s) >= 0
    ensures Fold(NO_USAGE, MergeUsage, f, s)
         == TokenUsage(Capped(Fold(0, Plus, g, s)), Capped(Fold(0, Plus, h, s)))
  {
    if s != [] {
      MergedUsage(f, g, h, s[..|s| - 1]);
      assert g(s[|s| - 1]) == f(s[|s| - 1]).input && h(s[|s| - 1]) == f(s[|s| - 1]).output;
    }
  }
}
