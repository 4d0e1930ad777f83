/** The arithmetic the activation crate computes with.

    The source computes in 64-bit floats, whose operations are neither associative nor
    distributive. Everything that must keep the order of operations is therefore written over an
    arbitrary number type `N` and an arbitrary table of operations on it: an equality proved for
    every table holds only when the same operations run in the same order. `IsReal` states
    the laws the analytic results need. */
module Numbers {

  /** `eq` is the comparison `==` of the number type; identity of bits is Dafny's own `==`.
      `sumZero` is what an iterator sum starts from. */
  datatype Arith<!N> = Arith(
    zero: N, one: N, sumZero: N, dampingLow: N, dampingHigh: N,
    add: (N, N) -> N, sub: (N, N) -> N, mul: (N, N) -> N, div: (N, N) -> N,
    abs: N -> N, ln1p: N -> N, ofNat: nat -> N,
    lt: (N, N) -> bool, le: (N, N) -> bool, eq: (N, N) -> bool)

  function Abs(x: real): real { if x < 0.0 then -x else x }

  /** `A` computes in the reals; only `ln1p` is left open. */
  ghost predicate IsReal(A: Arith<real>) {
    && A.zero == 0.0 && A.one == 1.0 && A.sumZero == 0.0
    && A.dampingLow == 0.01 && A.dampingHigh == 0.99
    && (forall x, y {:trigger A.add(x, y)} :: A.add(x, y) == x + y)
    && (forall x, y {:trigger A.sub(x, y)} :: A.sub(x, y) == x - y)
    && (forall x, y {:trigger A.mul(x, y)} :: A.mul(x, y) == x * y)
    && (forall x, y {:trigger A.div(x, y)} :: y != 0.0 ==> A.div(x, y) == x / y)
    && (forall x {:trigger A.abs(x)} :: A.abs(x) == Abs(x))
    && (forall k {:trigger A.ofNat(k)} :: A.ofNat(k) == k as real)
    && (forall x, y {:trigger A.lt(x, y)} :: A.lt(x, y) <==> x < y)
    && (forall x, y {:trigger A.le(x, y)} :: A.le(x, y) <==> x <= y)
    && (forall x, y {:trigger A.eq(x, y)} :: A.eq(x, y) <==> x == y)
  }

  /** One such table. */
  function RealArith(ln: real -> real): (A: Arith<real>)
    ensures IsReal(A) && A.ln1p == ln
  {
    Arith(0.0, 1.0, 0.0, 0.01, 0.99,
          (x: real, y: real) => x + y,
          (x: real, y: real) => x - y,
          (x: real, y: real) => x * y,
          (x: real, y: real) => if y == 0.0 then 0.0 else x / y,
          (x: real) => Abs(x),
          ln,
          (k: nat) => k as real,
          (x: real, y: real) => x < y,
          (x: real, y: real) => x <= y,
          (x: real, y: real) => x == y)
  }

  /** The sum of an iterator: left to right from `sumZero`. */
  function Fold<N>(A: Arith<N>, xs: seq<N>): N {
    if xs == [] then A.sumZero
    else A.add(Fold(A, xs[..|xs| - 1]), xs[|xs| - 1])
  }
}
