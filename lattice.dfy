/**
  The N-dimensional score lattice of the aligner: coordinates, the row-major
  flattening that addresses the dense score array, the `np.ndindex` successor,
  and the 0/1 moves enumerated in `itertools.product([0, 1], repeat=n)` order.
 */
module Lattice {

  /** A lattice coordinate: p[k] residues of sequence k have been consumed. */
  type Coord = seq<nat>

  /** A move: step[k] says whether sequence k advances by one residue. */
  type Move = seq<bool>

  /** Every axis of the lattice has at least one cell. */
  predicate ValidDims(dims: seq<nat>)
  {
    forall k :: 0 <= k < |dims| ==> dims[k] > 0
  }

  predicate InLattice(p: Coord, dims: seq<nat>)
  {
    |p| == |dims| && forall k :: 0 <= k < |p| ==> p[k] < dims[k]
  }

  /** Componentwise order of coordinates. */
  predicate Below(q: Coord, p: Coord)
  {
    |q| == |p| && forall k :: 0 <= k < |p| ==> q[k] <= p[k]
  }

  /** Number of cells of the lattice. */
  function Size(dims: seq<nat>): nat
  {
    if |dims| == 0 then 1 else Size(dims[..|dims| - 1]) * dims[|dims| - 1]
  }

  /** a * d + r < b * d whenever a < b and r < d. */
  lemma {:induction false} MulAddBelow(a: nat, b: nat, d: nat, r: nat)
    requires a < b && r < d
    ensures a * d + r < b * d
    decreases b
  {
    assert b * d == (b - 1) * d + d;
    if a < b - 1 {
      MulAddBelow(a, b - 1, d, r);
    }
  }

  /** The row-major (last axis fastest) address of a cell in the dense array. */
  function Flatten(p: Coord, dims: seq<nat>): (r: nat)
    requires InLattice(p, dims)
    ensures r < Size(dims)
  {
    if |p| == 0 then 0
    else
      var n := |p| - 1;
      var a := Flatten(p[..n], dims[..n]);
      MulAddBelow(a, Size(dims[..n]), dims[n], p[n]);
      a * dims[n] + p[n]
  }

  /** The all-zero coordinate. */
  function Origin(n: nat): (o: Coord)
    ensures |o| == n
  {
    seq(n, _ => 0)
  }

  lemma {:induction false} OriginFirst(dims: seq<nat>)
    requires ValidDims(dims)
    ensures InLattice(Origin(|dims|), dims) && Flatten(Origin(|dims|), dims) == 0
  {
    if |dims| > 0 {
      var n := |dims| - 1;
      assert Origin(|dims|)[..n] == Origin(n);
      OriginFirst(dims[..n]);
    }
  }

  /** Equal addresses with in-range remainders have equal quotients and remainders. */
  lemma MulAddUnique(a: nat, b: nat, d: nat, r: nat, s: nat)
    requires r < d && s < d && a * d + r == b * d + s
    ensures a == b && r == s
  {
    if a < b {
      MulAddBelow(a, b, d, r);
    } else if b < a {
      MulAddBelow(b, a, d, s);
    }
  }

  /** Distinct cells have distinct addresses. */
  lemma {:induction false} FlattenInjective(p: Coord, q: Coord, dims: seq<nat>)
    requires InLattice(p, dims) && InLattice(q, dims)
    requires Flatten(p, dims) == Flatten(q, dims)
    ensures p == q
  {
    if |p| > 0 {
      var n := |p| - 1;
      MulAddUnique(Flatten(p[..n], dims[..n]), Flatten(q[..n], dims[..n]), dims[n], p[n], q[n]);
      FlattenInjective(p[..n], q[..n], dims[..n]);
      assert p == p[..n] + [p[n]] && q == q[..n] + [q[n]];
    }
  }

  /** Addresses compare like their (quotient, remainder) pairs in lexicographic order. */
  lemma AddressOrder(a: nat, b: nat, d: nat, r: nat, s: nat)
    requires r < d && s < d && (a < b || (a == b && r <= s))
    ensures a * d + r <= b * d + s
    ensures a < b || r < s ==> a * d + r < b * d + s
  {
    if a < b {
      MulAddBelow(a, b, d, r);
    }
  }

  /** The row-major address respects the componentwise order, strictly for distinct cells. */
  lemma {:induction false} FlattenMonotone(q: Coord, p: Coord, dims: seq<nat>)
    requires InLattice(p, dims) && InLattice(q, dims) && Below(q, p)
    ensures Flatten(q, dims) <= Flatten(p, dims)
    ensures q != p ==> Flatten(q, dims) < Flatten(p, dims)
  {
    if |p| > 0 {
      var n := |p| - 1;
      FlattenMonotone(q[..n], p[..n], dims[..n]);
      if q[..n] == p[..n] {
        assert q == q[..n] + [q[n]] && p == p[..n] + [p[n]];
      }
      AddressOrder(Flatten(q[..n], dims[..n]), Flatten(p[..n], dims[..n]), dims[n], q[n], p[n]);
    }
  }

  /**
    The cell `np.ndindex` yields after `p`: the last coordinate counts up and
    carries into the one before it when it reaches its extent.
   */
  function Next(p: Coord, dims: seq<nat>): (r: Coord)
    requires InLattice(p, dims) && Flatten(p, dims) + 1 < Size(dims)
    ensures InLattice(r, dims) && Flatten(r, dims) == Flatten(p, dims) + 1
  {
    var n := |p| - 1;
    FlattenSnoc(p[..n], p[n], dims);
    assert p == p[..n] + [p[n]];
    if p[n] + 1 < dims[n] then
      FlattenSnoc(p[..n], p[n] + 1, dims);
      p[..n] + [p[n] + 1]
    else
      assert Size(dims) == Size(dims[..n]) * dims[n];
      Carry(Flatten(p[..n], dims[..n]), Size(dims[..n]), dims[n]);
      var q := Next(p[..n], dims[..n]);
      FlattenSnoc(q, 0, dims);
      NextCarry(Flatten(p[..n], dims[..n]), Flatten(q, dims[..n]), dims[n], p[n]);
      q + [0]
  }

  /** The cell at row-major address i: the i-th cell `np.ndindex` yields. */
  function Unflatten(i: nat, dims: seq<nat>): (p: Coord)
    requires ValidDims(dims) && i < Size(dims)
    ensures InLattice(p, dims) && Flatten(p, dims) == i
  {
    if i == 0 then
      OriginFirst(dims);
      Origin(|dims|)
    else
      Next(Unflatten(i - 1, dims), dims)
  }

  /** The address after a carry: (a + 1) * d + 0 is one past a * d + (d - 1). */
  lemma NextCarry(a: nat, a': nat, d: nat, x: nat)
    requires a' == a + 1 && x + 1 == d
    ensures a' * d + 0 == a * d + x + 1
  {
  }

  /** Carrying into the previous axis: the arithmetic behind `Next`. */
  lemma Carry(a: nat, b: nat, d: nat)
    requires a * d + d < b * d
    ensures a + 1 < b && (a + 1) * d == a * d + d
  {
  }

  /** The address of a cell, split at its last coordinate. */
  lemma FlattenSnoc(init: Coord, x: nat, dims: seq<nat>)
    requires |dims| == |init| + 1 && InLattice(init + [x], dims)
    ensures InLattice(init, dims[..|init|])
    ensures Flatten(init + [x], dims) == Flatten(init, dims[..|init|]) * dims[|init|] + x
  {
    assert (init + [x])[..|init|] == init;
  }

  /** Sum of the coordinates: the number of residues consumed so far. */
  function Sum(p: Coord): nat
  {
    if |p| == 0 then 0 else Sum(p[..|p| - 1]) + p[|p| - 1]
  }

  function Pow2(n: nat): nat
  {
    if n == 0 then 1 else 2 * Pow2(n - 1)
  }

  /**
    The move whose code is m: the n low bits of m, most significant first, so
    that increasing codes follow `itertools.product([0, 1], repeat=n)`.
   */
  function Bits(m: nat, n: nat): (step: Move)
    ensures |step| == n
  {
    if n == 0 then [] else Bits(m / 2, n - 1) + [m % 2 == 1]
  }

  /**
    A larger code gives a later move in `itertools.product` order: the two
    moves agree before some sequence k, which the smaller code keeps in place
    and the larger one advances.
   */
  lemma {:induction false} BitsOrder(m: nat, m': nat, n: nat) returns (k: nat)
    requires m < m' < Pow2(n)
    ensures k < n && Bits(m, n)[..k] == Bits(m', n)[..k]
    ensures !Bits(m, n)[k] && Bits(m', n)[k]
  {
    if m / 2 == m' / 2 {
      k := n - 1;
      assert Bits(m, n)[..k] == Bits(m / 2, n - 1);
      assert Bits(m', n)[..k] == Bits(m' / 2, n - 1);
    } else {
      k := BitsOrder(m / 2, m' / 2, n - 1);
      assert Bits(m, n)[..k] == Bits(m / 2, n - 1)[..k];
      assert Bits(m', n)[..k] == Bits(m' / 2, n - 1)[..k];
    }
  }

  /** The code of a move, read as a binary numeral. */
  function Code(step: Move): nat
  {
    if |step| == 0 then 0
    else 2 * Code(step[..|step| - 1]) + (if step[|step| - 1] then 1 else 0)
  }

  /** Codes 0 .. 2^n - 1 enumerate every move of length n exactly once. */
  lemma {:induction false} CodeBits(step: Move, m: nat)
    ensures Code(step) < Pow2(|step|) && Bits(Code(step), |step|) == step
    ensures m < Pow2(|step|) ==> Code(Bits(m, |step|)) == m
  {
    if |step| > 0 {
      var n := |step| - 1;
      CodeBits(step[..n], m / 2);
      assert step == step[..n] + [step[n]];
      assert Bits(m, |step|)[..n] == Bits(m / 2, n);
    }
  }

  /** The move in which no sequence advances. */
  function ZeroMove(n: nat): (step: Move)
    ensures |step| == n
  {
    seq(n, _ => false)
  }

  /** The move in which only sequence k advances. */
  function UnitMove(n: nat, k: nat): (step: Move)
    ensures |step| == n
  {
    seq(n, i => i == k)
  }

  /** No coordinate would become negative (src/msa/msa.py:40). */
  predicate Fits(p: Coord, step: Move)
  {
    |step| == |p| && forall k :: 0 <= k < |p| ==> step[k] ==> p[k] > 0
  }

  /** A move the fill and the traceback consider at p: not all-zero, and it fits. */
  predicate IsMove(p: Coord, step: Move)
  {
    Fits(p, step) && step != ZeroMove(|step|)
  }

  /** The predecessor p - step. */
  function Sub(p: Coord, step: Move): (q: Coord)
    requires Fits(p, step)
    ensures |q| == |p|
  {
    seq(|p|, k requires 0 <= k < |p| => if step[k] then p[k] - 1 else p[k])
  }

  /** Stepping back along a move stays in the lattice, lowers the consumed count
      and lands on a strictly earlier row-major address: the fill has already
      written every cell it reads. */
  lemma {:induction false} MoveBack(p: Coord, step: Move, dims: seq<nat>)
    requires InLattice(p, dims) && IsMove(p, step)
    ensures InLattice(Sub(p, step), dims) && Below(Sub(p, step), p)
    ensures Sum(Sub(p, step)) < Sum(p)
    ensures Flatten(Sub(p, step), dims) < Flatten(p, dims)
  {
    var q := Sub(p, step);
    assert q != p by {
      var k :| 0 <= k < |step| && step[k] != ZeroMove(|step|)[k];
      assert q[k] != p[k];
    }
    SumBelow(q, p);
    FlattenMonotone(q, p, dims);
  }

  lemma {:induction false} SumBelow(q: Coord, p: Coord)
    requires Below(q, p)
    ensures Sum(q) <= Sum(p)
    ensures q != p ==> Sum(q) < Sum(p)
  {
    if |p| > 0 {
      var n := |p| - 1;
      SumBelow(q[..n], p[..n]);
      if q[..n] == p[..n] {
        assert q == q[..n] + [q[n]] && p == p[..n] + [p[n]];
      }
    }
  }

  /** Some move exists at p exactly when p is not the origin, so the traceback
      always has a real move to take until it reaches the origin. */
  lemma MoveExists(p: Coord)
    ensures (exists m :: 0 <= m < Pow2(|p|) && IsMove(p, Bits(m, |p|))) <==> p != Origin(|p|)
  {
    var n := |p|;
    if p != Origin(n) {
      var k :| 0 <= k < n && p[k] != 0;
      var step := UnitMove(n, k);
      assert step[k] != ZeroMove(n)[k];
      CodeBits(step, 0);
      assert IsMove(p, Bits(Code(step), n));
    } else {
      forall m | 0 <= m < Pow2(n) && Fits(p, Bits(m, n))
        ensures Bits(m, n) == ZeroMove(n)
      {
      }
    }
  }
}
