/**
  The traceback and result assembly of `Msa.align` (src/msa/msa.py:59-87):
  from the finished corner back to the origin, take the move whose
  predecessor holds the largest stored score (the last such move on a tie),
  and prepend the column that move emits.
 */
module Trace {
  import opened Outcomes
  import opened Lattice
  import Fill

  /** The gap marker of the output (line 79). */
  const Gap: char := '-'

  /** `dp[p - delta]` for a move at p. */
  function ValueAt(cells: seq<int>, dims: seq<nat>, p: Coord, step: Move): int
    requires |cells| == Size(dims) && InLattice(p, dims) && IsMove(p, step)
  {
    MoveBack(p, step, dims);
    cells[Flatten(Sub(p, step), dims)]
  }

  /** No code from m on gives a move at p that passes the skip tests. */
  predicate NoMoveFrom(p: Coord, n: nat, m: nat)
  {
    forall m' :: m <= m' < Pow2(n) ==> !IsMove(p, Bits(m', n))
  }

  /**
    Lines 63-74 from the move with code m on: `maxScore` (None is `-np.inf`)
    and `maxMove` (None is the `(-1,) * n` placeholder) are the loop's state.
   */
  function PickFrom(cells: seq<int>, dims: seq<nat>, p: Coord, m: nat, maxScore: Option<int>, maxMove: Option<nat>)
    : (r: Option<nat>)
    requires |cells| == Size(dims) && InLattice(p, dims) && m <= Pow2(|dims|)
    requires maxMove.Some? ==> maxMove.value < Pow2(|dims|) && IsMove(p, Bits(maxMove.value, |dims|))
    requires maxMove.None? ==> maxScore.None?
    ensures r.Some? ==> r.value < Pow2(|dims|) && IsMove(p, Bits(r.value, |dims|))
    ensures r.None? ==> maxMove.None? && NoMoveFrom(p, |dims|, m)
    decreases Pow2(|dims|) - m
  {
    if m == Pow2(|dims|) then maxMove
    else
      var step := Bits(m, |dims|);
      if !IsMove(p, step) then PickFrom(cells, dims, p, m + 1, maxScore, maxMove)
      else
        var v := ValueAt(cells, dims, p, step);
        var top := if maxScore.None? || maxScore.value < v then v else maxScore.value;
        PickFrom(cells, dims, p, m + 1, Some(top), if v == top then Some(m) else maxMove)
  }

  /** The move the traceback takes at p, None when there is none. */
  function Choice(cells: seq<int>, dims: seq<nat>, p: Coord): (r: Option<nat>)
    requires |cells| == Size(dims) && InLattice(p, dims)
    ensures r.Some? ==> r.value < Pow2(|dims|) && IsMove(p, Bits(r.value, |dims|))
  {
    PickFrom(cells, dims, p, 0, None, None)
  }

  /** c is a move among those with codes below m whose predecessor score is largest, and the last such. */
  predicate LastMaximal(cells: seq<int>, dims: seq<nat>, p: Coord, c: nat, m: nat)
    requires |cells| == Size(dims) && InLattice(p, dims) && m <= Pow2(|dims|)
  {
    && c < m
    && IsMove(p, Bits(c, |dims|))
    && forall m' :: 0 <= m' < m && IsMove(p, Bits(m', |dims|)) ==>
         && ValueAt(cells, dims, p, Bits(m', |dims|)) <= ValueAt(cells, dims, p, Bits(c, |dims|))
         && (c < m' ==> ValueAt(cells, dims, p, Bits(m', |dims|)) < ValueAt(cells, dims, p, Bits(c, |dims|)))
  }

  /** The state of the loop at lines 65-74 after the moves with codes below m. */
  predicate PickState(cells: seq<int>, dims: seq<nat>, p: Coord, m: nat, maxScore: Option<int>, maxMove: Option<nat>)
    requires |cells| == Size(dims) && InLattice(p, dims) && m <= Pow2(|dims|)
  {
    && (maxMove.None? ==> maxScore.None? && forall m' :: 0 <= m' < m ==> !IsMove(p, Bits(m', |dims|)))
    && (maxMove.Some? ==>
         && maxScore.Some?
         && LastMaximal(cells, dims, p, maxMove.value, m)
         && maxScore.value == ValueAt(cells, dims, p, Bits(maxMove.value, |dims|)))
  }

  /** One round of the loop at lines 65-74 keeps `PickState` and leaves what the rest of the loop returns unchanged. */
  lemma PickAdvance(cells: seq<int>, dims: seq<nat>, p: Coord, m: nat, maxScore: Option<int>, maxMove: Option<nat>)
    returns (score': Option<int>, move': Option<nat>)
    requires |cells| == Size(dims) && InLattice(p, dims) && m < Pow2(|dims|)
    requires PickState(cells, dims, p, m, maxScore, maxMove)
    ensures PickState(cells, dims, p, m + 1, score', move')
    ensures move'.Some? ==> move'.value < Pow2(|dims|) && IsMove(p, Bits(move'.value, |dims|))
    ensures move'.None? ==> score'.None?
    ensures maxMove.Some? ==> maxMove.value < Pow2(|dims|) && IsMove(p, Bits(maxMove.value, |dims|))
    ensures PickFrom(cells, dims, p, m, maxScore, maxMove) == PickFrom(cells, dims, p, m + 1, score', move')
  {
    var step := Bits(m, |dims|);
    score', move' := maxScore, maxMove;
    if IsMove(p, step) {
      var v := ValueAt(cells, dims, p, step);
      score' := Some(if maxScore.None? || maxScore.value < v then v else maxScore.value);
      move' := if v == score'.value then Some(m) else maxMove;
    }
  }

  /** r is the last maximal move over all codes, and None only when there is no move. */
  predicate Picked(cells: seq<int>, dims: seq<nat>, p: Coord, r: Option<nat>)
    requires |cells| == Size(dims) && InLattice(p, dims)
  {
    && (r.None? ==> NoMoveFrom(p, |dims|, 0))
    && (r.Some? ==> LastMaximal(cells, dims, p, r.value, Pow2(|dims|)))
  }

  lemma PickDone(cells: seq<int>, dims: seq<nat>, p: Coord, maxScore: Option<int>, maxMove: Option<nat>)
    requires |cells| == Size(dims) && InLattice(p, dims)
    requires PickState(cells, dims, p, Pow2(|dims|), maxScore, maxMove)
    ensures Picked(cells, dims, p, maxMove)
  {
  }

  lemma {:induction false} PickFromLastMaximal(cells: seq<int>, dims: seq<nat>, p: Coord, m: nat,
                                              maxScore: Option<int>, maxMove: Option<nat>)
    requires |cells| == Size(dims) && InLattice(p, dims) && m <= Pow2(|dims|)
    requires PickState(cells, dims, p, m, maxScore, maxMove)
    requires maxMove.Some? ==> maxMove.value < Pow2(|dims|) && IsMove(p, Bits(maxMove.value, |dims|))
    ensures Picked(cells, dims, p, PickFrom(cells, dims, p, m, maxScore, maxMove))
    decreases Pow2(|dims|) - m
  {
    if m == Pow2(|dims|) {
      PickDone(cells, dims, p, maxScore, maxMove);
    } else {
      var score', move' := PickAdvance(cells, dims, p, m, maxScore, maxMove);
      PickFromLastMaximal(cells, dims, p, m + 1, score', move');
    }
  }

  /**
    The traceback's tie-break (lines 63-74): at every coordinate other than
    the origin a move is chosen, and it is the last move in
    `itertools.product` order among those whose predecessor's stored score is
    largest; at the origin there is none.
   */
  lemma ChoiceIsLastMaximal(cells: seq<int>, dims: seq<nat>, p: Coord)
    requires |cells| == Size(dims) && InLattice(p, dims)
    ensures Choice(cells, dims, p).Some? <==> p != Origin(|p|)
    ensures Choice(cells, dims, p).Some? ==> LastMaximal(cells, dims, p, Choice(cells, dims, p).value, Pow2(|dims|))
  {
    PickFromLastMaximal(cells, dims, p, 0, None, None);
    MoveExists(p);
  }

  /** Lines 63-74: choose the move the traceback takes at p. */
  method SelectMove(dp: array<int>, dims: seq<nat>, p: Coord) returns (maxMove: Option<nat>)
    requires dp.Length == Size(dims) && InLattice(p, dims)
    ensures maxMove == Choice(dp[..], dims, p)
  {
    var n := |dims|;
    var maxScore: Option<int> := None;
    maxMove := None;
    var m := 0;
    while m < Pow2(n)
      invariant 0 <= m <= Pow2(n)
      invariant maxMove.Some? ==> maxMove.value < Pow2(n) && IsMove(p, Bits(maxMove.value, n))
      invariant maxMove.None? ==> maxScore.None?
      invariant PickFrom(dp[..], dims, p, m, maxScore, maxMove) == Choice(dp[..], dims, p)
    {
      var step := Bits(m, n);
      if step != ZeroMove(n) && Fits(p, step) {
        MoveBack(p, step, dims);
        var value := dp[Flatten(Sub(p, step), dims)];
        maxScore := if maxScore.None? || maxScore.value < value then Some(value) else maxScore;
        if value == maxScore.value {
          maxMove := Some(m);
        }
      }
      m := m + 1;
    }
  }

  /** The column emitted for a move into q + step: residue q[k] of each advancing sequence, a gap elsewhere (line 79). */
  function Column(s: seq<string>, q: Coord, step: Move): (col: seq<char>)
    requires |q| == |step| == |s| && forall k :: 0 <= k < |s| && step[k] ==> q[k] < |s[k]|
    ensures |col| == |s|
  {
    seq(|s|, k requires 0 <= k < |s| => if step[k] then s[k][q[k]] else Gap)
  }

  /** The columns the traceback produces from p back to the origin, in output order. */
  function TraceFrom(s: seq<string>, cells: seq<int>, p: Coord): seq<seq<char>>
    requires |cells| == Size(Fill.Dims(s)) && InLattice(p, Fill.Dims(s))
    decreases Sum(p)
  {
    if p == Origin(|p|) then []
    else
      match Choice(cells, Fill.Dims(s), p)
      case None => []
      case Some(c) =>
        var step := Bits(c, |s|);
        MoveBack(p, step, Fill.Dims(s));
        var q := Sub(p, step);
        TraceFrom(s, cells, q) + [Column(s, q, step)]
  }

  /** Lines 60-82: walk back from the finished corner, prepending one column per step. */
  method Traceback(s: seq<string>, dp: array<int>) returns (alignments: seq<seq<char>>)
    requires dp.Length == Size(Fill.Dims(s))
    ensures alignments == TraceFrom(s, dp[..], Fill.Lengths(s))
  {
    var n := |s|;
    var dims := Fill.Dims(s);
    var indices := Fill.Lengths(s);
    alignments := [];
    while indices != Origin(n)
      invariant InLattice(indices, dims)
      invariant TraceFrom(s, dp[..], indices) + alignments == TraceFrom(s, dp[..], Fill.Lengths(s))
      decreases Sum(indices)
    {
      var maxMove := SelectMove(dp, dims, indices);
      ghost var c, q := TraceAdvance(s, dp[..], indices, alignments);
      var step := Bits(maxMove.value, n);
      indices := Sub(indices, step);
      alignments := [Column(s, indices, step)] + alignments;
    }
  }

  /**
    Entry k of every sequence in `columns`: the string of sequence k when they
    are the alignment's columns (line 86), the column at position k when they
    are the result strings.
   */
  function Row(columns: seq<seq<char>>, k: nat): (row: string)
    requires forall c :: 0 <= c < |columns| ==> k < |columns[c]|
    ensures |row| == |columns|
  {
    seq(|columns|, c requires 0 <= c < |columns| => columns[c][k])
  }

  /** Lines 84-87: one string per sequence, all of the same length. */
  function Assemble(columns: seq<seq<char>>, n: nat): (result: seq<string>)
    requires forall c :: 0 <= c < |columns| ==> |columns[c]| == n
    ensures |result| == n
    ensures forall k :: 0 <= k < n ==> |result[k]| == |columns| && forall c :: 0 <= c < |columns| ==> result[k][c] == columns[c][k]
  {
    seq(n, k requires 0 <= k < n => Row(columns, k))
  }

  // ---------------------------------------------------------------------------
  // Properties of the traceback, for any lattice contents

  /** The characters of a string that are not gaps, in order. */
  function RemoveGaps(r: string): string
  {
    if r == [] then [] else RemoveGaps(r[..|r| - 1]) + (if r[|r| - 1] == Gap then [] else [r[|r| - 1]])
  }

  /** Some entry of the column is not a gap. */
  predicate HasResidue(col: seq<char>)
  {
    exists k :: 0 <= k < |col| && col[k] != Gap
  }

  predicate GapFree(r: string)
  {
    forall i :: 0 <= i < |r| ==> r[i] != Gap
  }

  /** The step the traceback takes at a coordinate other than the origin. */
  lemma StepAt(s: seq<string>, cells: seq<int>, p: Coord) returns (c: nat, q: Coord)
    requires |cells| == Size(Fill.Dims(s)) && InLattice(p, Fill.Dims(s)) && p != Origin(|p|)
    ensures Choice(cells, Fill.Dims(s), p) == Some(c) && c < Pow2(|s|) && IsMove(p, Bits(c, |s|))
    ensures q == Sub(p, Bits(c, |s|)) && InLattice(q, Fill.Dims(s)) && Sum(q) < Sum(p)
    ensures TraceFrom(s, cells, p) == TraceFrom(s, cells, q) + [Column(s, q, Bits(c, |s|))]
  {
    ChoiceIsLastMaximal(cells, Fill.Dims(s), p);
    c := Choice(cells, Fill.Dims(s), p).value;
    MoveBack(p, Bits(c, |s|), Fill.Dims(s));
    q := Sub(p, Bits(c, |s|));
  }

  /** One round of the loop at lines 60-82: the columns still to come from p are those from q and the one the move emits. */
  lemma TraceAdvance(s: seq<string>, cells: seq<int>, p: Coord, alignments: seq<seq<char>>) returns (c: nat, q: Coord)
    requires |cells| == Size(Fill.Dims(s)) && InLattice(p, Fill.Dims(s)) && p != Origin(|p|)
    ensures Choice(cells, Fill.Dims(s), p) == Some(c) && c < Pow2(|s|) && IsMove(p, Bits(c, |s|))
    ensures q == Sub(p, Bits(c, |s|)) && InLattice(q, Fill.Dims(s)) && Sum(q) < Sum(p)
    ensures forall k :: 0 <= k < |s| && Bits(c, |s|)[k] ==> q[k] < |s[k]|
    ensures TraceFrom(s, cells, p) + alignments == TraceFrom(s, cells, q) + ([Column(s, q, Bits(c, |s|))] + alignments)
  {
    c, q := StepAt(s, cells, p);
    var rest := TraceFrom(s, cells, q);
    var col := Column(s, q, Bits(c, |s|));
    assert rest + ([col] + alignments) == (rest + [col]) + alignments;
  }

  /**
    Output shape (lines 60-87): every column has one entry per sequence; there
    are at least as many columns as any sequence has residues to consume, and
    at most as many as all of them together, since every step consumes at
    least one residue and at most one of each sequence.
   */
  lemma {:induction false} TraceShape(s: seq<string>, cells: seq<int>, p: Coord)
    requires |cells| == Size(Fill.Dims(s)) && InLattice(p, Fill.Dims(s))
    ensures forall c :: 0 <= c < |TraceFrom(s, cells, p)| ==> |TraceFrom(s, cells, p)[c]| == |s|
    ensures forall k :: 0 <= k < |p| ==> p[k] <= |TraceFrom(s, cells, p)|
    ensures |TraceFrom(s, cells, p)| <= Sum(p)
    decreases Sum(p)
  {
    if p != Origin(|p|) {
      var c, q := StepAt(s, cells, p);
      TraceShape(s, cells, q);
      forall k | 0 <= k < |p| ensures p[k] <= |TraceFrom(s, cells, p)| {
        assert p[k] <= q[k] + 1;
      }
    }
  }

  /** With gap-free inputs no column consists of gaps only: every step advances some sequence. */
  lemma {:induction false} TraceNoGapColumn(s: seq<string>, cells: seq<int>, p: Coord)
    requires |cells| == Size(Fill.Dims(s)) && InLattice(p, Fill.Dims(s))
    requires forall k :: 0 <= k < |s| ==> GapFree(s[k])
    ensures forall c :: 0 <= c < |TraceFrom(s, cells, p)| ==> HasResidue(TraceFrom(s, cells, p)[c])
    decreases Sum(p)
  {
    if p != Origin(|p|) {
      var c, q := StepAt(s, cells, p);
      TraceNoGapColumn(s, cells, q);
      var step := Bits(c, |s|);
      var k :| 0 <= k < |step| && step[k] != ZeroMove(|step|)[k];
      var col := Column(s, q, step);
      assert col[k] == s[k][q[k]] != Gap;
      assert HasResidue(col);
    }
  }

  lemma RowSnoc(columns: seq<seq<char>>, col: seq<char>, k: nat)
    requires forall c :: 0 <= c < |columns| ==> k < |columns[c]|
    requires k < |col|
    ensures Row(columns + [col], k) == Row(columns, k) + [col[k]]
  {
  }

  /**
    Residue preservation (lines 76-86): removing the gaps from the string of a
    gap-free sequence k gives back its first p[k] residues, so from the
    finished corner the whole sequence, in order.
   */
  lemma {:induction false} TraceResidues(s: seq<string>, cells: seq<int>, p: Coord, k: nat)
    requires |cells| == Size(Fill.Dims(s)) && InLattice(p, Fill.Dims(s))
    requires k < |s| && GapFree(s[k])
    ensures forall c :: 0 <= c < |TraceFrom(s, cells, p)| ==> k < |TraceFrom(s, cells, p)[c]|
    ensures RemoveGaps(Row(TraceFrom(s, cells, p), k)) == s[k][..p[k]]
    decreases Sum(p)
  {
    TraceShape(s, cells, p);
    if p != Origin(|p|) {
      var c, q := StepAt(s, cells, p);
      TraceResidues(s, cells, q, k);
      var step := Bits(c, |s|);
      assert step[k] ==> q[k] < |s[k]| && p[k] == q[k] + 1;
      assert !step[k] ==> p[k] == q[k];
      ResidueStep(s[k], TraceFrom(s, cells, q), Column(s, q, step), k, q[k]);
    } else {
      assert Origin(|p|)[k] == 0;
    }
  }

  /** Appending a column adds its entry for sequence k to the gap-free reading of row k. */
  lemma ResidueStep(r: string, before: seq<seq<char>>, col: seq<char>, k: nat, used: nat)
    requires GapFree(r) && used <= |r|
    requires forall c :: 0 <= c < |before| ==> k < |before[c]|
    requires k < |col| && (col[k] == Gap || (used < |r| && col[k] == r[used]))
    requires RemoveGaps(Row(before, k)) == r[..used]
    ensures col[k] == Gap ==> RemoveGaps(Row(before + [col], k)) == r[..used]
    ensures col[k] != Gap ==> RemoveGaps(Row(before + [col], k)) == r[..used + 1]
  {
    RowSnoc(before, col, k);
    var row := Row(before, k) + [col[k]];
    assert row[..|row| - 1] == Row(before, k);
    if col[k] != Gap {
      assert r[..used + 1] == r[..used] + [r[used]];
    }
  }

  /** A single sequence comes back unchanged: its only move advances it, so no gap is ever emitted. */
  lemma {:induction false} TraceSingle(s: seq<string>, cells: seq<int>, p: Coord)
    requires |s| == 1
    requires |cells| == Size(Fill.Dims(s)) && InLattice(p, Fill.Dims(s))
    ensures forall c :: 0 <= c < |TraceFrom(s, cells, p)| ==> 0 < |TraceFrom(s, cells, p)[c]|
    ensures Row(TraceFrom(s, cells, p), 0) == s[0][..p[0]]
    decreases Sum(p)
  {
    TraceShape(s, cells, p);
    if p != Origin(|p|) {
      var c, q := StepAt(s, cells, p);
      TraceSingle(s, cells, q);
      var step := Bits(c, 1);
      assert step == [step[0]] && ZeroMove(1) == [false];
      var before := TraceFrom(s, cells, q);
      RowSnoc(before, Column(s, q, step), 0);
      assert s[0][..p[0]] == s[0][..q[0]] + [s[0][q[0]]];
    } else {
      assert Origin(|p|)[0] == 0;
    }
  }
}
