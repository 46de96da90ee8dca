/**
  The lattice fill of `Msa.align` (src/msa/msa.py:30-57): every cell is
  relaxed, in row-major order, with the sum-of-pairs score of each move that
  reaches it plus the score already stored at the move's predecessor.
 */
module Fill {
  import opened Outcomes
  import opened Lattice
  import opened Blosum

  /** The value `np.full` gives every cell before the fill (line 33). */
  const Sentinel: int := -10

  /** The table key of a sequence that does not advance in a column (lines 48-49). */
  const GapKey: string := "*"

  /** The extents of the lattice: one more than each sequence's length (line 31). */
  function Dims(s: seq<string>): (dims: seq<nat>)
    ensures |dims| == |s| && ValidDims(dims)
  {
    seq(|s|, k requires 0 <= k < |s| => |s[k]| + 1)
  }

  /** The corner where every sequence is finished (line 61). */
  function Lengths(s: seq<string>): (p: Coord)
    ensures InLattice(p, Dims(s))
  {
    seq(|s|, k requires 0 <= k < |s| => |s[k]|)
  }

  /** `blosum[a][b]`, or None where Python raises KeyError (line 54). */
  function Lookup(t: Table, a: string, b: string): Option<int>
  {
    if a in t && b in t[a] then Some(t[a][b]) else None
  }

  /**
    The key sequence k contributes to the column at p for the move: its residue
    at index p[k] (not p[k] - 1) when it advances, the gap key otherwise.
   */
  function Key(s: seq<string>, p: Coord, step: Move, k: nat): string
    requires k < |s| == |p| == |step| && p[k] < |s[k]|
  {
    if step[k] then [s[k][p[k]]] else GapKey
  }

  /** The contribution of the pair (i, j): nothing when either sequence is finished at p. */
  function PairScore(t: Table, s: seq<string>, p: Coord, step: Move, i: nat, j: nat): Option<int>
    requires InLattice(p, Dims(s)) && |step| == |s| && i < |s| && j < |s|
  {
    if p[i] >= |s[i]| || p[j] >= |s[j]| then Some(0)
    else Lookup(t, Key(s, p, step, i), Key(s, p, step, j))
  }

  function AddScores(a: Option<int>, b: Option<int>): Option<int>
  {
    if a.Some? && b.Some? then Some(a.value + b.value) else None
  }

  /**
    The pairs from (i, j) on in `itertools.combinations` order, summed; None
    when any of their lookups fails.
   */
  function PairsFrom(t: Table, s: seq<string>, p: Coord, step: Move, i: nat, j: nat): Option<int>
    requires InLattice(p, Dims(s)) && |step| == |s| && i < j <= |s| + 1
    decreases |s| - i, |s| + 1 - j
  {
    if i >= |s| then Some(0)
    else if j >= |s| then PairsFrom(t, s, p, step, i + 1, i + 2)
    else AddScores(PairScore(t, s, p, step, i, j), PairsFrom(t, s, p, step, i, j + 1))
  }

  /** The column score of lines 43-54: the sum over all pairs i < j. */
  function ColumnScore(t: Table, s: seq<string>, p: Coord, step: Move): Option<int>
    requires InLattice(p, Dims(s)) && |step| == |s|
  {
    PairsFrom(t, s, p, step, 0, 1)
  }

  /** Every lookup the column at p for the move performs finds its key. */
  predicate PairsDefined(t: Table, s: seq<string>, p: Coord, step: Move)
    requires InLattice(p, Dims(s)) && |step| == |s|
  {
    forall i, j :: 0 <= i < j < |s| ==> PairScore(t, s, p, step, i, j).Some?
  }

  lemma {:induction false} PairsFromDefined(t: Table, s: seq<string>, p: Coord, step: Move, i: nat, j: nat)
    requires InLattice(p, Dims(s)) && |step| == |s| && i < j <= |s| + 1
    ensures PairsFrom(t, s, p, step, i, j).Some? <==>
      (forall j' :: j <= j' < |s| ==> PairScore(t, s, p, step, i, j').Some?) &&
      (forall i', j' :: i < i' < j' < |s| ==> PairScore(t, s, p, step, i', j').Some?)
    decreases |s| - i, |s| + 1 - j
  {
    if i < |s| {
      if j >= |s| {
        PairsFromDefined(t, s, p, step, i + 1, i + 2);
      } else {
        PairsFromDefined(t, s, p, step, i, j + 1);
      }
    }
  }

  /**
    The column score is defined exactly when every pair lookup is: a missing
    table entry is a KeyError for the pair that needs it and for no other.
   */
  lemma ColumnScoreDefined(t: Table, s: seq<string>, p: Coord, step: Move)
    requires InLattice(p, Dims(s)) && |step| == |s|
    ensures ColumnScore(t, s, p, step).Some? <==> PairsDefined(t, s, p, step)
  {
    PairsFromDefined(t, s, p, step, 0, 1);
  }

  /**
    Lines 43-54: sum `blosum[a_i][a_j]` over the pairs, skipping a pair when
    either sequence is finished; None is the KeyError of line 54.
   */
  method ScoreColumn(t: Table, s: seq<string>, p: Coord, step: Move) returns (r: Option<int>)
    requires InLattice(p, Dims(s)) && |step| == |s|
    ensures r == ColumnScore(t, s, p, step)
  {
    var n := |s|;
    var score := 0;
    var i := 0;
    while i < n
      invariant 0 <= i <= n
      invariant AddScores(Some(score), PairsFrom(t, s, p, step, i, i + 1)) == ColumnScore(t, s, p, step)
    {
      var j := i + 1;
      while j < n
        invariant i < j <= n
        invariant AddScores(Some(score), PairsFrom(t, s, p, step, i, j)) == ColumnScore(t, s, p, step)
      {
        if p[i] < |s[i]| && p[j] < |s[j]| {
          var a := if step[i] then [s[i][p[i]]] else GapKey;
          var b := if step[j] then [s[j][p[j]]] else GapKey;
          if a !in t || b !in t[a] {
            return None;
          }
          score := score + t[a][b];
        }
        j := j + 1;
      }
      i := i + 1;
    }
    r := Some(score);
  }

  /** A table holding an entry for every ordered pair of the given keys. */
  predicate Covers(t: Table, keys: set<string>)
  {
    forall a, b :: a in keys && b in keys ==> a in t && b in t[a]
  }

  /** The gap key and the one-character key of every residue of every sequence. */
  function Keys(s: seq<string>): set<string>
  {
    {GapKey} + set k, i | 0 <= k < |s| && 0 <= i < |s[k]| :: [s[k][i]]
  }

  /** Every move of the enumeration at p has a column score. */
  ghost predicate CellScorable(t: Table, s: seq<string>, p: Coord)
    requires InLattice(p, Dims(s))
  {
    forall m :: 0 <= m < Pow2(|s|) && IsMove(p, Bits(m, |s|)) ==> ColumnScore(t, s, p, Bits(m, |s|)).Some?
  }

  /** The fill raises no KeyError: every cell has every column score it asks for. */
  ghost predicate Scorable(t: Table, s: seq<string>)
  {
    forall p :: InLattice(p, Dims(s)) ==> CellScorable(t, s, p)
  }

  /** A table covering every residue and the gap key never makes the fill raise. */
  lemma CoveringTableScorable(t: Table, s: seq<string>)
    requires Covers(t, Keys(s))
    ensures Scorable(t, s)
  {
    forall p, m | InLattice(p, Dims(s)) && 0 <= m < Pow2(|s|) && IsMove(p, Bits(m, |s|))
      ensures ColumnScore(t, s, p, Bits(m, |s|)).Some?
    {
      var step := Bits(m, |s|);
      forall i, j | 0 <= i < j < |s| ensures PairScore(t, s, p, step, i, j).Some? {
        if p[i] < |s[i]| && p[j] < |s[j]| {
          var a, b := Key(s, p, step, i), Key(s, p, step, j);
          assert a in Keys(s) && b in Keys(s);
        }
      }
      ColumnScoreDefined(t, s, p, step);
    }
  }

  /** s' is s with, at most, the first residue of each sequence replaced. */
  predicate SameBeyondFirst(s: seq<string>, s': seq<string>)
  {
    |s'| == |s| &&
    forall k :: 0 <= k < |s| ==> |s'[k]| == |s[k]| && forall i :: 1 <= i < |s[k]| ==> s'[k][i] == s[k][i]
  }

  /**
    The fill touches residue index 0 of no sequence: a move can advance
    sequence k at p only when p[k] >= 1, and the column reads index p[k].
   */
  lemma FirstResidueUnread(t: Table, s: seq<string>, s': seq<string>, p: Coord, step: Move)
    requires SameBeyondFirst(s, s')
    requires InLattice(p, Dims(s)) && IsMove(p, step)
    ensures Dims(s') == Dims(s)
    ensures ColumnScore(t, s, p, step) == ColumnScore(t, s', p, step)
  {
    assert Dims(s') == Dims(s);
    forall i, j | 0 <= i < j < |s| ensures PairScore(t, s, p, step, i, j) == PairScore(t, s', p, step, i, j) {
      if p[i] < |s[i]| && p[j] < |s[j]| {
        SameKey(s, s', p, step, i);
        SameKey(s, s', p, step, j);
      }
    }
    SamePairs(t, s, s', p, step, 0, 1);
  }

  lemma SameKey(s: seq<string>, s': seq<string>, p: Coord, step: Move, k: nat)
    requires SameBeyondFirst(s, s')
    requires k < |s| == |p| && Fits(p, step) && p[k] < |s[k]|
    ensures Key(s, p, step, k) == Key(s', p, step, k)
  {
  }

  lemma {:induction false} SamePairs(t: Table, s: seq<string>, s': seq<string>, p: Coord, step: Move, i: nat, j: nat)
    requires |s'| == |s| && Dims(s') == Dims(s)
    requires InLattice(p, Dims(s)) && |step| == |s| && i < j <= |s| + 1
    requires forall i, j :: 0 <= i < j < |s| ==> PairScore(t, s, p, step, i, j) == PairScore(t, s', p, step, i, j)
    ensures PairsFrom(t, s, p, step, i, j) == PairsFrom(t, s', p, step, i, j)
    decreases |s| - i, |s| + 1 - j
  {
    if i < |s| {
      if j >= |s| {
        SamePairs(t, s, s', p, step, i + 1, i + 2);
      } else {
        SamePairs(t, s, s', p, step, i, j + 1);
      }
    }
  }

  // ---------------------------------------------------------------------------
  // What the fill computes

  /**
    The score a move contributes at p.  A missing table entry aborts the fill
    (see FillLattice), so the 0 used for that case is never stored.
   */
  function MoveScore(t: Table, s: seq<string>, p: Coord, step: Move): int
    requires InLattice(p, Dims(s)) && |step| == |s|
  {
    match ColumnScore(t, s, p, step)
    case Some(v) => v
    case None => 0
  }

  /** The final score of cell p: the sentinel, raised by every move's candidate in turn. */
  function Best(t: Table, s: seq<string>, p: Coord): int
    requires InLattice(p, Dims(s))
    decreases Sum(p), Pow2(|s|) + 1
  {
    RelaxUpTo(t, s, p, Pow2(|s|))
  }

  /** The value of `dp[p]` after the moves with codes below m (line 57). */
  function RelaxUpTo(t: Table, s: seq<string>, p: Coord, m: nat): int
    requires InLattice(p, Dims(s)) && m <= Pow2(|s|)
    decreases Sum(p), m
  {
    if m == 0 then Sentinel
    else
      var acc := RelaxUpTo(t, s, p, m - 1);
      var step := Bits(m - 1, |s|);
      if IsMove(p, step) then
        var c := Candidate(t, s, p, step);
        if acc < c then c else acc
      else acc
  }

  /** `score + dp[p - delta]` for a move. */
  function Candidate(t: Table, s: seq<string>, p: Coord, step: Move): int
    requires InLattice(p, Dims(s)) && IsMove(p, step)
    decreases Sum(p), 0
  {
    MoveBack(p, step, Dims(s));
    MoveScore(t, s, p, step) + Best(t, s, Sub(p, step))
  }

  /** One more move of the enumeration at p. */
  lemma RelaxStep(t: Table, s: seq<string>, p: Coord, m: nat)
    requires InLattice(p, Dims(s)) && m < Pow2(|s|)
    ensures IsMove(p, Bits(m, |s|)) ==> InLattice(Sub(p, Bits(m, |s|)), Dims(s))
    ensures RelaxUpTo(t, s, p, m + 1) ==
      if IsMove(p, Bits(m, |s|)) then
        var c := MoveScore(t, s, p, Bits(m, |s|)) + Best(t, s, Sub(p, Bits(m, |s|)));
        if RelaxUpTo(t, s, p, m) < c then c else RelaxUpTo(t, s, p, m)
      else RelaxUpTo(t, s, p, m)
  {
    if IsMove(p, Bits(m, |s|)) {
      MoveBack(p, Bits(m, |s|), Dims(s));
    }
  }

  /** After the moves with codes below m, `dp[p]` is at least the sentinel and every candidate seen. */
  lemma {:induction false} RelaxUpToBounds(t: Table, s: seq<string>, p: Coord, m: nat)
    requires InLattice(p, Dims(s)) && m <= Pow2(|s|)
    ensures RelaxUpTo(t, s, p, m) >= Sentinel
    ensures forall m' :: 0 <= m' < m && IsMove(p, Bits(m', |s|)) ==>
      Candidate(t, s, p, Bits(m', |s|)) <= RelaxUpTo(t, s, p, m)
  {
    if m > 0 {
      RelaxUpToBounds(t, s, p, m - 1);
    }
  }

  /** After the moves with codes below m, `dp[p]` is the sentinel or the candidate of one of them, the move w. */
  lemma {:induction false} RelaxUpToAttained(t: Table, s: seq<string>, p: Coord, m: nat) returns (w: Option<nat>)
    requires InLattice(p, Dims(s)) && m <= Pow2(|s|)
    ensures w.None? ==> RelaxUpTo(t, s, p, m) == Sentinel
    ensures w.Some? ==> w.value < m && IsMove(p, Bits(w.value, |s|)) && RelaxUpTo(t, s, p, m) == Candidate(t, s, p, Bits(w.value, |s|))
  {
    w := None;
    if m > 0 {
      w := RelaxUpToAttained(t, s, p, m - 1);
      if IsMove(p, Bits(m - 1, |s|)) && RelaxUpTo(t, s, p, m - 1) < Candidate(t, s, p, Bits(m - 1, |s|)) {
        w := Some(m - 1);
      }
    }
  }

  /**
    The recurrence of lines 33-57: a cell's final score is the largest of the
    sentinel and the candidates of its moves, and it equals one of them.
   */
  lemma BestIsMax(t: Table, s: seq<string>, p: Coord)
    requires InLattice(p, Dims(s))
    ensures Best(t, s, p) >= Sentinel
    ensures forall m :: 0 <= m < Pow2(|s|) && IsMove(p, Bits(m, |s|)) ==>
      Candidate(t, s, p, Bits(m, |s|)) <= Best(t, s, p)
    ensures Best(t, s, p) == Sentinel ||
      exists m: nat :: m < Pow2(|s|) && IsMove(p, Bits(m, |s|)) && Best(t, s, p) == Candidate(t, s, p, Bits(m, |s|))
  {
    RelaxUpToBounds(t, s, p, Pow2(|s|));
    var w := RelaxUpToAttained(t, s, p, Pow2(|s|));
    if w.Some? {
      var m: nat := w.value;
      assert m < Pow2(|s|) && IsMove(p, Bits(m, |s|)) && Best(t, s, p) == Candidate(t, s, p, Bits(m, |s|));
    }
  }

  /** The origin has no move, so the fill never writes it: it keeps the sentinel. */
  lemma BestAtOrigin(t: Table, s: seq<string>)
    ensures InLattice(Origin(|s|), Dims(s)) && Best(t, s, Origin(|s|)) == Sentinel
  {
    OriginFirst(Dims(s));
    MoveExists(Origin(|s|));
    BestIsMax(t, s, Origin(|s|));
  }

  /** `cells` is the lattice after a fill that raised nothing. */
  ghost predicate Filled(t: Table, s: seq<string>, cells: seq<int>)
  {
    && Scorable(t, s)
    && |cells| == Size(Dims(s))
    && forall p :: InLattice(p, Dims(s)) ==> cells[Flatten(p, Dims(s))] == Best(t, s, p)
  }

  /** The lattice the recurrence defines: the Best score of every cell, at its row-major address. */
  ghost function Scores(t: Table, s: seq<string>): (cells: seq<int>)
    ensures |cells| == Size(Dims(s))
  {
    seq(Size(Dims(s)), i requires 0 <= i < Size(Dims(s)) => Best(t, s, Unflatten(i, Dims(s))))
  }

  /** A finished lattice is determined by the table and the sequences: it is `Scores`. */
  lemma FilledIsScores(t: Table, s: seq<string>, cells: seq<int>)
    requires Filled(t, s, cells)
    ensures cells == Scores(t, s)
  {
    forall i | 0 <= i < |cells|
      ensures cells[i] == Scores(t, s)[i]
    {
      var p := Unflatten(i, Dims(s));
      assert cells[Flatten(p, Dims(s))] == Best(t, s, p);
    }
  }

  /** Every cell before row-major address idx holds its final score. */
  ghost predicate FilledBefore(t: Table, s: seq<string>, dp: seq<int>, idx: nat)
    requires |dp| == Size(Dims(s))
  {
    forall q :: InLattice(q, Dims(s)) && Flatten(q, Dims(s)) < idx ==> dp[Flatten(q, Dims(s))] == Best(t, s, q)
  }

  /** No cell before row-major address idx raised KeyError. */
  ghost predicate ScorableBefore(t: Table, s: seq<string>, idx: nat)
  {
    forall q :: InLattice(q, Dims(s)) && Flatten(q, Dims(s)) < idx ==> CellScorable(t, s, q)
  }

  /**
    Lines 37-57 for the cell p: the largest of the sentinel and the candidates
    of the moves at p, in `itertools.product` order; `ok` is false when a
    lookup raised KeyError.  Every move reads a cell earlier in row-major
    order, never `dp[p]` itself, so the running maximum of line 57 is kept in
    `best` here and stored by RelaxCell.
   */
  method BestMove(t: Table, s: seq<string>, dp: array<int>, p: Coord) returns (ok: bool, best: int)
    requires dp.Length == Size(Dims(s)) && InLattice(p, Dims(s))
    requires FilledBefore(t, s, dp[..], Flatten(p, Dims(s)))
    requires dp[Flatten(p, Dims(s))] == Sentinel
    ensures ok <==> CellScorable(t, s, p)
    ensures ok ==> best == Best(t, s, p)
  {
    var n := |s|;
    best := dp[Flatten(p, Dims(s))];
    var m := 0;
    while m < Pow2(n)
      invariant 0 <= m <= Pow2(n)
      invariant best == RelaxUpTo(t, s, p, m)
      invariant ScorableUpTo(t, s, p, m)
    {
      ok, best := RelaxWith(t, s, dp, p, m, best);
      ScorableStep(t, s, p, m);
      if !ok {
        assert !CellScorable(t, s, p);
        return;
      }
      m := m + 1;
    }
    ScorableStep(t, s, p, m);
    ok := true;
  }

  /**
    Lines 38-57 for the move with code m at p: skip it when it is the zero
    move or leaves the lattice, otherwise raise `best` to its candidate;
    `ok` is false when a lookup raised KeyError.
   */
  method RelaxWith(t: Table, s: seq<string>, dp: array<int>, p: Coord, m: nat, best: int) returns (ok: bool, best': int)
    requires dp.Length == Size(Dims(s)) && InLattice(p, Dims(s)) && m < Pow2(|s|)
    requires FilledBefore(t, s, dp[..], Flatten(p, Dims(s)))
    requires best == RelaxUpTo(t, s, p, m)
    ensures ok <==> (IsMove(p, Bits(m, |s|)) ==> ColumnScore(t, s, p, Bits(m, |s|)).Some?)
    ensures ok ==> best' == RelaxUpTo(t, s, p, m + 1)
  {
    var n := |s|;
    var step := Bits(m, n);
    if step != ZeroMove(n) && Fits(p, step) {
      var score := ScoreColumn(t, s, p, step);
      if score.None? {
        return false, best;
      }
      RelaxMove(t, s, dp[..], p, m);
      var candidate := score.value + dp[Flatten(Sub(p, step), Dims(s))];
      best' := if best < candidate then candidate else best;
    } else {
      RelaxStep(t, s, p, m);
      best' := best;
    }
    ok := true;
  }

  /** Lines 37-57 for the cell p: store its final score, or report the KeyError. */
  method RelaxCell(t: Table, s: seq<string>, dp: array<int>, p: Coord) returns (ok: bool)
    requires dp.Length == Size(Dims(s)) && InLattice(p, Dims(s))
    requires FilledBefore(t, s, dp[..], Flatten(p, Dims(s)))
    requires dp[Flatten(p, Dims(s))] == Sentinel
    modifies dp
    ensures forall j :: 0 <= j < dp.Length && j != Flatten(p, Dims(s)) ==> dp[j] == old(dp[j])
    ensures ok <==> CellScorable(t, s, p)
    ensures ok ==> dp[Flatten(p, Dims(s))] == Best(t, s, p)
  {
    var best;
    ok, best := BestMove(t, s, dp, p);
    if ok {
      dp[Flatten(p, Dims(s))] := best;
    }
  }

  /** No move with a code below m raised KeyError at p. */
  ghost predicate ScorableUpTo(t: Table, s: seq<string>, p: Coord, m: nat)
    requires InLattice(p, Dims(s))
  {
    forall m' :: 0 <= m' < m && IsMove(p, Bits(m', |s|)) ==> ColumnScore(t, s, p, Bits(m', |s|)).Some?
  }

  lemma ScorableStep(t: Table, s: seq<string>, p: Coord, m: nat)
    requires InLattice(p, Dims(s))
    ensures ScorableUpTo(t, s, p, m + 1) <==>
      ScorableUpTo(t, s, p, m) && (IsMove(p, Bits(m, |s|)) ==> ColumnScore(t, s, p, Bits(m, |s|)).Some?)
    ensures ScorableUpTo(t, s, p, 0)
    ensures ScorableUpTo(t, s, p, Pow2(|s|)) <==> CellScorable(t, s, p)
  {
  }

  /** A move at p reads a cell earlier in row-major order, whose final score the fill has already stored. */
  lemma RelaxMove(t: Table, s: seq<string>, dp: seq<int>, p: Coord, m: nat)
    requires |dp| == Size(Dims(s)) && InLattice(p, Dims(s)) && m < Pow2(|s|)
    requires FilledBefore(t, s, dp, Flatten(p, Dims(s)))
    requires IsMove(p, Bits(m, |s|)) && ColumnScore(t, s, p, Bits(m, |s|)).Some?
    ensures InLattice(Sub(p, Bits(m, |s|)), Dims(s))
    ensures Flatten(Sub(p, Bits(m, |s|)), Dims(s)) < Flatten(p, Dims(s))
    ensures var c := ColumnScore(t, s, p, Bits(m, |s|)).value + dp[Flatten(Sub(p, Bits(m, |s|)), Dims(s))];
      RelaxUpTo(t, s, p, m + 1) == if RelaxUpTo(t, s, p, m) < c then c else RelaxUpTo(t, s, p, m)
  {
    RelaxStep(t, s, p, m);
    MoveBack(p, Bits(m, |s|), Dims(s));
  }

  /** Once cell p is done, the cells done are those up to and including its address. */
  lemma FilledExtend(t: Table, s: seq<string>, dp: seq<int>, p: Coord)
    requires |dp| == Size(Dims(s)) && InLattice(p, Dims(s))
    requires FilledBefore(t, s, dp, Flatten(p, Dims(s))) && ScorableBefore(t, s, Flatten(p, Dims(s)))
    requires dp[Flatten(p, Dims(s))] == Best(t, s, p) && CellScorable(t, s, p)
    ensures FilledBefore(t, s, dp, Flatten(p, Dims(s)) + 1) && ScorableBefore(t, s, Flatten(p, Dims(s)) + 1)
  {
    forall q | InLattice(q, Dims(s)) && Flatten(q, Dims(s)) == Flatten(p, Dims(s))
      ensures q == p
    {
      FlattenInjective(q, p, Dims(s));
    }
  }

  /**
    Lines 30-57: allocate the lattice at the sentinel and relax every cell in
    `np.ndindex` order.  `ok` is false when a lookup raised KeyError, which
    happens exactly when the inputs are not Scorable; otherwise every cell
    holds its Best score.
   */
  method FillLattice(t: Table, s: seq<string>) returns (dp: array<int>, ok: bool)
    ensures fresh(dp) && dp.Length == Size(Dims(s))
    ensures ok <==> Scorable(t, s)
    ensures ok ==> Filled(t, s, dp[..]) && dp[..] == Scores(t, s)
  {
    var dims := Dims(s);
    var size := Size(dims);
    dp := new int[size](_ => Sentinel);
    OriginFirst(dims);
    var p := Origin(|s|);
    var idx := 0;
    while idx < size
      invariant 0 <= idx <= size == dp.Length
      invariant idx < size ==> InLattice(p, dims) && Flatten(p, dims) == idx
      invariant FilledBefore(t, s, dp[..], idx) && ScorableBefore(t, s, idx)
      invariant forall j :: idx <= j < size ==> dp[j] == Sentinel
    {
      ok := RelaxCell(t, s, dp, p);
      if !ok {
        return;
      }
      FilledExtend(t, s, dp[..], p);
      if idx + 1 < size {
        p := Next(p, dims);
      }
      idx := idx + 1;
    }
    ok := true;
    FilledIsScores(t, s, dp[..]);
  }
}
