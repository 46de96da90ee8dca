/**
  `Msa.align` end to end (src/msa/msa.py:28-87): read the substitution table
  from its lines, fill the score lattice, walk back from the finished corner
  and assemble one aligned string per input sequence.
 */
module Msa {
  import opened Outcomes
  import opened Lattice
  import opened Blosum
  import Fill
  import Trace

  /** Why `align` raises. */
  datatype AlignError =
    | BadTable(cause: ParseError)  // `load_blosum` raised (lines 13-24)
    | MissingScore                 // a lookup of the fill raised KeyError (line 54)

  /** The strings `align` returns once the lattice holds `cells` (lines 59-87). */
  function Alignment(s: seq<string>, cells: seq<int>): (result: seq<string>)
    requires |cells| == Size(Fill.Dims(s))
    ensures |result| == |s|
  {
    Trace.TraceShape(s, cells, Fill.Lengths(s));
    Trace.Assemble(Trace.TraceFrom(s, cells, Fill.Lengths(s)), |s|)
  }

  /**
    Lines 28-87: the aligned strings, or the error `align` raises.  The table
    is parsed first (line 29); a fill that raises nothing leaves the lattice
    the recurrence defines, and the result is its traceback.
   */
  method Align(tableLines: seq<string>, s: seq<string>) returns (r: Result<seq<string>, AlignError>)
    ensures ParseTable(tableLines).Failure? ==> r == Failure(BadTable(ParseTable(tableLines).error))
    ensures ParseTable(tableLines).Success? ==>
      var t := ParseTable(tableLines).value;
      if Fill.Scorable(t, s) then r == Success(Alignment(s, Fill.Scores(t, s)))
      else r == Failure(MissingScore)
  {
    var table := LoadTable(tableLines);
    if table.Failure? {
      return Failure(BadTable(table.error));
    }
    var dp, ok := Fill.FillLattice(table.value, s);
    if !ok {
      return Failure(MissingScore);
    }
    var columns := Trace.Traceback(s, dp);
    Trace.TraceShape(s, dp[..], Fill.Lengths(s));
    r := Success(Trace.Assemble(columns, |s|));
  }

  /**
    The aligned strings all have one length, at least that of every input
    sequence and at most their total length.
   */
  lemma AlignmentShape(s: seq<string>, cells: seq<int>)
    requires |cells| == Size(Fill.Dims(s))
    ensures forall k, k' :: 0 <= k < |s| && 0 <= k' < |s| ==> |Alignment(s, cells)[k]| == |Alignment(s, cells)[k']|
    ensures forall k :: 0 <= k < |s| ==> |s[k]| <= |Alignment(s, cells)[k]| <= Sum(Fill.Lengths(s))
  {
    var p := Fill.Lengths(s);
    var columns := Trace.TraceFrom(s, cells, p);
    Trace.TraceShape(s, cells, p);
    var result := Alignment(s, cells);
    forall k | 0 <= k < |s|
      ensures |result[k]| == |columns| && |s[k]| <= |columns| <= Sum(p)
    {
      assert p[k] == |s[k]|;
    }
  }

  /** Removing the gaps from the string of a gap-free input sequence gives that sequence back. */
  lemma AlignmentResidues(s: seq<string>, cells: seq<int>, k: nat)
    requires |cells| == Size(Fill.Dims(s))
    requires k < |s| && Trace.GapFree(s[k])
    ensures Trace.RemoveGaps(Alignment(s, cells)[k]) == s[k]
  {
    Trace.TraceResidues(s, cells, Fill.Lengths(s), k);
    assert s[k][..|s[k]|] == s[k];
  }

  /** With gap-free inputs no position of the alignment is a gap in every string. */
  lemma AlignmentNoGapColumn(s: seq<string>, cells: seq<int>)
    requires |cells| == Size(Fill.Dims(s)) && 0 < |s|
    requires forall k :: 0 <= k < |s| ==> Trace.GapFree(s[k])
    ensures forall k :: 0 <= k < |s| ==> |Alignment(s, cells)[k]| == |Alignment(s, cells)[0]|
    ensures forall c :: 0 <= c < |Alignment(s, cells)[0]| ==> Trace.HasResidue(Trace.Row(Alignment(s, cells), c))
  {
    var columns := Trace.TraceFrom(s, cells, Fill.Lengths(s));
    Trace.TraceShape(s, cells, Fill.Lengths(s));
    Trace.TraceNoGapColumn(s, cells, Fill.Lengths(s));
    var result := Alignment(s, cells);
    forall c | 0 <= c < |result[0]|
      ensures Trace.HasResidue(Trace.Row(result, c))
    {
      assert Trace.Row(result, c) == columns[c];
    }
  }

  /** A single sequence is returned unchanged. */
  lemma AlignmentSingle(s: seq<string>, cells: seq<int>)
    requires |cells| == Size(Fill.Dims(s)) && |s| == 1
    ensures Alignment(s, cells) == s
  {
    Trace.TraceSingle(s, cells, Fill.Lengths(s));
    assert s[0][..|s[0]|] == s[0];
  }
}
