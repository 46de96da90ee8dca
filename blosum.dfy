/**
  The substitution-table loader (`Msa.load_blosum`, src/msa/msa.py:10-26),
  taking the lines of the table file as input.  A line that starts with a space
  is a header naming the alphabet; any other line is a row whose first
  character names it and whose remaining whitespace-separated integers are
  assigned to the header symbols in order.
 */
module Blosum {
  import opened Outcomes

  /** `blosum[a][b]`: the score of symbol a against symbol b. */
  type Table = map<string, map<string, int>>

  /** The exceptions the loader can raise, in the order Python evaluates line 24. */
  datatype ParseError =
    | EmptyLine      // `line[0]` on an empty line (IndexError, line 16)
    | MissingValue   // `values[i]` past the end of the row (IndexError, line 24)
    | BadNumber      // `int(values[i])` on a token that is not an integer (ValueError, line 24)
    | UndeclaredRow  // `blosum[amino_acid_i]` for a row symbol no header declared (KeyError, line 24)

  /** The loop's state: the table so far and the last header (`amino_acids`). */
  datatype ParseState = ParseState(table: Table, header: seq<string>)

  // ---------------------------------------------------------------------------
  // `str.split()` with no arguments

  /** The ASCII characters Python's `str.split()` treats as whitespace. */
  predicate IsSpace(c: char)
  {
    c == ' ' || c == '\t' || c == '\n' || c == '\r' || c == '\U{000B}' || c == '\U{000C}'
    || ('\U{001C}' <= c <= '\U{001F}')
  }

  /** The characters of s that are not whitespace, in order. */
  function RemoveSpaces(s: string): string
  {
    if s == [] then [] else (if IsSpace(s[0]) then [] else [s[0]]) + RemoveSpaces(s[1..])
  }

  function Concat(tokens: seq<string>): string
  {
    if tokens == [] then [] else tokens[0] + Concat(tokens[1..])
  }

  /** The longest prefix of s without whitespace. */
  function Word(s: string): (w: string)
    ensures |w| <= |s| && w == s[..|w|]
    ensures forall i :: 0 <= i < |w| ==> !IsSpace(w[i])
    ensures |w| < |s| ==> IsSpace(s[|w|])
  {
    if s == [] || IsSpace(s[0]) then [] else [s[0]] + Word(s[1..])
  }

  lemma {:induction false} WordSpaces(s: string)
    ensures RemoveSpaces(s) == Word(s) + RemoveSpaces(s[|Word(s)|..])
  {
    if s != [] && !IsSpace(s[0]) {
      WordSpaces(s[1..]);
      assert s[1..][|Word(s[1..])|..] == s[|Word(s)|..];
    }
  }

  /**
    `s.split()`: the maximal runs of non-whitespace characters.  Every token is
    non-empty and free of whitespace, and together they hold exactly the
    non-whitespace characters of s, in order.
   */
  function Split(s: string): (tokens: seq<string>)
    ensures forall i :: 0 <= i < |tokens| ==> |tokens[i]| > 0
    ensures forall i, j :: 0 <= i < |tokens| && 0 <= j < |tokens[i]| ==> !IsSpace(tokens[i][j])
    ensures Concat(tokens) == RemoveSpaces(s)
    decreases |s|
  {
    if s == [] then []
    else if IsSpace(s[0]) then Split(s[1..])
    else
      var w := Word(s);
      WordSpaces(s);
      [w] + Split(s[|w|..])
  }

  predicate AllSpaces(w: string)
  {
    forall i :: 0 <= i < |w| ==> IsSpace(w[i])
  }

  /** gaps[0] + tokens[0] + gaps[1] + ... + tokens[|tokens| - 1] + gaps[|tokens|]. */
  function Interleave(gaps: seq<string>, tokens: seq<string>): string
    requires |gaps| == |tokens| + 1
  {
    if tokens == [] then gaps[0] else gaps[0] + tokens[0] + Interleave(gaps[1..], tokens[1..])
  }

  /**
    `s.split()` cuts s at its whitespace runs and nowhere else: s is leading
    whitespace, the first token, non-empty whitespace, the second token, ...,
    the last token, trailing whitespace.  With the token properties of Split
    this is the partition of s into maximal runs of non-whitespace.
   */
  lemma {:induction false} SplitLayout(s: string) returns (gaps: seq<string>)
    ensures |gaps| == |Split(s)| + 1
    ensures forall i :: 0 <= i < |gaps| ==> AllSpaces(gaps[i])
    ensures forall i :: 0 < i < |gaps| - 1 ==> |gaps[i]| > 0
    ensures Interleave(gaps, Split(s)) == s
    decreases |s|
  {
    if s == [] {
      gaps := [[]];
    } else if IsSpace(s[0]) {
      var rest := SplitLayout(s[1..]);
      gaps := SpaceStep(s, rest, Split(s[1..]));
    } else {
      var w := Word(s);
      var rest := SplitLayout(s[|w|..]);
      gaps := WordStep(s, w, rest, Split(s[|w|..]));
    }
  }

  /** A leading whitespace character joins the first run of whitespace. */
  lemma SpaceStep(s: string, rest: seq<string>, tokens: seq<string>) returns (gaps: seq<string>)
    requires s != [] && IsSpace(s[0])
    requires |rest| == |tokens| + 1 && Interleave(rest, tokens) == s[1..]
    requires forall i :: 0 <= i < |rest| ==> AllSpaces(rest[i])
    requires forall i :: 0 < i < |rest| - 1 ==> |rest[i]| > 0
    ensures |gaps| == |tokens| + 1 && Interleave(gaps, tokens) == s
    ensures forall i :: 0 <= i < |gaps| ==> AllSpaces(gaps[i])
    ensures forall i :: 0 < i < |gaps| - 1 ==> |gaps[i]| > 0
  {
    gaps := [[s[0]] + rest[0]] + rest[1..];
    assert gaps[1..] == rest[1..];
    assert s == [s[0]] + s[1..];
  }

  /** A leading word is the first token, after an empty run of whitespace. */
  lemma WordStep(s: string, w: string, rest: seq<string>, tokens: seq<string>) returns (gaps: seq<string>)
    requires |w| > 0 && w == Word(s)
    requires |rest| == |tokens| + 1 && Interleave(rest, tokens) == s[|w|..]
    requires forall i :: 0 <= i < |tokens| ==> |tokens[i]| > 0 && !IsSpace(tokens[i][0])
    requires forall i :: 0 <= i < |rest| ==> AllSpaces(rest[i])
    requires forall i :: 0 < i < |rest| - 1 ==> |rest[i]| > 0
    ensures |gaps| == |tokens| + 2 && Interleave(gaps, [w] + tokens) == s
    ensures forall i :: 0 <= i < |gaps| ==> AllSpaces(gaps[i])
    ensures forall i :: 0 < i < |gaps| - 1 ==> |gaps[i]| > 0
  {
    gaps := [[]] + rest;
    assert gaps[1..] == rest && ([w] + tokens)[1..] == tokens;
    if tokens != [] {
      SpaceFirst(s[|w|..], rest, tokens);
    }
    assert s == w + s[|w|..];
  }

  /** A string that starts with whitespace and has a token keeps some whitespace before it. */
  lemma SpaceFirst(s: string, gaps: seq<string>, tokens: seq<string>)
    requires |gaps| == |tokens| + 1 && tokens != [] && |tokens[0]| > 0 && !IsSpace(tokens[0][0])
    requires Interleave(gaps, tokens) == s && IsSpace(s[0])
    ensures |gaps[0]| > 0
  {
  }

  // ---------------------------------------------------------------------------
  // `int(token)`

  predicate IsDigit(c: char)
  {
    '0' <= c <= '9'
  }

  predicate AllDigits(s: string)
  {
    forall i :: 0 <= i < |s| ==> IsDigit(s[i])
  }

  /** The value of a decimal numeral. */
  function DigitsValue(s: string): nat
    requires AllDigits(s)
  {
    if s == [] then 0
    else DigitsValue(s[..|s| - 1]) * 10 + ((s[|s| - 1] as int) - ('0' as int))
  }

  /** `int(token)`: an optional sign followed by decimal digits; None is the ValueError. */
  function ParseInt(token: string): Option<int>
  {
    if |token| > 0 && (token[0] == '-' || token[0] == '+') then
      var digits := token[1..];
      if |digits| > 0 && AllDigits(digits) then
        Some(if token[0] == '-' then 0 - DigitsValue(digits) as int else DigitsValue(digits))
      else None
    else if |token| > 0 && AllDigits(token) then Some(DigitsValue(token))
    else None
  }

  /** The decimal numeral of n, as `str(n)` writes it. */
  function ShowNat(n: nat): (s: string)
    ensures |s| > 0 && AllDigits(s)
  {
    var last := [(('0' as int) + n % 10) as char];
    if n < 10 then last else ShowNat(n / 10) + last
  }

  /** The numeral of x, as `str(x)` writes it. */
  function ShowInt(x: int): string
  {
    if x < 0 then "-" + ShowNat(-x) else ShowNat(x)
  }

  lemma {:induction false} ShowNatValue(n: nat)
    ensures DigitsValue(ShowNat(n)) == n
  {
    var s := ShowNat(n);
    if n >= 10 {
      ShowNatValue(n / 10);
      assert s[..|s| - 1] == ShowNat(n / 10);
    }
  }

  /** Every integer's numeral parses back to it. */
  lemma ParseShow(x: int)
    ensures ParseInt(ShowInt(x)) == Some(x)
  {
    if x < 0 {
      ShowNatValue(-x);
      assert ShowInt(x)[1..] == ShowNat(-x);
    } else {
      ShowNatValue(x);
    }
  }

  // ---------------------------------------------------------------------------
  // One line of the table file

  /** Lines 18-19 from the j-th symbol on: each header symbol gets an empty row. */
  function DeclareFrom(t: Table, header: seq<string>, j: nat): Table
    requires j <= |header|
    decreases |header| - j
  {
    if j == |header| then t else DeclareFrom(t[header[j] := map[]], header, j + 1)
  }

  /** Lines 23-24 from the j-th header symbol on, each exception where Python raises it. */
  function FillRow(t: Table, row: string, values: seq<string>, header: seq<string>, j: nat)
    : Result<Table, ParseError>
    requires j <= |header|
    decreases |header| - j
  {
    if j == |header| then Success(t)
    else if j >= |values| then Failure(MissingValue)
    else match ParseInt(values[j])
      case None => Failure(BadNumber)
      case Some(v) =>
        if row !in t then Failure(UndeclaredRow)
        else FillRow(t[row := t[row][header[j] := v]], row, values, header, j + 1)
  }

  /** One iteration of the loop at lines 15-24. */
  function ParseLine(st: ParseState, line: string): Result<ParseState, ParseError>
  {
    if |line| == 0 then Failure(EmptyLine)
    else if line[0] == ' ' then
      var header := Split(line);
      Success(ParseState(DeclareFrom(st.table, header, 0), header))
    else
      match FillRow(st.table, [line[0]], Split(line[1..]), st.header, 0)
      case Failure(e) => Failure(e)
      case Success(t) => Success(ParseState(t, st.header))
  }

  /** The loop over the remaining lines. */
  function ParseFrom(st: ParseState, lines: seq<string>): Result<Table, ParseError>
    decreases |lines|
  {
    if lines == [] then Success(st.table)
    else
      match ParseLine(st, lines[0])
      case Failure(e) => Failure(e)
      case Success(st') => ParseFrom(st', lines[1..])
  }

  /** The table the loader returns for the given lines, or the exception it raises. */
  function ParseTable(lines: seq<string>): Result<Table, ParseError>
  {
    ParseFrom(ParseState(map[], []), lines)
  }

  // ---------------------------------------------------------------------------
  // What one line does

  lemma {:induction false} DeclareFromEffect(t: Table, header: seq<string>, j: nat)
    requires j <= |header|
    ensures DeclareFrom(t, header, j).Keys == t.Keys + (set i | j <= i < |header| :: header[i])
    ensures forall i :: j <= i < |header| ==> DeclareFrom(t, header, j)[header[i]] == map[]
    ensures forall a :: a in t && a !in header[j..] ==> DeclareFrom(t, header, j)[a] == t[a]
    decreases |header| - j
  {
    if j < |header| {
      DeclareFromEffect(t[header[j] := map[]], header, j + 1);
      assert header[j..] == [header[j]] + header[j + 1..];
    }
  }

  /**
    After a header line h: the header becomes `h.split()`, each of its symbols
    maps to an empty row, and every other row is unchanged.
   */
  lemma HeaderLine(st: ParseState, line: string)
    requires |line| > 0 && line[0] == ' '
    ensures ParseLine(st, line).Success?
    ensures var st' := ParseLine(st, line).value;
      && st'.header == Split(line)
      && st'.table.Keys == st.table.Keys + (set a | a in Split(line))
      && (forall a :: a in Split(line) ==> st'.table[a] == map[])
      && (forall a :: a in st.table && a !in Split(line) ==> st'.table[a] == st.table[a])
  {
    var header := Split(line);
    DeclareFromEffect(st.table, header, 0);
    assert header[0..] == header;
    assert (set i | 0 <= i < |header| :: header[i]) == set a | a in header;
    forall a | a in header ensures DeclareFrom(st.table, header, 0)[a] == map[] {
      var i :| 0 <= i < |header| && header[i] == a;
    }
  }

  /** The value the last occurrence of header[j] receives. */
  predicate LastOccurrence(header: seq<string>, j: nat)
    requires j < |header|
  {
    forall i :: j < i < |header| ==> header[i] != header[j]
  }

  /** The row loop of lines 22-24 from token j on succeeds exactly when every lookup it makes is there. */
  lemma {:induction false} FillRowSucceeds(t: Table, row: string, values: seq<string>, header: seq<string>, j: nat)
    requires j <= |header|
    ensures FillRow(t, row, values, header, j).Success? <==>
      j == |header| ||
      (row in t && |header| <= |values| && forall i :: j <= i < |header| ==> ParseInt(values[i]).Some?)
    decreases |header| - j
  {
    if j < |header| && j < |values| && ParseInt(values[j]).Some? && row in t {
      var t1 := t[row := t[row][header[j] := ParseInt(values[j]).value]];
      FillRowSucceeds(t1, row, values, header, j + 1);
    }
  }

  /**
    A successful row loop from token j on writes `blosum[row][header[i]]` for
    every i from j, the last occurrence of a symbol winning, and changes
    nothing else.
   */
  lemma {:induction false} FillRowWrites(t: Table, row: string, values: seq<string>, header: seq<string>, j: nat)
    requires j <= |header|
    ensures FillRow(t, row, values, header, j).Success? && j < |header| ==>
      var t' := FillRow(t, row, values, header, j).value;
      && |header| <= |values| && (forall i :: j <= i < |header| ==> ParseInt(values[i]).Some?)
      && t'.Keys == t.Keys
      && (forall a :: a in t && a != row ==> t'[a] == t[a])
      && t'[row].Keys == t[row].Keys + (set i | j <= i < |header| :: header[i])
      && (forall b :: b in t[row] && b !in header[j..] ==> t'[row][b] == t[row][b])
      && (forall i :: j <= i < |header| && LastOccurrence(header, i) ==>
            t'[row][header[i]] == ParseInt(values[i]).value)
    decreases |header| - j
  {
    FillRowSucceeds(t, row, values, header, j);
    if j < |header| && j < |values| && ParseInt(values[j]).Some? && row in t {
      var t1 := t[row := t[row][header[j] := ParseInt(values[j]).value]];
      FillRowWrites(t1, row, values, header, j + 1);
      assert header[j..] == [header[j]] + header[j + 1..];
      if FillRow(t1, row, values, header, j + 1).Success? && j + 1 == |header| {
        assert (set i | j <= i < |header| :: header[i]) == {header[j]};
      }
    }
  }

  /** A failing row loop names a real cause, raised in the order Python evaluates line 24. */
  lemma {:induction false} FillRowFails(t: Table, row: string, values: seq<string>, header: seq<string>, j: nat)
    requires j <= |header|
    ensures FillRow(t, row, values, header, j) == Failure(MissingValue) ==> |values| < |header|
    ensures FillRow(t, row, values, header, j) == Failure(BadNumber) ==>
      exists i :: j <= i < |header| && i < |values| && ParseInt(values[i]).None?
    ensures FillRow(t, row, values, header, j) == Failure(UndeclaredRow) ==> row !in t
    ensures FillRow(t, row, values, header, j) != Failure(EmptyLine)
    decreases |header| - j
  {
    if j < |header| && j < |values| && ParseInt(values[j]).Some? && row in t {
      var t1 := t[row := t[row][header[j] := ParseInt(values[j]).value]];
      FillRowFails(t1, row, values, header, j + 1);
    }
  }

  /**
    After a row line r (not starting with a space) under header h: the line
    parses exactly when h is empty, or r[0] names a declared row and the first
    |h| tokens after r[0] are all integers; then `blosum[r[0]][h[j]]` is the
    j-th integer (the last one for a symbol h repeats), and nothing else
    changes.  A failure names a real cause.
   */
  lemma RowLine(st: ParseState, line: string)
    requires |line| > 0 && line[0] != ' '
    ensures var row, values := [line[0]], Split(line[1..]);
      && (ParseLine(st, line).Success? <==>
          |st.header| == 0 ||
          (row in st.table && |st.header| <= |values|
           && forall i :: 0 <= i < |st.header| ==> ParseInt(values[i]).Some?))
      && (ParseLine(st, line).Success? && |st.header| > 0 ==>
          var t' := ParseLine(st, line).value.table;
          && ParseLine(st, line).value.header == st.header
          && t'.Keys == st.table.Keys
          && (forall a :: a in st.table && a != row ==> t'[a] == st.table[a])
          && t'[row].Keys == st.table[row].Keys + (set a | a in st.header)
          && (forall b :: b in st.table[row] && b !in st.header ==> t'[row][b] == st.table[row][b])
          && (forall i :: 0 <= i < |st.header| && LastOccurrence(st.header, i) ==>
                t'[row][st.header[i]] == ParseInt(values[i]).value))
      && (ParseLine(st, line) == Failure(MissingValue) ==> |values| < |st.header|)
      && (ParseLine(st, line) == Failure(BadNumber) ==>
          exists i :: 0 <= i < |st.header| && i < |values| && ParseInt(values[i]).None?)
      && (ParseLine(st, line) == Failure(UndeclaredRow) ==> row !in st.table)
      && ParseLine(st, line) != Failure(EmptyLine)
  {
    FillRowSucceeds(st.table, [line[0]], Split(line[1..]), st.header, 0);
    FillRowWrites(st.table, [line[0]], Split(line[1..]), st.header, 0);
    FillRowFails(st.table, [line[0]], Split(line[1..]), st.header, 0);
    assert st.header[0..] == st.header;
    assert (set i | 0 <= i < |st.header| :: st.header[i]) == set a | a in st.header;
  }

  // ---------------------------------------------------------------------------
  // The loader's loop

  /** Lines 13-26 on the given lines: the table `load_blosum` returns, or the exception it raises. */
  method LoadTable(lines: seq<string>) returns (r: Result<Table, ParseError>)
    ensures r == ParseTable(lines)
  {
    var blosum: Table := map[];
    var aminoAcids: seq<string> := [];
    for i := 0 to |lines|
      invariant ParseFrom(ParseState(blosum, aminoAcids), lines[i..]) == ParseTable(lines)
    {
      var line := lines[i];
      assert lines[i..] == [line] + lines[i + 1..];
      if |line| == 0 {
        return Failure(EmptyLine);
      }
      ghost var before := blosum;
      if line[0] == ' ' {
        aminoAcids := Split(line);
        for j := 0 to |aminoAcids|
          invariant DeclareFrom(blosum, aminoAcids, j) == DeclareFrom(before, aminoAcids, 0)
        {
          blosum := blosum[aminoAcids[j] := map[]];
        }
      } else {
        var row := [line[0]];
        var values := Split(line[1..]);
        for j := 0 to |aminoAcids|
          invariant FillRow(blosum, row, values, aminoAcids, j) == FillRow(before, row, values, aminoAcids, 0)
        {
          if j >= |values| {
            return Failure(MissingValue);
          }
          var value := ParseInt(values[j]);
          if value.None? {
            return Failure(BadNumber);
          }
          if row !in blosum {
            return Failure(UndeclaredRow);
          }
          blosum := blosum[row := blosum[row][aminoAcids[j] := value.value]];
        }
      }
    }
    return Success(blosum);
  }
}
