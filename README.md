# Exact sum-of-pairs multiple sequence alignment, modelled in Dafny

The modelled program aligns N protein sequences exactly by dynamic programming over an
N-dimensional score lattice (`Msa.align` in `src/msa/msa.py`). It reads a BLOSUM-style
substitution table first (`Msa.load_blosum`). It then does three things:

1. It fills the lattice in row-major order. Each cell is relaxed with the sum-of-pairs
   score of every 0/1 move that reaches it, plus the score stored at the move's
   predecessor.
2. It walks back from the finished corner. At each cell it takes the move whose
   predecessor holds the largest stored score.
3. It assembles one gapped string per input sequence.

The project has six modules, one per file:

| file | module | models |
|---|---|---|
| `outcomes.dfy` | `Outcomes` | `Option` and `Result`, used for the exceptions the program raises |
| `lattice.dfy` | `Lattice` | the parts of the lattice itself |
| `blosum.dfy` | `Blosum` | the table loader |
| `fill.dfy` | `Fill` | the lattice fill |
| `trace.dfy` | `Trace` | the traceback and the assembly of the result |
| `msa.dfy` | `Msa` | `align` end to end |

`Lattice` covers:

- coordinates;
- the row-major flattening that addresses the dense score array;
- the `np.ndindex` successor;
- the enumeration of moves in `itertools.product([0, 1], repeat=n)` order.

`Blosum` models the loader on the list of lines of the table file. Each exception it
can raise is an error value.

`Fill` models the fill as a method over an `array<int>`. It is proved against the
recurrence `Best` and the function `Scores`.

`Trace` models the traceback as a `while` loop, proved against the function `TraceFrom`.

`Msa` states what `align` returns: its result or its error, in terms of the table's lines
and the sequences.

A move is a `seq<bool>`: `step[k]` says whether sequence k advances. Moves are enumerated
by code: the code-m move is `Bits(m, n)`, the n low bits of m with the most significant
bit first. Codes 0, 1, ..., 2^n - 1 therefore follow `itertools.product` order exactly.
The all-zero move has code 0 and is skipped, as the source skips it.

The model follows the code where the code departs from the textbook algorithm:

- The lattice starts at the sentinel -10, and every update is `max(dp[p], ...)`. So the
  origin keeps -10, and a cell whose candidates are all below -10 stays at -10.
- The column score reads residue `p[k]` of an advancing sequence, not `p[k] - 1`. A pair
  is skipped when either of its sequences is finished at p (`p[i] >= len(seq i)`). As a
  consequence the first residue of each sequence is never read (`Fill.FirstResidueUnread`).
- The traceback compares only the predecessors' stored scores, not the column scores. On
  a tie it takes the last such move in `itertools.product` order.
- With no sequences at all, the lattice has one cell and the traceback loop never runs,
  so `align` returns the empty list.
- A table without an entry for some looked-up pair raises `KeyError` (line 54). The model
  returns `MissingScore` exactly when some cell of the fill has some move whose column
  needs a missing entry (`Fill.Scorable`).

Where the table is read from (`resources.read_text`) is input: the model takes the lines
as a parameter.

## Model

| member | source | states |
|---|---|---|
| Blosum.Split | src/msa/msa.py:17 | `str.split()`: every token is non-empty and holds no whitespace, and the tokens concatenated are exactly the non-whitespace characters of the line, in order |
| Blosum.SplitLayout | src/msa/msa.py:17 | `str.split()` cuts only at whitespace runs: the line is leading whitespace, then the tokens with non-empty whitespace between each two, then trailing whitespace, so the tokens are the maximal runs of non-whitespace |
| Blosum.ParseShow | src/msa/msa.py:24 | `int()` reads back every integer's decimal numeral, negative ones included |
| Blosum.DeclareFromEffect | src/msa/msa.py:18-19 | declaring a header adds exactly its symbols as rows, each an empty row, and leaves every other row as it was |
| Blosum.HeaderLine | src/msa/msa.py:16-19 | a line starting with a space always parses; afterwards the header is its tokens, each token maps to an empty row, and no other row changes |
| Blosum.FillRowSucceeds | src/msa/msa.py:23-24 | the row loop succeeds if and only if the header is empty, or the row symbol was declared, there are at least as many values as header symbols, and each of those values is an integer |
| Blosum.FillRowWrites | src/msa/msa.py:23-24 | a successful row loop sets the row's entry for each header symbol to that symbol's value (the last occurrence wins for a repeated symbol), adds exactly the header symbols to the row, and changes no other row or entry |
| Blosum.FillRowFails | src/msa/msa.py:21-24 | each error of the row loop has its cause: too few values, a token that is not an integer, or an undeclared row symbol; the row loop never reports an empty line |
| Blosum.RowLine | src/msa/msa.py:20-24 | for a line not starting with a space: the success condition (an if-and-only-if), the resulting table, an unchanged header, and the cause of each error |
| Blosum.LoadTable | src/msa/msa.py:13-26 | the loop over the lines returns exactly the table `ParseTable` defines, or its first error (an empty line, too few values, a non-integer value, an undeclared row) |
| Lattice.Flatten | src/msa/msa.py:33 | the row-major address of a lattice cell lies within the dense array |
| Lattice.FlattenInjective | src/msa/msa.py:33 | distinct cells have distinct addresses |
| Lattice.Next | src/msa/msa.py:36 | the `np.ndindex` successor stays in the lattice and has the next row-major address |
| Lattice.Unflatten | src/msa/msa.py:36 | every address of the dense array is the address of some lattice cell: `np.ndindex` visits every cell |
| Lattice.OriginFirst | src/msa/msa.py:36 | the origin is in the lattice and is visited first (address 0) |
| Lattice.CodeBits | src/msa/msa.py:37 | codes 0 .. 2^n - 1 enumerate each move of length n exactly once (`Code` and `Bits` are inverse) |
| Lattice.BitsOrder | src/msa/msa.py:37 | a larger code gives a later move in `itertools.product` order: both moves agree up to some sequence k, which the smaller code keeps in place and the larger advances |
| Lattice.FlattenMonotone | src/msa/msa.py:36-41 | a componentwise smaller cell has a smaller row-major address, strictly smaller when the cells differ |
| Lattice.MoveBack | src/msa/msa.py:38-41 | the predecessor of a move that passes the two skip tests is in the lattice, componentwise below, earlier in row-major order, and has consumed fewer residues |
| Lattice.MoveExists | src/msa/msa.py:62-69 | some move passes the skip tests at p if and only if p is not the origin |
| Fill.PairsFromDefined | src/msa/msa.py:45-54 | the pair sum from a given pair onwards is defined if and only if each remaining pair's lookup is |
| Fill.ColumnScoreDefined | src/msa/msa.py:45-54 | a column score raises no `KeyError` if and only if every pair's lookup finds its entry |
| Fill.ScoreColumn | src/msa/msa.py:43-54 | the pair loop returns the sum-of-pairs score `ColumnScore`, or None exactly when a lookup raises `KeyError` |
| Fill.CoveringTableScorable | src/msa/msa.py:45-54 | a table with an entry for every pair of residues and gap keys makes the fill raise nothing |
| Fill.FirstResidueUnread | src/msa/msa.py:46-53 | two inputs that differ at most in each sequence's first residue get the same column score for every move |
| Fill.RelaxUpToBounds | src/msa/msa.py:33-57 | after the moves with codes below m, the running maximum is at least -10 and at least every candidate seen |
| Fill.RelaxUpToAttained | src/msa/msa.py:33-57 | after the moves with codes below m, the running maximum is -10 or the candidate of one of those moves |
| Fill.BestIsMax | src/msa/msa.py:33-57 | a cell's final score is the largest of -10 and the candidates of all its moves, and it equals -10 or one of those candidates |
| Fill.BestAtOrigin | src/msa/msa.py:33-41 | the origin keeps the sentinel -10 |
| Fill.FilledIsScores | src/msa/msa.py:33-57 | a lattice with every cell at its final score is unique: it is `Scores` |
| Fill.RelaxMove | src/msa/msa.py:40-57 | the predecessor a move reads comes earlier in row-major order, so the column score plus its stored value is exactly the recurrence's candidate for that move |
| Fill.FilledExtend | src/msa/msa.py:36 | the induction step of the row-major fill: if every cell before p's address is final and p's own cell is final, every cell up to and including p's address is final, and none of them raised `KeyError` |
| Fill.RelaxWith | src/msa/msa.py:38-57 | one move: it raises the running maximum as the recurrence does, or reports the `KeyError` exactly when the move needs a missing entry |
| Fill.BestMove | src/msa/msa.py:37-57 | the loop over the moves at p yields the cell's final score, and fails exactly when some move at p raises `KeyError` |
| Fill.RelaxCell | src/msa/msa.py:37-57 | stores that final score at p's address and changes no other cell |
| Fill.FillLattice | src/msa/msa.py:30-57 | the fill succeeds exactly when no lookup can fail; the lattice then holds every cell's final score (`Scores`) |
| Trace.PickFrom | src/msa/msa.py:63-74 | a move the loop picks is always a real move at p; it keeps the placeholder only when it started with none and no move from code m on passes the skip tests |
| Trace.PickAdvance | src/msa/msa.py:65-74 | one round of the loop over the moves keeps the invariant "the choice is the last maximal move among those seen" |
| Trace.PickFromLastMaximal | src/msa/msa.py:63-74 | the loop's final choice is the last move, in `itertools.product` order, whose predecessor's stored score is maximal; it is None only when no move passes the skip tests |
| Trace.ChoiceIsLastMaximal | src/msa/msa.py:62-74 | a move is chosen if and only if p is not the origin, and it is the last move with the largest predecessor score |
| Trace.SelectMove | src/msa/msa.py:63-74 | the loop returns exactly the choice `Choice` defines on the stored lattice |
| Trace.StepAt | src/msa/msa.py:62-82 | away from the origin, the traceback takes a real move to a predecessor with fewer residues consumed, and emits that move's column last |
| Trace.TraceAdvance | src/msa/msa.py:62-82 | one round of the `while` loop keeps the invariant: columns still to come, followed by the columns emitted so far, equal the whole traceback |
| Trace.Traceback | src/msa/msa.py:60-82 | the loop terminates and returns exactly the columns `TraceFrom` defines, from the finished corner |
| Trace.Assemble | src/msa/msa.py:84-87 | there is one string per sequence; string k has one character per column, and its c-th character is column c's entry for sequence k |
| Trace.TraceShape | src/msa/msa.py:60-82 | every column has one entry per sequence; there are at least as many columns as the longest sequence has residues and at most their total |
| Trace.TraceNoGapColumn | src/msa/msa.py:62-82 | with inputs free of `-`, no column consists only of gaps |
| Trace.TraceResidues | src/msa/msa.py:76-86 | removing the gaps from sequence k's row gives back its residues consumed so far, in order |
| Trace.TraceSingle | src/msa/msa.py:61-86 | with a single sequence, its row is exactly its residues consumed so far |
| Msa.Alignment | src/msa/msa.py:59-87 | the result has one string per input sequence |
| Msa.Align | src/msa/msa.py:28-87 | the possible outcomes: `BadTable` with the loader's error when the table does not parse; otherwise `MissingScore` exactly when some lookup of the fill fails; otherwise the traceback of the lattice `Scores`, assembled into strings |
| Msa.AlignmentShape | src/msa/msa.py:60-87 | all result strings have one length, between the longest input length and the total input length |
| Msa.AlignmentResidues | src/msa/msa.py:61-86 | removing the gaps from result k gives back sequence k, when sequence k contains no `-` |
| Msa.AlignmentNoGapColumn | src/msa/msa.py:62-87 | with inputs free of `-`, no position is a gap in every result string |
| Msa.AlignmentSingle | src/msa/msa.py:61-87 | a single sequence comes back unchanged |

## Left out

- Reading the table (`resources.read_text(...).splitlines()`, line 11) is I/O. The model
  takes the list of lines as input, and the contents of `blosum62.txt` are not part of
  this model.
- `tqdm` and `np.prod` (line 36) only show progress and do not affect the result.
- `main.py` only reads FASTA through Biopython and prints the result; this is I/O around
  `align`.
- Blosum.Split: only ASCII whitespace separates tokens. Python's `str.split()` also splits
  at non-ASCII whitespace such as U+0085 and U+00A0.
- Blosum.ParseInt: only `[+-]?[0-9]+` tokens are integers. Python's `int()` also accepts
  underscores between digits and non-ASCII decimal digits.
- The exception's payload (which key was missing, which index was out of range) is not
  modelled. Only its kind is.
- Scores are unbounded integers. The source keeps them in a numpy `int` array, which
  would wrap around on 64-bit overflow; scores that large cannot occur for realistic
  tables and lengths.
- Trace.TraceResidues: stated for sequences free of `-`. The model does not keep the
  moves of the traceback as a separate output, so it does not state the general form:
  the characters at positions where sequence k advanced are sequence k.
- Trace.TraceNoGapColumn: stated for sequences free of `-`. Over the columns alone, this
  is the observable form of "every move advances some sequence".
- Running time and memory are exponential in the number of sequences. The model
  verifies termination only.
