# Snake path search, modelled in Dafny

A snake lies on a `rows` x `cols` board as a list of cells, head first. One
move (`U`, `D`, `R` or `L`) shifts the head by one cell and makes every other
segment take the cell of the segment in front of it. The program
`data_engineer_challenge.py` lists every sequence of `max_depth` moves that
the snake can make from its starting position without leaving the board and
without running into itself.

The model has two modules:

- `Transition` (`transition.dfy`): cells, boards, snakes and paths; `Step`,
  the one-move transition of `step`, and `ComputeSnake`, the replay of a path
  of `compute_snake`; with lemmas on when a move fails, what a successful
  move produces, the tail-follows rule, and the invariants (on the board, no
  overlap, consecutive segments side by side) that moves keep.
- `PathSearch` (`search.dfy`): the search. `ComputeValidPaths` is the nested
  loop and tail recursion of `compute_valid_paths`, `SeedLayer` the four
  tests that build the first layer, and `FindValidPaths` the driver of the
  main block. Each is proved equal to a specification function (`ValidPaths`,
  `Seeds`, `Search`). The lemmas then prove what those functions compute:
  - the shape of each output path and the order of the output;
  - the bound of at most four extensions per path per level;
  - the main theorem, `SearchCorrect`. The search returns exactly the paths
    of `max_depth` letters whose every step succeeds, in lexicographic order
    under U < D < R < L. `SearchIsUnique` shows that these two facts
    determine the result.

The axis mapping of the program is kept as written: `U` and `D` change the
column and are checked against `cols` and 0, and `R` and `L` change the
row and are checked against `rows` and 0. Only the moved axis is checked.
`OneAxisCheckSuffices` shows that this single check is the full board test
when the snake starts on the board. The program never checks that segments
stay adjacent, and the model does not either; `StepPreservesConnected`
proves that adjacency is kept anyway.

The board dimensions and the list of directions are module globals in the
program. Here they are parameters: a `Board` value and a `ds: seq<Dir>`,
which the driver sets to `Directions = [U, D, R, L]`.

The search returns a final position even when no further move is possible
from it. The only pruning is that each step of the path succeeds; there is
no look-ahead beyond the last letter. The model follows the code here.

## Model

| member | source | states |
|---|---|---|
| Transition.Step | data_engineer_challenge.py:18-53 | a successful move keeps the snake's length |
| Transition.StepFailsIff | data_engineer_challenge.py:29-50 | a move fails exactly when the new head crosses the board edge on the moved axis, or lands on a segment other than the current tail |
| Transition.StepShifts | data_engineer_challenge.py:46-53 | a successful move has the same length; its head is the new head, one cell from the old head; each segment i + 1 takes the old cell of segment i |
| Transition.MoveOntoTail | data_engineer_challenge.py:47-51 | on a snake without overlap, a move onto the current tail cell that stays on the board succeeds |
| Transition.MoveOntoBody | data_engineer_challenge.py:49-50 | a move onto any segment other than the tail fails |
| Transition.OneAxisCheckSuffices | data_engineer_challenge.py:29-44 | for a snake on the board, the one-axis, one-side check fails exactly when the new head is off the board |
| Transition.StepPreservesWellFormed | data_engineer_challenge.py:29-53 | a successful move keeps a snake that is on the board and free of overlap on the board and free of overlap |
| Transition.StepPreservesConnected | data_engineer_challenge.py:46-53 | a successful move keeps consecutive segments side by side |
| Transition.TailFollowsExample | data_engineer_challenge.py:46-53 | on a square-shaped snake, moving onto the tail cell succeeds with the expected body and moving onto a body cell fails |
| Transition.ComputeSnake | data_engineer_challenge.py:55-67 | a replay that succeeds keeps the snake's length |
| Transition.ComputeSnakeConcat | data_engineer_challenge.py:64-67 | replaying `p + q` is replaying `p`, then `q` from where `p` ended; a failure in `p` fails the whole replay |
| Transition.ComputeSnakeSnoc | data_engineer_challenge.py:64-67 | replaying `p + [d]` is one `Step` after replaying `p` |
| Transition.ValidPrefix | data_engineer_challenge.py:64-67 | every prefix of a path whose replay succeeds also replays successfully |
| Transition.ComputeSnakePreservesWellFormed | data_engineer_challenge.py:55-67 | a successful replay keeps the snake on the board and free of overlap |
| PathSearch.ExtendPath | data_engineer_challenge.py:83-88 | one path has at most as many extensions as there are letters |
| PathSearch.NextLevel | data_engineer_challenge.py:82-88 | one level yields at most `|ds|` paths per frontier path |
| PathSearch.ComputeValidPaths | data_engineer_challenge.py:69-89 | the nested loops and the recursion compute `ValidPaths`, the level-by-level specification |
| PathSearch.SeedLayer | data_engineer_challenge.py:123-128 | the four tests compute `Seeds`, the first level of the search from the empty path |
| PathSearch.FindValidPaths | data_engineer_challenge.py:120-135 | the driver returns exactly the paths of `maxDepth` letters whose every step succeeds, in lexicographic U < D < R < L order |
| PathSearch.SeedsUnfold | data_engineer_challenge.py:123-128 | the seed layer is `[U]`, `[D]`, `[R]`, `[L]` in that order, each kept exactly when its single step succeeds |
| PathSearch.ExtendsIffValid | data_engineer_challenge.py:84-86 | the inner-loop test (replay succeeds, then one more step succeeds) holds exactly when `path + [d]` replays successfully |
| PathSearch.ExtendPathMembership | data_engineer_challenge.py:83-88 | the extensions of `p` are exactly `p` plus one letter of `ds` whose step succeeds |
| PathSearch.NextLevelMembership | data_engineer_challenge.py:82-88 | the next level holds exactly the frontier paths plus one letter of `ds` whose step succeeds |
| PathSearch.ExtendPathAppend | data_engineer_challenge.py:83-88 | letters are tried in the order of `ds`: extensions over `ds1 + ds2` are those over `ds1`, then those over `ds2` |
| PathSearch.NextLevelAppend | data_engineer_challenge.py:82-88 | output order follows frontier order: the level over `ps + qs` is the level over `ps`, then over `qs` |
| PathSearch.ValidPathsAppend | data_engineer_challenge.py:79-89 | after any number of levels, the result over `ps + qs` is the result over `ps`, then over `qs` |
| PathSearch.ValidPathsMembership | data_engineer_challenge.py:79-89 | depth 0 returns the frontier; otherwise an output path is exactly a frontier path followed by `depth` letters of `ds` whose every step succeeds |
| PathSearch.ValidPathsSize | data_engineer_challenge.py:79-89 | `depth` levels yield at most `|ps| * |ds|^depth` paths |
| PathSearch.ExtendPathSorted | data_engineer_challenge.py:83-88 | with letters in U, D, R, L order, the extensions of one path come out in lexicographic order |
| PathSearch.NextLevelSorted | data_engineer_challenge.py:80-88 | one level turns a sorted frontier of equal-length paths into a sorted level of paths one letter longer |
| PathSearch.ValidPathsSorted | data_engineer_challenge.py:79-89 | every level keeps a sorted frontier of equal-length paths sorted |
| PathSearch.SearchFromEmptyPath | data_engineer_challenge.py:120-135 | the seed layer followed by `maxDepth - 1` levels is `maxDepth` levels from the empty path |
| PathSearch.SearchCorrect | data_engineer_challenge.py:120-135 | the search returns exactly the `maxDepth`-letter paths whose every step succeeds, in lexicographic U < D < R < L order; a dead-end final position is still returned |
| PathSearch.SearchIsUnique | data_engineer_challenge.py:120-135 | a sequence equals the search result exactly when it holds those paths in that order |
| PathSearch.PrefixInShallowerSearch | data_engineer_challenge.py:79-89 | every k-letter prefix of a result path is in the result of the k-letter search |
| PathSearch.SeedExample | data_engineer_challenge.py:123-130 | on a 5 x 5 board with snake (2,2),(2,1),(2,0), the one-letter search returns U, R, L |

## Left out

- Parsing of the snake and board strings (`manage_snake`, lines 3-14 and 113-116) is not modelled. It is unvalidated string slicing; the model takes `Board` and `Snake` values instead.
- `print_board` (lines 91-102) is display only and is not modelled.
- Command-line arguments, `print` and `exit` (lines 104-137) are not modelled. `FindValidPaths` returns the list of paths; the printed count is its length.
- `max_depth <= 0` is excluded by `requires maxDepth >= 1`. With such a depth the program's recursion never reaches 0. `ComputeValidPaths` takes `depth` as a `nat`.
- Unknown move letters and the empty snake make `step` raise. They are excluded by the `Dir` datatype and by `requires |s| >= 1`.
- ComputeSnake: returns `None` when a step before the last one fails; the program would call `step` on `None` there and raise. The search only replays frontier paths, all of whose steps succeed, so this case never arises in the search.
- `step` copies the list and then pops and inserts on the copy. The model computes the new snake as a value. The caller's snake is never changed, because Dafny sequences are values.
- The repeated replay of each frontier path from the initial snake is kept as written. No caching is modelled.
