/** The transition evaluator of the snake path search: the state of the snake,
    one simultaneous move of every segment (`Step`), and the replay of a whole
    path of moves from a starting snake (`ComputeSnake`). */
module Transition {

  datatype Option<T> = None | Some(value: T)

  /** The four move letters. Note the axis mapping of the original program:
      U and D change the column, R and L change the row. */
  datatype Dir = U | D | R | L

  /** A cell of the board, as the pair [row, col]. */
  datatype Pos = Pos(row: int, col: int)

  /** The board dimensions; valid cells are [0, rows) x [0, cols). */
  datatype Board = Board(rows: int, cols: int)

  /** Head first, tail last. */
  type Snake = seq<Pos>

  /** A sequence of moves, applied left to right. */
  type Path = seq<Dir>

  /** The order in which the search tries the moves. */
  const Directions: seq<Dir> := [U, D, R, L]

  /** Position of a letter in `Directions`; the search order is U < D < R < L. */
  function Rank(d: Dir): (k: nat)
    ensures k < |Directions| && Directions[k] == d
  {
    match d
    case U => 0
    case D => 1
    case R => 2
    case L => 3
  }

  predicate InBoard(b: Board, p: Pos) {
    0 <= p.row < b.rows && 0 <= p.col < b.cols
  }

  /** No two segments share a cell. */
  predicate Distinct(s: Snake) {
    forall i, j :: 0 <= i < j < |s| ==> s[i] != s[j]
  }

  /** The snake is non-empty, lies on the board and does not overlap itself. */
  predicate WellFormed(b: Board, s: Snake) {
    |s| >= 1 && (forall i :: 0 <= i < |s| ==> InBoard(b, s[i])) && Distinct(s)
  }

  function Abs(x: int): nat {
    if x < 0 then -x else x
  }

  /** Two cells that share a side. */
  predicate Adjacent(p: Pos, q: Pos) {
    Abs(p.row - q.row) + Abs(p.col - q.col) == 1
  }

  /** Every segment shares a side with the next one. */
  predicate Connected(s: Snake) {
    forall i :: 0 <= i < |s| - 1 ==> Adjacent(s[i], s[i + 1])
  }

  /** The cell the head moves to. */
  function NewHead(s: Snake, d: Dir): Pos
    requires |s| >= 1
  {
    var head := s[0];
    match d
    case U => Pos(head.row, head.col + 1)
    case D => Pos(head.row, head.col - 1)
    case R => Pos(head.row + 1, head.col)
    case L => Pos(head.row - 1, head.col)
  }

  /** The bound test of the original program: only the axis the move changes
      is checked, and only on the side it moves towards. */
  predicate LeavesBoard(b: Board, h: Pos, d: Dir) {
    match d
    case U => h.col >= b.cols
    case D => h.col < 0
    case R => h.row >= b.rows
    case L => h.row < 0
  }

  /** One move: the tail cell is vacated first, then the new head must not
      land on what remains of the body; the result is the new head followed
      by the body without its tail. `None` marks an invalid move. */
  function Step(b: Board, s: Snake, d: Dir): (r: Option<Snake>)
    requires |s| >= 1
    ensures r.Some? ==> |r.value| == |s|
  {
    var h := NewHead(s, d);
    var body := s[..|s| - 1];
    if LeavesBoard(b, h, d) then None
    else if h in body then None
    else Some([h] + body)
  }

  /** The move fails exactly when the head leaves the board on the moved axis
      or lands on a segment other than the current tail. */
  lemma StepFailsIff(b: Board, s: Snake, d: Dir)
    requires |s| >= 1
    ensures Step(b, s, d).None? <==>
              LeavesBoard(b, NewHead(s, d), d) ||
              exists i :: 0 <= i < |s| - 1 && s[i] == NewHead(s, d)
  {
    var h := NewHead(s, d);
    if h in s[..|s| - 1] {
      var i :| 0 <= i < |s| - 1 && s[..|s| - 1][i] == h;
      assert s[i] == h;
    }
  }

  /** A successful move keeps the length, puts the head one cell away from
      the old head, and moves each segment i + 1 into the old cell of
      segment i. */
  lemma StepShifts(b: Board, s: Snake, d: Dir)
    requires |s| >= 1
    requires Step(b, s, d).Some?
    ensures var t := Step(b, s, d).value;
            |t| == |s| && t[0] == NewHead(s, d) && Adjacent(t[0], s[0]) &&
            forall i :: 0 <= i < |s| - 1 ==> t[i + 1] == s[i]
  {
  }

  /** Tail-follows rule, first half: on a snake without overlap, a move whose
      head lands on the current tail cell succeeds (when it stays on the board). */
  lemma MoveOntoTail(b: Board, s: Snake, d: Dir)
    requires |s| >= 2 && Distinct(s)
    requires NewHead(s, d) == s[|s| - 1]
    requires !LeavesBoard(b, NewHead(s, d), d)
    ensures Step(b, s, d).Some?
  {
  }

  /** Tail-follows rule, second half: a move whose head lands on any other
      segment fails. */
  lemma MoveOntoBody(b: Board, s: Snake, d: Dir, i: int)
    requires 0 <= i < |s| - 1
    requires NewHead(s, d) == s[i]
    ensures Step(b, s, d).None?
  {
    assert s[..|s| - 1][i] == s[i];
  }

  /** On a snake that lies on the board, checking the moved axis on the side
      it moves towards is the full board test for the new head. */
  lemma OneAxisCheckSuffices(b: Board, s: Snake, d: Dir)
    requires WellFormed(b, s)
    ensures LeavesBoard(b, NewHead(s, d), d) <==> !InBoard(b, NewHead(s, d))
  {
    assert InBoard(b, s[0]);
  }

  /** A successful move keeps the snake on the board and free of overlap. */
  lemma StepPreservesWellFormed(b: Board, s: Snake, d: Dir)
    requires WellFormed(b, s)
    requires Step(b, s, d).Some?
    ensures WellFormed(b, Step(b, s, d).value)
  {
    var h := NewHead(s, d);
    var t := Step(b, s, d).value;
    OneAxisCheckSuffices(b, s, d);
    assert t == [h] + s[..|s| - 1];
    forall i, j | 0 <= i < j < |t|
      ensures t[i] != t[j]
    {
      if i == 0 {
        assert t[j] == s[..|s| - 1][j - 1];
      }
    }
  }

  /** Consecutive segments stay side by side after a successful move; the
      program never checks this, it follows from the shift. */
  lemma StepPreservesConnected(b: Board, s: Snake, d: Dir)
    requires |s| >= 1 && Connected(s)
    requires Step(b, s, d).Some?
    ensures Connected(Step(b, s, d).value)
  {
    var t := Step(b, s, d).value;
    StepShifts(b, s, d);
    forall i | 0 <= i < |t| - 1
      ensures Adjacent(t[i], t[i + 1])
    {
      if i > 0 {
        assert t[i] == s[i - 1] && t[i + 1] == s[i];
      }
    }
  }

  /** Replays a path from the snake `s`, one `Step` per letter; `None` as soon
      as a step fails. */
  function ComputeSnake(b: Board, s: Snake, path: Path): (r: Option<Snake>)
    requires |s| >= 1
    ensures r.Some? ==> |r.value| == |s|
    decreases |path|
  {
    if path == [] then Some(s)
    else
      match Step(b, s, path[0])
      case None => None
      case Some(t) => ComputeSnake(b, t, path[1..])
  }

  /** Every step of the path succeeds from `s`. */
  predicate Valid(b: Board, s: Snake, path: Path)
    requires |s| >= 1
  {
    ComputeSnake(b, s, path).Some?
  }

  /** Replaying `p + q` is replaying `p`, then `q` from where `p` ended. */
  lemma {:induction false} ComputeSnakeConcat(b: Board, s: Snake, p: Path, q: Path)
    requires |s| >= 1
    ensures ComputeSnake(b, s, p + q) ==
              match ComputeSnake(b, s, p)
              case None => None
              case Some(t) => ComputeSnake(b, t, q)
    decreases |p|
  {
    if p == [] {
      assert p + q == q;
    } else {
      assert (p + q)[0] == p[0];
      assert (p + q)[1..] == p[1..] + q;
      match Step(b, s, p[0])
      case None =>
      case Some(t) => ComputeSnakeConcat(b, t, p[1..], q);
    }
  }

  /** Replaying `p + [d]` is one `Step` after replaying `p`. */
  lemma ComputeSnakeSnoc(b: Board, s: Snake, p: Path, d: Dir)
    requires |s| >= 1
    ensures ComputeSnake(b, s, p + [d]) ==
              match ComputeSnake(b, s, p)
              case None => None
              case Some(t) => Step(b, t, d)
  {
    ComputeSnakeConcat(b, s, p, [d]);
    match ComputeSnake(b, s, p)
    case None =>
    case Some(t) =>
      assert ComputeSnake(b, t, [d]) == Step(b, t, d) by {
        assert [d][1..] == [];
      }
  }

  /** Every prefix of a valid path is valid. */
  lemma ValidPrefix(b: Board, s: Snake, p: Path, k: nat)
    requires |s| >= 1
    requires k <= |p| && Valid(b, s, p)
    ensures Valid(b, s, p[..k])
  {
    assert p == p[..k] + p[k..];
    ComputeSnakeConcat(b, s, p[..k], p[k..]);
  }

  /** Replaying a valid path keeps a well-formed snake well-formed. */
  lemma {:induction false} ComputeSnakePreservesWellFormed(b: Board, s: Snake, path: Path)
    requires WellFormed(b, s)
    requires Valid(b, s, path)
    ensures WellFormed(b, ComputeSnake(b, s, path).value)
    decreases |path|
  {
    if path != [] {
      StepPreservesWellFormed(b, s, path[0]);
      ComputeSnakePreservesWellFormed(b, Step(b, s, path[0]).value, path[1..]);
    }
  }

  /** The tail-follows rule on a concrete snake bent into a square on a 5 x 5
      board: moving R lands on the tail cell (2,1) and succeeds, moving U
      lands on the body cell (1,2) and fails. */
  lemma TailFollowsExample(s: Snake)
    requires s == [Pos(1, 1), Pos(1, 2), Pos(2, 2), Pos(2, 1)]
    ensures Step(Board(5, 5), s, R) == Some([Pos(2, 1), Pos(1, 1), Pos(1, 2), Pos(2, 2)])
    ensures Step(Board(5, 5), s, U) == None
  {
    var b := Board(5, 5);
    MoveOntoBody(b, s, U, 1);
    forall i, j | 0 <= i < j < |s| ensures s[i] != s[j] {
    }
    MoveOntoTail(b, s, R);
    assert s[..3] == [Pos(1, 1), Pos(1, 2), Pos(2, 2)];
    assert NewHead(s, R) == Pos(2, 1);
    assert [Pos(2, 1)] + s[..3] == [Pos(2, 1), Pos(1, 1), Pos(1, 2), Pos(2, 2)];
  }
}
