/** The peg solitaire solver (doc/play/solitaire.go): backtracking on one shared board. */
module Solitaire {
  datatype Cell = Illegal | Peg | Hole | Newline

  /** Length of a row, its newline included. */
  const N := 12

  // ---- The game ----

  /** Two illegal cells at least lie around the fields, so that no jump leaves the board. */
  ghost predicate Bordered(b: seq<Cell>) {
    forall p :: 0 <= p < |b| && (b[p].Peg? || b[p].Hole?) ==> 2 * N <= p < |b| - 2 * N
  }

  /** The directions in the order in which they are tried. */
  function Direction(d: nat): (dir: int)
    requires d < 4
    ensures -N <= dir <= N
  {
    if d == 0 then -1 else if d == 1 then -N else if d == 2 then 1 else N
  }

  /** A peg at pos can jump over a peg into a hole. */
  predicate CanMove(b: seq<Cell>, pos: nat, d: nat)
    requires d < 4 && 2 * N <= pos < |b| - 2 * N
  {
    b[pos].Peg? && b[pos + Direction(d)].Peg? && b[pos + 2 * Direction(d)].Hole?
  }

  function Jump(b: seq<Cell>, pos: nat, d: nat): (b': seq<Cell>)
    requires d < 4 && 2 * N <= pos < |b| - 2 * N
    ensures |b'| == |b|
  {
    b[pos := Hole][pos + Direction(d) := Hole][pos + 2 * Direction(d) := Peg]
  }

  function Pegs(b: seq<Cell>): nat {
    if b == [] then 0 else Pegs(b[..|b| - 1]) + if b[|b| - 1].Peg? then 1 else 0
  }

  ghost predicate IsMove(b: seq<Cell>, b': seq<Cell>) {
    exists pos: nat, d: nat :: d < 4 && 2 * N <= pos < |b| - 2 * N && CanMove(b, pos, d) && b' == Jump(b, pos, d)
  }

  /** One peg is left, in the center if there is one. */
  ghost predicate Won(b: seq<Cell>, center: int) {
    Pegs(b) == 1 && (center < 0 || (center < |b| && b[center].Peg?))
  }

  /** A play from b, board by board, that ends won. */
  ghost predicate Wins(b: seq<Cell>, center: int, play: seq<seq<Cell>>) {
    && play != [] && play[0] == b && Won(play[|play| - 1], center)
    && forall i :: 0 <= i < |play| - 1 ==> IsMove(play[i], play[i + 1])
  }

  ghost predicate Solvable(b: seq<Cell>, center: int) {
    exists play :: Wins(b, center, play)
  }

  // ---- Facts about moves ----

  lemma {:induction false} PegsUpdate(b: seq<Cell>, i: nat, c: Cell)
    requires i < |b|
    ensures Pegs(b[i := c]) == Pegs(b) - (if b[i].Peg? then 1 else 0) + (if c.Peg? then 1 else 0)
  {
    var n := |b| - 1;
    if i < n {
      PegsUpdate(b[..n], i, c);
      assert b[i := c][..n] == b[..n][i := c];
    } else {
      assert b[i := c][..n] == b[..n];
    }
  }

  /** Each move costs one peg, and keeps the border. */
  lemma JumpLosesPeg(b: seq<Cell>, pos: nat, d: nat)
    requires d < 4 && 2 * N <= pos < |b| - 2 * N && CanMove(b, pos, d)
    ensures Pegs(Jump(b, pos, d)) == Pegs(b) - 1
    ensures Bordered(b) ==> Bordered(Jump(b, pos, d))
  {
    hide Pegs;
    var dir := Direction(d);
    PegsUpdate(b, pos, Hole);
    PegsUpdate(b[pos := Hole], pos + dir, Hole);
    PegsUpdate(b[pos := Hole][pos + dir := Hole], pos + 2 * dir, Peg);
  }

  lemma {:induction false} PegsCount(b: seq<Cell>, n: nat)
    requires n <= |b|
    ensures Pegs(b[..n]) <= Pegs(b)
    ensures n < |b| && b[n].Peg? ==> Pegs(b[..n + 1]) == Pegs(b[..n]) + 1
    ensures n < |b| && !b[n].Peg? ==> Pegs(b[..n + 1]) == Pegs(b[..n])
    decreases |b| - n
  {
    if n < |b| {
      assert b[..n + 1][..n] == b[..n];
      PegsCount(b, n + 1);
    } else {
      assert b[..n] == b;
    }
  }

  lemma RestWins(play: seq<seq<Cell>>, center: int)
    requires |play| > 1 && Wins(play[0], center, play)
    ensures Wins(play[1], center, play[1..])
  {
    var rest := play[1..];
    forall i | 0 <= i < |rest| - 1 ensures IsMove(rest[i], rest[i + 1]) {
      assert IsMove(play[i + 1], play[i + 1 + 1]);
    }
  }

  /** A board is solvable exactly if it is won or some move makes it a solvable one. */
  lemma SolvableByMove(b: seq<Cell>, center: int)
    ensures Solvable(b, center) <==> Won(b, center) || exists b' :: IsMove(b, b') && Solvable(b', center)
  {
    if play :| Wins(b, center, play) {
      if |play| > 1 {
        assert IsMove(play[0], play[0 + 1]);
        RestWins(play, center);
      }
    }
    if Won(b, center) { assert Wins(b, center, [b]); }
    forall b' | IsMove(b, b') && Solvable(b', center) ensures Solvable(b, center) {
      var play :| Wins(b', center, play);
      assert Wins(b, center, [b] + play);
    }
  }

  // ---- Straight lines: what the linear positions mean on the grid ----

  /** The fields keep two columns away from either side of their row. */
  ghost predicate BorderedColumns(b: seq<Cell>) {
    forall p :: 0 <= p < |b| && (b[p].Peg? || b[p].Hole?) ==> 2 <= p % N < N - 3
  }

  function Row(p: nat): nat { p / N }

  function Column(p: nat): nat { p % N }

  /** A move goes two cells along one row or one column: it never wraps around a row's end. */
  lemma MovesAreStraight(b: seq<Cell>, pos: nat, d: nat)
    requires Bordered(b) && BorderedColumns(b) && d < 4 && 2 * N <= pos < |b| - 2 * N && CanMove(b, pos, d)
    ensures var over, to := pos + Direction(d), pos + 2 * Direction(d);
            && 0 <= over && 0 <= to
            && (d % 2 == 0 ==> Row(over) == Row(to) == Row(pos) &&
                               Column(over) - Column(pos) == Direction(d) == Column(to) - Column(over))
            && (d % 2 == 1 ==> Column(over) == Column(to) == Column(pos) &&
                               N * (Row(over) - Row(pos)) == Direction(d) == N * (Row(to) - Row(over)))
  {
  }

  // ---- The game as it is played on the grid ----

  /** The cell in a row and column of rows of twelve cells. */
  predicate At(b: seq<Cell>, row: int, column: int, cell: Cell) {
    0 <= row && 0 <= column < 12 && 12 * row + column < |b| && b[12 * row + column] == cell
  }

  /** A peg jumps from one cell over the next into the one after it, along a row or a column, and takes
      the peg between away. */
  ghost predicate GridMove(b: seq<Cell>, b': seq<Cell>) {
    exists row: int, column: int, down: int, right: int :: GridJump(b, b', row, column, down, right)
  }

  ghost predicate GridJump(b: seq<Cell>, b': seq<Cell>, row: int, column: int, down: int, right: int) {
    && ((down == 0 && (right == 1 || right == -1)) || (right == 0 && (down == 1 || down == -1)))
    && At(b, row, column, Peg) && At(b, row + down, column + right, Peg)
    && At(b, row + 2 * down, column + 2 * right, Hole)
    && b' == b[12 * row + column := Hole][12 * (row + down) + (column + right) := Hole]
              [12 * (row + 2 * down) + (column + 2 * right) := Peg]
  }

  /** One peg is left, and it is in the center if there is one. */
  ghost predicate OnePeg(b: seq<Cell>, center: int) {
    exists p :: 0 <= p < |b| && OnlyPeg(b, p) && (center < 0 || p == center)
  }

  ghost predicate OnlyPeg(b: seq<Cell>, p: nat)
    requires p < |b|
  {
    b[p].Peg? && forall q :: 0 <= q < |b| && b[q].Peg? ==> q == p
  }

  ghost predicate GridWins(b: seq<Cell>, center: int, play: seq<seq<Cell>>) {
    && play != [] && play[0] == b && OnePeg(play[|play| - 1], center)
    && forall i :: 0 <= i < |play| - 1 ==> GridMove(play[i], play[i + 1])
  }

  /** Two illegal cells all around: above, below, and on either side of every row. */
  ghost predicate Framed(b: seq<Cell>) { Bordered(b) && BorderedColumns(b) }

  lemma MoveIsOnGrid(b: seq<Cell>, pos: nat, d: nat)
    requires Framed(b) && d < 4 && 2 * N <= pos < |b| - 2 * N && CanMove(b, pos, d)
    ensures Framed(Jump(b, pos, d)) && GridMove(b, Jump(b, pos, d))
  {
    hide Pegs;
    MovesAreStraight(b, pos, d);
    JumpLosesPeg(b, pos, d);
    var over := pos + Direction(d);
    var row, column, down, right := pos / 12, pos % 12, over / 12 - pos / 12, over % 12 - pos % 12;
    assert GridJump(b, Jump(b, pos, d), row, column, down, right);
  }

  lemma GridMoveIsMove(b: seq<Cell>, b': seq<Cell>)
    requires Framed(b) && GridMove(b, b')
    ensures IsMove(b, b')
  {
    var row, column, down, right :| GridJump(b, b', row, column, down, right);
    var pos := 12 * row + column;
    var d := if right == -1 then 0 else if down == -1 then 1 else if right == 1 then 2 else 3;
    var dir := Direction(d);
    assert dir == 12 * down + right;
    assert 12 * (row + down) + (column + right) == pos + dir;
    assert 12 * (row + 2 * down) + (column + 2 * right) == pos + 2 * dir;
    hide BorderedColumns, GridJump;
    assert 2 * N <= pos < |b| - 2 * N && CanMove(b, pos, d) && b' == Jump(b, pos, d);
  }

  /** The linear moves of a framed board are the moves on the grid. */
  lemma MovesOnGrid(b: seq<Cell>, b': seq<Cell>)
    requires Framed(b)
    ensures IsMove(b, b') <==> GridMove(b, b')
    ensures IsMove(b, b') ==> Framed(b')
  {
    if IsMove(b, b') {
      var pos: nat, d: nat :| d < 4 && 2 * N <= pos < |b| - 2 * N && CanMove(b, pos, d) && b' == Jump(b, pos, d);
      MoveIsOnGrid(b, pos, d);
    }
    if GridMove(b, b') { GridMoveIsMove(b, b'); }
  }

  lemma {:induction false} FewPegs(b: seq<Cell>)
    ensures Pegs(b) == 0 <==> forall p :: 0 <= p < |b| ==> !b[p].Peg?
    ensures Pegs(b) == 1 <==> exists p :: 0 <= p < |b| && OnlyPeg(b, p)
  {
    if b != [] {
      var n := |b| - 1;
      var init := b[..n];
      FewPegs(init);
      assert forall p :: 0 <= p < n ==> init[p] == b[p];
      if p :| 0 <= p < n && OnlyPeg(init, p) { assert b[n].Peg? || OnlyPeg(b, p); }
      if p :| 0 <= p < |b| && OnlyPeg(b, p) { assert p == n || OnlyPeg(init, p); }
      if b[n].Peg? && Pegs(init) == 0 { assert OnlyPeg(b, n); }
    }
  }

  lemma WonIsOnePeg(b: seq<Cell>, center: int)
    ensures Won(b, center) <==> OnePeg(b, center)
  {
    FewPegs(b);
  }

  lemma {:induction false} PlayOnGrid(b: seq<Cell>, center: int, play: seq<seq<Cell>>)
    requires Framed(b)
    ensures Wins(b, center, play) <==> GridWins(b, center, play)
    decreases |play|
  {
    hide IsMove, GridMove, Framed, Won, OnePeg;
    if play != [] && play[0] == b {
      WonIsOnePeg(play[|play| - 1], center);
      if |play| > 1 {
        MovesOnGrid(b, play[1]);
        if IsMove(b, play[1]) {
          PlayOnGrid(play[1], center, play[1..]);
          var rest := play[1..];
          assert forall i :: 0 <= i < |rest| ==> rest[i] == play[i + 1];
          assert forall i :: 1 <= i < |play| ==> play[i] == rest[i - 1];
        } else {
          assert !IsMove(play[0], play[0 + 1]) && !GridMove(play[0], play[0 + 1]);
        }
      }
    }
  }

  /** So the solver's question is the one that the player asks. */
  lemma SolvableOnGrid(b: seq<Cell>, center: int)
    requires Framed(b)
    ensures Solvable(b, center) <==> exists play :: GridWins(b, center, play)
  {
    hide Wins, GridWins, Framed;
    if play :| Wins(b, center, play) { PlayOnGrid(b, center, play); }
    if play :| GridWins(b, center, play) { PlayOnGrid(b, center, play); }
  }

  /** A caller's view of solve, on a framed board. */
  method SolveFramed(board: array<Cell>) returns (solved: bool, center: int)
    requires Framed(board[..])
    modifies board
    ensures board[..] == old(board[..])
    ensures solved <==> exists play :: GridWins(board[..], center, play)
  {
    hide Framed, Solvable, GridWins;
    assert Bordered(board[..]) by { FramedIsBordered(board[..]); }
    var s := new Solver(board);
    center := s.center;
    solved := s.Solve();
    SolvableOnGrid(board[..], center);
  }

  lemma FramedIsBordered(b: seq<Cell>)
    requires Framed(b)
    ensures Bordered(b)
  {
  }

  // ---- The solver ----

  class Solver {
    const board: array<Cell>
    const center: int
    var moves: nat
    var printed: seq<seq<Cell>>

    /** init: the center is the hole, if there is a single one. */
    constructor (board: array<Cell>)
      ensures this.board == board && printed == [] && moves == 0
      ensures center >= 0 ==> center < board.Length && board[center].Hole?
      ensures center >= 0 <==>
        exists p :: 0 <= p < board.Length && board[p].Hole? &&
                    forall q :: 0 <= q < board.Length && board[q].Hole? ==> q == p
    {
      this.board := board;
      var n, at, pos := 0, -1, 0;
      while pos < board.Length
        invariant 0 <= pos <= board.Length && 0 <= n
        invariant n == 0 ==> at == -1 && forall q :: 0 <= q < pos ==> !board[q].Hole?
        invariant n > 0 ==> 0 <= at < pos && board[at].Hole?
        invariant n == 1 ==> forall q :: 0 <= q < pos && board[q].Hole? ==> q == at
        invariant n > 1 ==> exists p, q :: 0 <= p < q < pos && board[p].Hole? && board[q].Hole?
      {
        if board[pos].Hole? {
          at := pos;
          n := n + 1;
        }
        pos := pos + 1;
      }
      center := if n != 1 then -1 else at;
      moves, printed := 0, [];
    }

    /** Execute the move if it is possible. */
    method Move(pos: nat, d: nat) returns (ok: bool)
      requires d < 4 && pos < board.Length && (board[pos].Peg? ==> 2 * N <= pos < board.Length - 2 * N)
      modifies board, this`moves
      ensures ok <==> old(board[pos].Peg?) && CanMove(old(board[..]), pos, d)
      ensures board[..] == if ok then Jump(old(board[..]), pos, d) else old(board[..])
    {
      moves := moves + 1;
      var dir := Direction(d);
      if board[pos].Peg? && board[pos + dir].Peg? && board[pos + 2 * dir].Hole? {
        board[pos] := Hole;
        board[pos + dir] := Hole;
        board[pos + 2 * dir] := Peg;
        return true;
      }
      ok := false;
    }

    /** Revert a move. */
    method Unmove(pos: nat, d: nat, ghost before: seq<Cell>)
      requires d < 4 && 2 * N <= pos < board.Length - 2 * N
      requires |before| == board.Length && CanMove(before, pos, d) && board[..] == Jump(before, pos, d)
      modifies board
      ensures board[..] == before
    {
      var dir := Direction(d);
      board[pos] := Peg;
      board[pos + dir] := Peg;
      board[pos + 2 * dir] := Hole;
    }

    /** solve: true exactly if the board can be solved; then the boards of a winning play have been
        printed, last first. The board is left as it was found in either case. */
    method Solve() returns (solved: bool)
      requires Bordered(board[..])
      modifies board, this`moves, this`printed
      ensures board[..] == old(board[..])
      ensures solved <==> Solvable(board[..], center)
      ensures solved ==> exists play :: Wins(board[..], center, play) && printed == old(printed) + Reversed(play)
      ensures !solved ==> printed == old(printed)
      decreases Pegs(board[..])
    {
      hide Solvable, Wins, Won, IsMove, Pegs, Bordered, Reversed;
      ghost var b := board[..];
      var last, n, pos := 0, 0, 0;
      NoPegs();
      while pos < board.Length
        invariant pos <= board.Length && board[..] == b && printed == old(printed)
        invariant n == Pegs(b[..pos]) && (n > 0 ==> last < pos && board[last].Peg?)
        invariant forall p, d | 0 <= p < pos && 0 <= d < 4 :: Fruitless(b, center, p, d)
        decreases board.Length - pos
      {
        PegsCount(b, pos);
        if board[pos].Peg? {
          InBorder(b, pos);
          var d := 0;
          while d < 4
            invariant d <= 4 && board[..] == b && printed == old(printed)
            invariant forall p, e | 0 <= p < pos && 0 <= e < 4 :: Fruitless(b, center, p, e)
            invariant forall e | 0 <= e < d :: Fruitless(b, center, pos, e)
          {
            var moved := Move(pos, d);
            if moved {
              JumpLosesPeg(b, pos, d);
              var won := Solve();
              Unmove(pos, d, b);
              if won {
                ghost var rest :| Wins(Jump(b, pos, d), center, rest) && printed == old(printed) + Reversed(rest);
                ExtendPlay(b, center, pos, d, rest);
                printed := printed + [board[..]];
                return true;
              }
            }
            d := d + 1;
          }
          last := pos;
          n := n + 1;
        }
        pos := pos + 1;
      }
      assert b[..pos] == b;
      if n == 1 && (center < 0 || last == center) {
        WonNow(b, center, last);
        printed := printed + [board[..]];
        return true;
      }
      NotWon(b, center, last);
      NoSolution(b, center);
      solved := false;
    }
  }

  /** Trying direction d at p leads nowhere. */
  ghost predicate Fruitless(b: seq<Cell>, center: int, p: nat, d: nat) {
    p < |b| && d < 4 &&
    (2 * N <= p < |b| - 2 * N && CanMove(b, p, d) ==> !Solvable(Jump(b, p, d), center))
  }

  function Reversed(play: seq<seq<Cell>>): seq<seq<Cell>> {
    if play == [] then [] else Reversed(play[1..]) + [play[0]]
  }

  lemma NoPegs()
    ensures Pegs([]) == 0
  {
  }

  lemma InBorder(b: seq<Cell>, pos: nat)
    requires Bordered(b) && pos < |b| && b[pos].Peg?
    ensures 2 * N <= pos < |b| - 2 * N
  {
  }

  lemma ExtendPlay(b: seq<Cell>, center: int, pos: nat, d: nat, rest: seq<seq<Cell>>)
    requires d < 4 && 2 * N <= pos < |b| - 2 * N && CanMove(b, pos, d) && Wins(Jump(b, pos, d), center, rest)
    ensures Wins(b, center, [b] + rest) && Reversed([b] + rest) == Reversed(rest) + [b] && Solvable(b, center)
  {
    assert IsMove(b, Jump(b, pos, d));
    assert ([b] + rest)[1..] == rest;
  }

  lemma WonNow(b: seq<Cell>, center: int, last: nat)
    requires Pegs(b) == 1 && last < |b| && b[last].Peg? && (center < 0 || last == center)
    ensures Wins(b, center, [b]) && Reversed([b]) == [b] && Solvable(b, center)
  {
    hide IsMove, Pegs, Reversed;
    ReversedOne(b);
    assert Wins(b, center, [b]);
  }

  lemma ReversedOne(b: seq<Cell>)
    ensures Reversed([b]) == [b]
  {
    assert [b][1..] == [];
  }

  lemma NotWon(b: seq<Cell>, center: int, last: nat)
    requires Pegs(b) > 0 ==> last < |b| && b[last].Peg?
    requires Pegs(b) != 1 || (center >= 0 && last != center)
    ensures !Won(b, center)
  {
    if Pegs(b) == 1 && center < |b| && b[center].Peg? {
      PegsUpdate(b, last, Hole);
      PegsUpdate(b[last := Hole], center, Hole);
    }
  }

  lemma NoSolution(b: seq<Cell>, center: int)
    requires !Won(b, center) && forall p, d | 0 <= p < |b| && 0 <= d < 4 :: Fruitless(b, center, p, d)
    ensures !Solvable(b, center)
  {
    SolvableByMove(b, center);
    forall b' | IsMove(b, b') ensures !Solvable(b', center) {
      var pos: nat, d: nat :| d < 4 && 2 * N <= pos < |b| - 2 * N && CanMove(b, pos, d) && b' == Jump(b, pos, d);
      assert Fruitless(b, center, pos, d);
    }
  }
}
