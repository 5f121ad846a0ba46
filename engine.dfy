/** The computer player as the programs run it: minimax and makeComputerMove
    write speculative pieces into the shared board in place and take them back. */
module Engine {
  import opened Board
  import Search

  /** One program's search engine. `forwardChecking` selects
      tictactoe_forwardChecking.c (reflexive win and block moves) over
      tictactoe.c; `nodesExpanded` is the programs' global node counter. */
  class Engine {
    const forwardChecking: bool
    var nodesExpanded: nat

    /** The counter starts at zero, as main resets it before every game. */
    constructor (forwardChecking: bool)
      ensures this.forwardChecking == forwardChecking
      ensures nodesExpanded == 0
    {
      this.forwardChecking := forwardChecking;
      nodesExpanded := 0;
    }

    /** minimax: scores the board for the human player and gives the board
        back exactly as it found it; every call counts one node. */
    method Minimax(board: array<Cell>, playerPiece: Cell, computerPiece: Cell, isMaximizer: bool,
                   alpha: int, beta: int) returns (r: int)
      requires board.Length == 9 && Pieces(playerPiece, computerPiece)
      modifies this, board
      ensures board[..] == old(board[..])
      ensures r == Search.Minimax(old(board[..]), playerPiece, computerPiece, isMaximizer,
                                  alpha, beta, forwardChecking)
      ensures -1 <= r <= 1
      ensures nodesExpanded > old(nodesExpanded)
      ensures nodesExpanded == old(nodesExpanded) + 1 <==>
        Search.Leaf(old(board[..]), playerPiece, computerPiece, isMaximizer, forwardChecking)
      decreases EmptyCount(board[..]), 2
    {
      var cells := board[..];
      nodesExpanded := nodesExpanded + 1;

      if forwardChecking {
        // reflexive moves: the winning move, else the blocking move
        var mover := if isMaximizer then playerPiece else computerPiece;
        var other := if isMaximizer then computerPiece else playerPiece;
        var pos := InlinePos(cells, mover);
        if pos != -1 {
          Search.ReflexiveWin(cells, playerPiece, computerPiece, isMaximizer, alpha, beta);
          return if isMaximizer then 1 else -1;
        }
        pos := InlinePos(cells, other);
        if pos != -1 {
          Search.ReflexiveBlock(cells, playerPiece, computerPiece, isMaximizer, alpha, beta);
          r := Speculate(board, pos, mover, playerPiece, computerPiece, !isMaximizer, alpha, beta);
          return;
        }
      }

      Search.NoReflexiveMove(cells, playerPiece, computerPiece, isMaximizer, alpha, beta, forwardChecking);
      // leaf nodes
      var winner := WhoWon(cells);
      if winner == playerPiece {
        return 1;
      } else if winner == computerPiece {
        return -1;
      } else if IsFilled(cells) {
        return 0;
      }

      r := Backtrack(board, playerPiece, computerPiece, isMaximizer, alpha, beta);
    }

    /** The "minmax backtracking" loop of minimax: every empty cell in
        increasing order is scored by a speculative move of the side to
        move, until the bound test or a best possible score stops the scan. */
    method Backtrack(board: array<Cell>, playerPiece: Cell, computerPiece: Cell, isMaximizer: bool,
                     alpha: int, beta: int) returns (r: int)
      requires board.Length == 9 && Pieces(playerPiece, computerPiece)
      modifies this, board
      ensures board[..] == old(board[..])
      ensures r == Search.Scan(old(board[..]), playerPiece, computerPiece, isMaximizer,
                               alpha, beta, forwardChecking, 0, -2, 2)
      ensures nodesExpanded >= old(nodesExpanded)
      ensures !IsFilled(old(board[..])) ==> nodesExpanded > old(nodesExpanded)
      decreases EmptyCount(board[..]), 1
    {
      ghost var b0 := board[..];
      var mover := if isMaximizer then playerPiece else computerPiece;
      var max, min := -2, 2;
      var a, bt := alpha, beta;
      var i := 0;
      while i < 9
        invariant 0 <= i <= 9
        invariant board[..] == b0
        invariant -2 <= max <= 1 && -1 <= min <= 2
        invariant Search.Scan(b0, playerPiece, computerPiece, isMaximizer, a, bt, forwardChecking, i, max, min)
               == Search.Scan(b0, playerPiece, computerPiece, isMaximizer, alpha, beta, forwardChecking, 0, -2, 2)
        invariant nodesExpanded >= old(nodesExpanded)
        invariant nodesExpanded == old(nodesExpanded) ==> (FilledFrom(b0, i) ==> IsFilled(b0))
      {
        if board[i] == Empty {
          var val := Speculate(board, i, mover, playerPiece, computerPiece, !isMaximizer, a, bt);
          if isMaximizer {
            Search.ScanStepMax(b0, playerPiece, computerPiece, a, bt, forwardChecking, i, max, min, val);
            if val > max {
              max := val;
              bt := max;
            }
            if val == 1 || max >= a {
              break;
            }
          } else {
            Search.ScanStepMin(b0, playerPiece, computerPiece, a, bt, forwardChecking, i, max, min, val);
            if val < min {
              min := val;
              a := min;
            }
            if val == -1 || min <= bt {
              break;
            }
          }
        }
        i := i + 1;
      }
      r := if isMaximizer then max else min;
    }

    /** A speculative move: `piece` goes into the empty cell `pos`, minimax
        scores the result, and the cell is emptied again. */
    method Speculate(board: array<Cell>, pos: Index, piece: Cell, playerPiece: Cell, computerPiece: Cell,
                     isMaximizer: bool, alpha: int, beta: int) returns (val: int)
      requires board.Length == 9 && Pieces(playerPiece, computerPiece)
      requires board[pos] == Empty && piece != Empty
      modifies this, board
      ensures board[..] == old(board[..])
      ensures val == Search.Minimax(old(board[..])[pos := piece], playerPiece, computerPiece, isMaximizer,
                                    alpha, beta, forwardChecking)
      ensures -1 <= val <= 1
      ensures nodesExpanded > old(nodesExpanded)
      decreases EmptyCount(board[..]), 0
    {
      ghost var b0 := board[..];
      FillDecreases(b0, pos, piece);
      board[pos] := piece;
      assert board[..] == b0[pos := piece];
      val := Minimax(board, playerPiece, computerPiece, isMaximizer, alpha, beta);
      board[pos] := Empty;
      assert board[..] == b0;
    }

    /** makeComputerMove: commits computerPiece to the cell the search
        chooses; every speculative placement is taken back. */
    method MakeComputerMove(board: array<Cell>, computerPiece: Cell)
      requires board.Length == 9 && computerPiece != Empty
      modifies this, board
      ensures var m := Search.ChooseMove(old(board[..]), computerPiece, forwardChecking);
              board[..] == if m == -1 then old(board[..]) else old(board[..])[m := computerPiece]
      ensures nodesExpanded >= old(nodesExpanded)
      ensures forwardChecking && (InlinePos(old(board[..]), computerPiece) != -1 ||
                                  InlinePos(old(board[..]), Opponent(computerPiece)) != -1) ==>
                nodesExpanded == old(nodesExpanded)
    {
      var playerPiece := Opponent(computerPiece);
      var cells := board[..];

      if forwardChecking {
        // reflexive moves: the winning move, else the blocking move
        var pos := InlinePos(cells, computerPiece);
        if pos == -1 {
          pos := InlinePos(cells, playerPiece);
        }
        if pos != -1 {
          board[pos] := computerPiece;
          return;
        }
      }

      var move := BestMove(board, computerPiece);
      if move != -1 {
        board[move] := computerPiece;
      }
    }

    /** The scan loop of makeComputerMove: every empty cell in increasing
        order is scored by a speculative computer move; the first cell with
        the lowest score wins, and a score of -1 ends the scan. */
    method BestMove(board: array<Cell>, computerPiece: Cell) returns (move: int)
      requires board.Length == 9 && computerPiece != Empty
      modifies this, board
      ensures board[..] == old(board[..])
      ensures move == Search.MoveScan(old(board[..]), computerPiece, forwardChecking, 0, 2, -1)
      ensures nodesExpanded >= old(nodesExpanded)
    {
      ghost var b0 := board[..];
      var playerPiece := Opponent(computerPiece);
      var min := 2;
      move := -1;
      var i := 0;
      while i < 9
        invariant 0 <= i <= 9
        invariant board[..] == b0
        invariant move == -1 || (0 <= move < i && b0[move] == Empty)
        invariant move == -1 ==> min == 2
        invariant Search.MoveScan(b0, computerPiece, forwardChecking, i, min, move)
               == Search.MoveScan(b0, computerPiece, forwardChecking, 0, 2, -1)
        invariant nodesExpanded >= old(nodesExpanded)
      {
        if board[i] == Empty {
          var val := Speculate(board, i, computerPiece, playerPiece, computerPiece, true, 2, -2);
          Search.MoveScanStep(b0, computerPiece, forwardChecking, i, min, move, val);
          if min > val {
            min := val;
            move := i;
          }
          if val == -1 {
            break;
          }
        }
        i := i + 1;
      }
    }
  }
}
