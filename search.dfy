/** The minimax evaluator and the computer's move choice as functions of the
    board's contents. Both programs are covered: `forwardChecking` selects the
    variant whose minimax first plays a forced win or block. */
module Search {
  import opened Board

  /** minimax: the value of the position for the human player: 1 a win
      for playerPiece, -1 a win for computerPiece, 0 a draw, as computed
      by the program's search, pruning included. */
  ghost function Minimax(b: seq<Cell>, playerPiece: Cell, computerPiece: Cell, isMaximizer: bool,
                         alpha: int, beta: int, forwardChecking: bool): (r: int)
    requires |b| == 9 && Pieces(playerPiece, computerPiece)
    ensures -1 <= r <= 1
    decreases EmptyCount(b), 2
  {
    if forwardChecking then
      // the reflexive moves: take a win at once, or play the block and go on
      var mover := if isMaximizer then playerPiece else computerPiece;
      var other := if isMaximizer then computerPiece else playerPiece;
      var win := InlinePos(b, mover);
      if win != -1 then (if isMaximizer then 1 else -1)
      else
        var block := InlinePos(b, other);
        if block != -1 then
          FillDecreases(b, block, mover);
          Minimax(b[block := mover], playerPiece, computerPiece, !isMaximizer, alpha, beta, forwardChecking)
        else Evaluate(b, playerPiece, computerPiece, isMaximizer, alpha, beta, forwardChecking)
    else Evaluate(b, playerPiece, computerPiece, isMaximizer, alpha, beta, forwardChecking)
  }

  /** The reflexive win of the forward-checking minimax: when the side to
      move can complete a line, the value is decided without a search. */
  lemma ReflexiveWin(b: seq<Cell>, playerPiece: Cell, computerPiece: Cell, isMaximizer: bool,
                     alpha: int, beta: int)
    requires |b| == 9 && Pieces(playerPiece, computerPiece)
    requires InlinePos(b, if isMaximizer then playerPiece else computerPiece) != -1
    ensures Minimax(b, playerPiece, computerPiece, isMaximizer, alpha, beta, true) == if isMaximizer then 1 else -1
  {
  }

  /** The reflexive block of the forward-checking minimax: with no win at
      hand but a line the opponent can complete, the side to move fills its
      gap and the value is that of the single continuation. */
  lemma ReflexiveBlock(b: seq<Cell>, playerPiece: Cell, computerPiece: Cell, isMaximizer: bool,
                       alpha: int, beta: int)
    requires |b| == 9 && Pieces(playerPiece, computerPiece)
    requires InlinePos(b, if isMaximizer then playerPiece else computerPiece) == -1
    requires InlinePos(b, if isMaximizer then computerPiece else playerPiece) != -1
    ensures var mover := if isMaximizer then playerPiece else computerPiece;
      var block := InlinePos(b, if isMaximizer then computerPiece else playerPiece);
      Minimax(b, playerPiece, computerPiece, isMaximizer, alpha, beta, true) ==
        Minimax(b[block := mover], playerPiece, computerPiece, !isMaximizer, alpha, beta, true)
  {
  }

  /** Without a reflexive move (or in the exhaustive program) minimax is the
      leaf tests followed by the scan. */
  lemma NoReflexiveMove(b: seq<Cell>, playerPiece: Cell, computerPiece: Cell, isMaximizer: bool,
                        alpha: int, beta: int, forwardChecking: bool)
    requires |b| == 9 && Pieces(playerPiece, computerPiece)
    requires forwardChecking ==>
      InlinePos(b, playerPiece) == -1 && InlinePos(b, computerPiece) == -1
    ensures Minimax(b, playerPiece, computerPiece, isMaximizer, alpha, beta, forwardChecking) ==
      Evaluate(b, playerPiece, computerPiece, isMaximizer, alpha, beta, forwardChecking)
  {
  }

  /** The positions minimax answers without placing a piece: a reflexive
      win, or (no reflexive move applying) a won or full board. */
  predicate Leaf(b: seq<Cell>, playerPiece: Cell, computerPiece: Cell, isMaximizer: bool, forwardChecking: bool)
    requires |b| == 9
  {
    var mover := if isMaximizer then playerPiece else computerPiece;
    var other := if isMaximizer then computerPiece else playerPiece;
    if forwardChecking && InlinePos(b, mover) != -1 then true
    else if forwardChecking && InlinePos(b, other) != -1 then false
    else WhoWon(b) == playerPiece || WhoWon(b) == computerPiece || IsFilled(b)
  }

  /** The leaf tests of minimax followed by the scan over the empty cells. */
  ghost function Evaluate(b: seq<Cell>, playerPiece: Cell, computerPiece: Cell, isMaximizer: bool,
                          alpha: int, beta: int, forwardChecking: bool): (r: int)
    requires |b| == 9 && Pieces(playerPiece, computerPiece)
    ensures -1 <= r <= 1
    decreases EmptyCount(b), 1
  {
    var winner := WhoWon(b);
    if winner == playerPiece then 1
    else if winner == computerPiece then -1
    else if IsFilled(b) then 0
    else Scan(b, playerPiece, computerPiece, isMaximizer, alpha, beta, forwardChecking, 0, -2, 2)
  }

  /** The scan loop of minimax from cell i on, with the running `max`,
      `min` and the current bounds. The maximizer records its maximum in
      `beta` and stops once it reaches `alpha`; the minimizer records its
      minimum in `alpha` and stops once it reaches `beta`. */
  ghost function Scan(b: seq<Cell>, playerPiece: Cell, computerPiece: Cell, isMaximizer: bool,
                      alpha: int, beta: int, forwardChecking: bool, i: nat, max: int, min: int): (r: int)
    requires |b| == 9 && Pieces(playerPiece, computerPiece) && i <= 9
    requires -2 <= max <= 1 && -1 <= min <= 2
    ensures -1 <= r <= 1 ||
      (r == (if isMaximizer then max else min) && forall j :: i <= j < 9 ==> b[j] != Empty)
    decreases EmptyCount(b), 0, 9 - i
  {
    if i == 9 then (if isMaximizer then max else min)
    else if b[i] != Empty then
      Scan(b, playerPiece, computerPiece, isMaximizer, alpha, beta, forwardChecking, i + 1, max, min)
    else
      var mover := if isMaximizer then playerPiece else computerPiece;
      FillDecreases(b, i, mover);
      var val := Minimax(b[i := mover], playerPiece, computerPiece, !isMaximizer, alpha, beta, forwardChecking);
      if isMaximizer then
        var max', beta' := if val > max then val else max, if val > max then val else beta;
        if val == 1 || max' >= alpha then max'
        else Scan(b, playerPiece, computerPiece, isMaximizer, alpha, beta', forwardChecking, i + 1, max', min)
      else
        var min', alpha' := if val < min then val else min, if val < min then val else alpha;
        if val == -1 || min' <= beta then min'
        else Scan(b, playerPiece, computerPiece, isMaximizer, alpha', beta, forwardChecking, i + 1, max, min')
  }

  /** One turn of the maximizer's scan loop at an empty cell whose child scored `val`. */
  lemma ScanStepMax(b: seq<Cell>, playerPiece: Cell, computerPiece: Cell, alpha: int, beta: int,
                    forwardChecking: bool, i: nat, max: int, min: int, val: int)
    requires |b| == 9 && Pieces(playerPiece, computerPiece) && i < 9 && b[i] == Empty
    requires -2 <= max <= 1 && -1 <= min <= 2
    requires val == Minimax(b[i := playerPiece], playerPiece, computerPiece, false, alpha, beta, forwardChecking)
    ensures var max', beta' := if val > max then val else max, if val > max then val else beta;
      Scan(b, playerPiece, computerPiece, true, alpha, beta, forwardChecking, i, max, min) ==
        if val == 1 || max' >= alpha then max'
        else Scan(b, playerPiece, computerPiece, true, alpha, beta', forwardChecking, i + 1, max', min)
  {
  }

  /** One turn of the minimizer's scan loop at an empty cell whose child scored `val`. */
  lemma ScanStepMin(b: seq<Cell>, playerPiece: Cell, computerPiece: Cell, alpha: int, beta: int,
                    forwardChecking: bool, i: nat, max: int, min: int, val: int)
    requires |b| == 9 && Pieces(playerPiece, computerPiece) && i < 9 && b[i] == Empty
    requires -2 <= max <= 1 && -1 <= min <= 2
    requires val == Minimax(b[i := computerPiece], playerPiece, computerPiece, true, alpha, beta, forwardChecking)
    ensures var min', alpha' := if val < min then val else min, if val < min then val else alpha;
      Scan(b, playerPiece, computerPiece, false, alpha, beta, forwardChecking, i, max, min) ==
        if val == -1 || min' <= beta then min'
        else Scan(b, playerPiece, computerPiece, false, alpha', beta, forwardChecking, i + 1, max, min')
  {
  }

  /** The score makeComputerMove gives the empty cell i: minimax of the
      board with computerPiece placed there, the player to move, neutral bounds. */
  ghost function MoveValue(b: seq<Cell>, computerPiece: Cell, forwardChecking: bool, i: Index): (v: int)
    requires |b| == 9 && computerPiece != Empty
    ensures -1 <= v <= 1
  {
    Minimax(b[i := computerPiece], Opponent(computerPiece), computerPiece, true, 2, -2, forwardChecking)
  }

  /** makeComputerMove: the cell the computer commits, or -1 when the board
      offers none. The forward-checking program first takes a win, then a block. */
  ghost function ChooseMove(b: seq<Cell>, computerPiece: Cell, forwardChecking: bool): (m: int)
    requires |b| == 9 && computerPiece != Empty
    ensures m == -1 <==> IsFilled(b)
    ensures m != -1 ==> 0 <= m < 9 && b[m] == Empty
  {
    var win := if forwardChecking then InlinePos(b, computerPiece) else -1;
    var pos := if forwardChecking && win == -1 then InlinePos(b, Opponent(computerPiece)) else win;
    if pos != -1 then pos
    else MoveScan(b, computerPiece, forwardChecking, 0, 2, -1)
  }

  /** The scan loop of makeComputerMove from cell i on: the lowest score
      so far and the first cell that reached it; a score of -1 ends the scan. */
  ghost function MoveScan(b: seq<Cell>, computerPiece: Cell, forwardChecking: bool,
                          i: nat, min: int, move: int): (m: int)
    requires |b| == 9 && computerPiece != Empty && i <= 9
    requires move == -1 || (0 <= move < i && b[move] == Empty)
    requires move == -1 ==> min == 2
    ensures m == -1 || (0 <= m < 9 && b[m] == Empty)
    ensures m == -1 <==> move == -1 && forall j :: i <= j < 9 ==> b[j] != Empty
    decreases 9 - i
  {
    if i == 9 then move
    else if b[i] != Empty then MoveScan(b, computerPiece, forwardChecking, i + 1, min, move)
    else
      var val := MoveValue(b, computerPiece, forwardChecking, i);
      var min', move' := if min > val then val else min, if min > val then i else move;
      if val == -1 then move'
      else MoveScan(b, computerPiece, forwardChecking, i + 1, min', move')
  }

  /** One turn of makeComputerMove's scan loop at an empty cell whose board scored `val`. */
  lemma MoveScanStep(b: seq<Cell>, computerPiece: Cell, forwardChecking: bool,
                     i: nat, min: int, move: int, val: int)
    requires |b| == 9 && computerPiece != Empty && i < 9 && b[i] == Empty
    requires move == -1 || (0 <= move < i && b[move] == Empty)
    requires move == -1 ==> min == 2
    requires val == Minimax(b[i := computerPiece], Opponent(computerPiece), computerPiece, true, 2, -2, forwardChecking)
    ensures var min', move' := if min > val then val else min, if min > val then i else move;
      MoveScan(b, computerPiece, forwardChecking, i, min, move) ==
        if val == -1 then move' else MoveScan(b, computerPiece, forwardChecking, i + 1, min', move')
  {
  }
}
