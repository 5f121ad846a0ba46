/** The 3x3 board shared by both engines: cells, the eight lines, and the
    read-only scans whoWon, isFilled and inlinePos. */
module Board {

  /** A cell holds one of the two pieces or is empty ('-' in the program). */
  datatype Cell = X | O | Empty

  /** A cell position; the board is row-major, so row r and column c is 3 * r + c. */
  type Index = i: int | 0 <= i < 9

  /** Three cell positions in the order the program compares them. */
  datatype Line = Line(first: Index, second: Index, third: Index)

  /** The piece the other side plays: the getOpponentPiece macro. */
  function Opponent(piece: Cell): (q: Cell)
    ensures q != Empty
    ensures piece != Empty ==> q != piece
  {
    if piece == X then O else X
  }

  /** Two distinct pieces, one for the human player and one for the computer. */
  predicate Pieces(playerPiece: Cell, computerPiece: Cell)
  {
    playerPiece != Empty && computerPiece != Empty && playerPiece != computerPiece
  }

  /** The eight lines in the program's scan order: the three columns
      (i, i+3, i+6), the three rows (i, i+1, i+2), the principal diagonal
      and the other diagonal. */
  function LineAt(k: nat): (l: Line)
    requires k < 8
  {
    if k < 3 then Line(k, k + 3, k + 6)
    else if k < 6 then Line(3 * (k - 3), 3 * (k - 3) + 1, 3 * (k - 3) + 2)
    else if k == 6 then Line(0, 4, 8)
    else Line(2, 4, 6)
  }

  /** A line whose three cells hold the same piece. */
  predicate Complete(b: seq<Cell>, l: Line)
    requires |b| == 9
  {
    b[l.first] != Empty && b[l.first] == b[l.second] && b[l.second] == b[l.third]
  }

  /** Two cells of the line hold `piece` and the remaining one is empty. */
  predicate Threat(b: seq<Cell>, l: Line, piece: Cell)
    requires |b| == 9
  {
    || (b[l.first] == piece && b[l.second] == piece && b[l.third] == Empty)
    || (b[l.first] == piece && b[l.third] == piece && b[l.second] == Empty)
    || (b[l.second] == piece && b[l.third] == piece && b[l.first] == Empty)
  }

  /** Cell `r` of line `l` is empty and the line's other two cells hold `piece`. */
  predicate Completes(b: seq<Cell>, l: Line, piece: Cell, r: int)
    requires |b| == 9
  {
    || (r == l.first && b[l.first] == Empty && b[l.second] == piece && b[l.third] == piece)
    || (r == l.second && b[l.second] == Empty && b[l.first] == piece && b[l.third] == piece)
    || (r == l.third && b[l.third] == Empty && b[l.first] == piece && b[l.second] == piece)
  }

  /** newBoard: a fresh array of nine empty cells. */
  method NewBoard() returns (board: array<Cell>)
    ensures fresh(board)
    ensures board.Length == 9
    ensures forall i :: 0 <= i < 9 ==> board[i] == Empty
  {
    board := new Cell[9];
    var i := 0;
    while i < 9
      invariant 0 <= i <= 9
      invariant forall j :: 0 <= j < i ==> board[j] == Empty
    {
      board[i] := Empty;
      i := i + 1;
    }
  }

  /** whoWon: the piece of the first complete line in scan order, or
      Empty; WhoWonFirstLine states it. */
  function WhoWon(b: seq<Cell>): (w: Cell)
    requires |b| == 9
  {
    WinnerFrom(b, 0)
  }

  /** The scan of whoWon from line k on. */
  function WinnerFrom(b: seq<Cell>, k: nat): (w: Cell)
    requires |b| == 9 && k <= 8
    decreases 8 - k
  {
    if k == 8 then Empty
    else if Complete(b, LineAt(k)) then b[LineAt(k).first]
    else WinnerFrom(b, k + 1)
  }

  /** whoWon answers Empty exactly when no line is complete, and otherwise
      the piece of the first complete line in scan order. */
  lemma WhoWonFirstLine(b: seq<Cell>)
    requires |b| == 9
    ensures WhoWon(b) == Empty <==> forall k :: 0 <= k < 8 ==> !Complete(b, LineAt(k))
    ensures WhoWon(b) != Empty ==>
      exists k :: 0 <= k < 8 && Complete(b, LineAt(k)) && WhoWon(b) == b[LineAt(k).first] &&
        forall j :: 0 <= j < k ==> !Complete(b, LineAt(j))
  {
    WinnerFromFirstLine(b, 0);
  }

  lemma {:induction false} WinnerFromFirstLine(b: seq<Cell>, k: nat)
    requires |b| == 9 && k <= 8
    ensures WinnerFrom(b, k) == Empty <==> forall j :: k <= j < 8 ==> !Complete(b, LineAt(j))
    ensures WinnerFrom(b, k) != Empty ==>
      exists j :: k <= j < 8 && Complete(b, LineAt(j)) && WinnerFrom(b, k) == b[LineAt(j).first] &&
        forall i :: k <= i < j ==> !Complete(b, LineAt(i))
  {
    var j := WinnerFromLine(b, k);
  }

  /** The line at which the scan of whoWon from line k stops: 8 when no
      line from k on is complete. */
  lemma {:induction false} WinnerFromLine(b: seq<Cell>, k: nat) returns (j: nat)
    requires |b| == 9 && k <= 8
    ensures k <= j <= 8
    ensures forall i :: k <= i < j ==> !Complete(b, LineAt(i))
    ensures j == 8 <==> WinnerFrom(b, k) == Empty
    ensures j < 8 ==> Complete(b, LineAt(j)) && WinnerFrom(b, k) == b[LineAt(j).first]
    decreases 8 - k
  {
    if k == 8 {
      j := 8;
    } else if !Complete(b, LineAt(k)) {
      j := WinnerFromLine(b, k + 1);
    } else {
      j := k;
    }
  }

  /** isFilled: true exactly when no cell is empty. */
  function IsFilled(b: seq<Cell>): (full: bool)
    requires |b| == 9
    ensures full <==> forall i :: 0 <= i < 9 ==> b[i] != Empty
  {
    FilledFrom(b, 0)
  }

  /** The scan of isFilled from cell i on. */
  function FilledFrom(b: seq<Cell>, i: nat): (full: bool)
    requires |b| == 9 && i <= 9
    ensures full <==> forall j :: i <= j < 9 ==> b[j] != Empty
    decreases 9 - i
  {
    if i == 9 then true
    else if b[i] == Empty then false
    else FilledFrom(b, i + 1)
  }

  /** inlinePos: an empty cell, or -1; InlinePosFirstLine says which. */
  function InlinePos(b: seq<Cell>, piece: Cell): (r: int)
    requires |b| == 9
    ensures r == -1 || (0 <= r < 9 && b[r] == Empty)
  {
    InlineFrom(b, piece, 0)
  }

  /** The cell line `l` offers `piece`, or -1. The three tests are in the
      program's order: columns try the gap in the middle first, rows and
      diagonals the gap at the end first. */
  function LineGap(b: seq<Cell>, l: Line, piece: Cell, column: bool): (r: int)
    requires |b| == 9
    ensures r == -1 <==> !Threat(b, l, piece)
    ensures r != -1 ==> Completes(b, l, piece, r)
  {
    var a, m, z := b[l.first], b[l.second], b[l.third];
    if column then
      if a == z && a == piece && m == Empty then l.second
      else if a == m && a == piece && z == Empty then l.third
      else if m == z && m == piece && a == Empty then l.first
      else -1
    else
      if a == m && a == piece && z == Empty then l.third
      else if a == z && a == piece && m == Empty then l.second
      else if z == m && z == piece && a == Empty then l.first
      else -1
  }

  /** The scan of inlinePos from line k on. */
  function InlineFrom(b: seq<Cell>, piece: Cell, k: nat): (r: int)
    requires |b| == 9 && k <= 8
    ensures r == -1 || (0 <= r < 9 && b[r] == Empty)
    decreases 8 - k
  {
    if k == 8 then -1
    else
      var r := LineGap(b, LineAt(k), piece, k < 3);
      if r != -1 then r else InlineFrom(b, piece, k + 1)
  }

  /** inlinePos answers -1 exactly when no line holds `piece` twice beside
      an empty cell; otherwise it answers the empty cell of the first such
      line in scan order. */
  lemma InlinePosFirstLine(b: seq<Cell>, piece: Cell)
    requires |b| == 9
    ensures InlinePos(b, piece) == -1 <==> forall k :: 0 <= k < 8 ==> !Threat(b, LineAt(k), piece)
    ensures InlinePos(b, piece) != -1 ==>
      exists k :: 0 <= k < 8 && Completes(b, LineAt(k), piece, InlinePos(b, piece)) &&
        forall j :: 0 <= j < k ==> !Threat(b, LineAt(j), piece)
  {
    InlineFromFirstLine(b, piece, 0);
  }

  lemma {:induction false} InlineFromFirstLine(b: seq<Cell>, piece: Cell, k: nat)
    requires |b| == 9 && k <= 8
    ensures InlineFrom(b, piece, k) == -1 <==> forall j :: k <= j < 8 ==> !Threat(b, LineAt(j), piece)
    ensures InlineFrom(b, piece, k) != -1 ==>
      exists j :: k <= j < 8 && Completes(b, LineAt(j), piece, InlineFrom(b, piece, k)) &&
        forall i :: k <= i < j ==> !Threat(b, LineAt(i), piece)
    decreases 8 - k
  {
    var j := InlineFromLine(b, piece, k);
  }

  /** The line at which the scan of inlinePos from line k stops: 8 when it
      finds none. */
  lemma {:induction false} InlineFromLine(b: seq<Cell>, piece: Cell, k: nat) returns (j: nat)
    requires |b| == 9 && k <= 8
    ensures k <= j <= 8
    ensures forall i :: k <= i < j ==> !Threat(b, LineAt(i), piece)
    ensures j == 8 <==> InlineFrom(b, piece, k) == -1
    ensures j < 8 ==> Completes(b, LineAt(j), piece, InlineFrom(b, piece, k))
    decreases 8 - k
  {
    if k == 8 {
      j := 8;
    } else if LineGap(b, LineAt(k), piece, k < 3) == -1 {
      assert !Threat(b, LineAt(k), piece);
      j := InlineFromLine(b, piece, k + 1);
    } else {
      j := k;
    }
  }

  /** The number of empty cells: what every move of the search uses up. */
  function EmptyCount(b: seq<Cell>): (n: nat)
  {
    multiset(b)[Empty]
  }

  /** Filling an empty cell leaves one empty cell fewer. */
  lemma FillDecreases(b: seq<Cell>, i: Index, piece: Cell)
    requires |b| == 9 && b[i] == Empty && piece != Empty
    ensures EmptyCount(b[i := piece]) == EmptyCount(b) - 1
  {
    assert b == b[..i] + [b[i]] + b[i + 1..];
    assert b[i := piece] == b[..i] + [piece] + b[i + 1..];
  }
}
