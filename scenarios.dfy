/** Concrete boards on which the programs' scan orders and shortcuts show. */
module Scenarios {
  import opened Board
  import opened Search

  /** inlinePos scans the columns before the rows: with X threatening both
      column 0 and row 0, it answers the gap of the column. */
  lemma InlinePosColumnsFirst()
    ensures InlinePos([X, X, Empty, X, Empty, Empty, Empty, Empty, Empty], X) == 6
  {
  }

  /** A top row of one piece makes that piece the winner whatever the
      other cells hold: every column scanned before it crosses the top row. */
  lemma WhoWonTopRow(b: seq<Cell>, piece: Cell)
    requires |b| == 9 && piece != Empty && b[0] == piece && b[1] == piece && b[2] == piece
    ensures WhoWon(b) == piece
  {
  }

  /** The eight lines with the rows scanned before the columns, as the
      comments of whoWon describe it. */
  function RowsFirstLineAt(k: nat): (l: Line)
    requires k < 8
  {
    if k < 3 then LineAt(k + 3) else if k < 6 then LineAt(k - 3) else LineAt(k)
  }

  /** whoWon with the rows scanned before the columns, from line k on. */
  function RowsFirstWinnerFrom(b: seq<Cell>, k: nat): (w: Cell)
    requires |b| == 9 && k <= 8
    decreases 8 - k
  {
    if k == 8 then Empty
    else if Complete(b, RowsFirstLineAt(k)) then b[RowsFirstLineAt(k).first]
    else RowsFirstWinnerFrom(b, k + 1)
  }

  /** The scan order of whoWon cannot change its answer: a complete row
      and a complete column share a cell, so they hold the same piece. */
  lemma WhoWonOrderFree(b: seq<Cell>)
    requires |b| == 9
    ensures WhoWon(b) == RowsFirstWinnerFrom(b, 0)
  {
  }

  /** The forward-checking makeComputerMove, with no win at hand, blocks
      the opponent's row at once. */
  lemma ChooseMoveBlocksRow()
    ensures ChooseMove([X, X, Empty, Empty, O, Empty, Empty, Empty, Empty], O, true) == 2
  {
  }

  /** The forward-checking makeComputerMove prefers its own win to a block. */
  lemma ChooseMoveWinsRow()
    ensures ChooseMove([O, O, Empty, X, X, Empty, X, Empty, Empty], O, true) == 2
  {
  }

  /** The reflexive win of the forward-checking minimax comes before the
      leaf tests: on a board the computer has already won, the maximizer
      with a completing cell still scores 1, where the exhaustive program
      scores -1. */
  lemma ShortcutBeforeLeaf()
    ensures var b := [O, O, O, X, X, Empty, Empty, Empty, Empty];
      && WhoWon(b) == O
      && Minimax(b, X, O, true, 2, -2, true) == 1
      && Minimax(b, X, O, true, 2, -2, false) == -1
  {
  }
}
