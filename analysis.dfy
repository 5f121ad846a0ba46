/** What the search promises beyond its definition: the scan of minimax
    visits a prefix of the empty cells and answers the best of their
    values; makeComputerMove commits the first cell of lowest value, or
    the reflexive win or block. */
module Analysis {
  import opened Board
  import opened Search

  /** The better of two scores for the side to move: the larger for the
      maximizer, the smaller for the minimizer (the programs' `val > max`
      and `val < min` updates). */
  function Better(isMaximizer: bool, x: int, y: int): (z: int)
  {
    if isMaximizer then (if y > x then y else x) else (if y < x then y else x)
  }

  /** The running best of the scores `vs`, starting from `acc`. */
  function Best(isMaximizer: bool, acc: int, vs: seq<int>): (best: int)
    decreases |vs|
  {
    if |vs| == 0 then acc else Best(isMaximizer, Better(isMaximizer, acc, vs[0]), vs[1..])
  }

  lemma BestCons(isMaximizer: bool, acc: int, v: int, vs: seq<int>)
    ensures Best(isMaximizer, acc, [v] + vs) == Best(isMaximizer, Better(isMaximizer, acc, v), vs)
  {
    assert ([v] + vs)[1..] == vs;
  }

  /** The running best is the start value or one of the scores, and it is
      at least as good as the start value and as every score. */
  lemma {:induction false} BestBounds(isMaximizer: bool, acc: int, vs: seq<int>)
    ensures Best(isMaximizer, acc, vs) == acc || Best(isMaximizer, acc, vs) in vs
    ensures isMaximizer ==> acc <= Best(isMaximizer, acc, vs)
    ensures isMaximizer ==> forall j :: 0 <= j < |vs| ==> vs[j] <= Best(isMaximizer, acc, vs)
    ensures !isMaximizer ==> Best(isMaximizer, acc, vs) <= acc
    ensures !isMaximizer ==> forall j :: 0 <= j < |vs| ==> Best(isMaximizer, acc, vs) <= vs[j]
    decreases |vs|
  {
    if |vs| > 0 {
      BestBounds(isMaximizer, Better(isMaximizer, acc, vs[0]), vs[1..]);
      assert vs == [vs[0]] + vs[1..];
    }
  }

  /** The examined cells `cs` are exactly the empty cells of `b` from `i`
      on that come before the last of them, in increasing order. */
  predicate EmptyPrefix(b: seq<Cell>, i: nat, cs: seq<int>)
    requires |b| == 9
  {
    && (forall j :: 0 <= j < |cs| ==> i <= cs[j] < 9 && b[cs[j]] == Empty)
    && (forall j, k :: 0 <= j < k < |cs| ==> cs[j] < cs[k])
    && (forall k :: i <= k < 9 && b[k] == Empty && (|cs| == 0 || k < cs[|cs| - 1]) ==> k in cs)
  }

  /** Every empty cell of `b` from `i` on was examined. */
  predicate AllEmptyIn(b: seq<Cell>, i: nat, cs: seq<int>)
    requires |b| == 9
  {
    forall k :: i <= k < 9 && b[k] == Empty ==> k in cs
  }

  /** The bound minimax hands to the child at position j of the scan: the
      inherited one for the first child, the running best after it. */
  function ChildBound(isMaximizer: bool, inherited: int, acc: int, vs: seq<int>, j: nat): (bound: int)
    requires j <= |vs|
  {
    if j == 0 then inherited else Best(isMaximizer, acc, vs[..j])
  }

  lemma {:induction false} ChildBoundCons(isMaximizer: bool, inherited: int, acc: int, v: int,
                                          vs: seq<int>, j: nat)
    requires 1 <= j <= |vs| + 1
    ensures ChildBound(isMaximizer, inherited, acc, [v] + vs, j) ==
      ChildBound(isMaximizer, Better(isMaximizer, acc, v), Better(isMaximizer, acc, v), vs, j - 1)
  {
    assert ([v] + vs)[..j] == [v] + vs[..j - 1];
    BestCons(isMaximizer, acc, v, vs[..j - 1]);
  }

  /** The side to move's piece. */
  function Mover(isMaximizer: bool, playerPiece: Cell, computerPiece: Cell): (piece: Cell)
  {
    if isMaximizer then playerPiece else computerPiece
  }

  /** `vs` are the values of the children at the cells `cs`: each child is
      searched with the bounds of the moment, the maximizer passing on
      alpha and its running beta, the minimizer its running alpha and beta. */
  ghost predicate ChildValues(b: seq<Cell>, playerPiece: Cell, computerPiece: Cell, isMaximizer: bool,
                              alpha: int, beta: int, forwardChecking: bool, acc: int,
                              cs: seq<int>, vs: seq<int>)
    requires |b| == 9 && Pieces(playerPiece, computerPiece) && |cs| == |vs|
    requires forall j :: 0 <= j < |cs| ==> 0 <= cs[j] < 9
  {
    forall j :: 0 <= j < |cs| ==>
      vs[j] == Minimax(b[cs[j] := Mover(isMaximizer, playerPiece, computerPiece)],
                       playerPiece, computerPiece, !isMaximizer,
                       if isMaximizer then alpha else ChildBound(false, alpha, acc, vs, j),
                       if isMaximizer then ChildBound(true, beta, acc, vs, j) else beta,
                       forwardChecking)
  }

  /** The stop test fails for every child but the last: the maximizer
      stops at 1 or at a value reaching alpha, the minimizer at -1 or at a
      value reaching beta. */
  predicate NoEarlyStop(isMaximizer: bool, alpha: int, beta: int, vs: seq<int>)
  {
    forall j :: 0 <= j < |vs| - 1 ==>
      if isMaximizer then vs[j] != 1 && vs[j] < alpha else vs[j] != -1 && vs[j] > beta
  }

  /** The stop test fires at the last child: its value is the best
      possible one, or the running best has reached the bound. */
  predicate StopsAtLast(isMaximizer: bool, alpha: int, beta: int, acc: int, vs: seq<int>)
  {
    |vs| > 0 &&
    if isMaximizer then vs[|vs| - 1] == 1 || Best(true, acc, vs) >= alpha
    else vs[|vs| - 1] == -1 || Best(false, acc, vs) <= beta
  }

  /** `cs` and `vs` are a trace of the scan of minimax from cell i with
      running best `acc`: `cs` are the cells it examines, in increasing
      order and with no empty cell skipped, `vs` the values of their
      children; the stop test fails for every child but the last; and
      either every empty cell from i on was examined or the last child
      stopped the scan. */
  ghost predicate Trace(b: seq<Cell>, playerPiece: Cell, computerPiece: Cell, isMaximizer: bool,
                        alpha: int, beta: int, forwardChecking: bool, i: nat, acc: int,
                        cs: seq<int>, vs: seq<int>)
    requires |b| == 9 && Pieces(playerPiece, computerPiece)
  {
    && |cs| == |vs|
    && EmptyPrefix(b, i, cs)
    && ChildValues(b, playerPiece, computerPiece, isMaximizer, alpha, beta, forwardChecking, acc, cs, vs)
    && NoEarlyStop(isMaximizer, alpha, beta, vs)
    && (AllEmptyIn(b, i, cs) || StopsAtLast(isMaximizer, alpha, beta, acc, vs))
  }

  /** The scan of minimax from cell i has a trace, and its answer is the
      running best of the trace's values: the running maximum for the
      maximizer, the running minimum for the minimizer. */
  lemma {:induction false} ScanTrace(b: seq<Cell>, playerPiece: Cell, computerPiece: Cell,
                                     isMaximizer: bool, alpha: int, beta: int, forwardChecking: bool,
                                     i: nat, max: int, min: int)
    returns (cs: seq<int>, vs: seq<int>)
    requires |b| == 9 && Pieces(playerPiece, computerPiece) && i <= 9
    requires -2 <= max <= 1 && -1 <= min <= 2
    requires isMaximizer ==> max == -2 || beta == max
    requires !isMaximizer ==> min == 2 || alpha == min
    ensures Trace(b, playerPiece, computerPiece, isMaximizer, alpha, beta, forwardChecking, i,
                  if isMaximizer then max else min, cs, vs)
    ensures Scan(b, playerPiece, computerPiece, isMaximizer, alpha, beta, forwardChecking, i, max, min) ==
      Best(isMaximizer, if isMaximizer then max else min, vs)
    decreases 9 - i, 1
  {
    if i == 9 {
      cs, vs := [], [];
    } else if b[i] != Empty {
      cs, vs := ScanTrace(b, playerPiece, computerPiece, isMaximizer, alpha, beta, forwardChecking, i + 1, max, min);
      TraceSkip(b, playerPiece, computerPiece, isMaximizer, alpha, beta, forwardChecking, i,
                if isMaximizer then max else min, cs, vs);
    } else if isMaximizer {
      cs, vs := MaxTraceAt(b, playerPiece, computerPiece, alpha, beta, forwardChecking, i, max, min);
    } else {
      cs, vs := MinTraceAt(b, playerPiece, computerPiece, alpha, beta, forwardChecking, i, max, min);
    }
  }

  /** The maximizer's scan at an empty cell i: the child's value either
      stops the scan or goes in front of the trace of the rest. */
  lemma {:induction false} MaxTraceAt(b: seq<Cell>, playerPiece: Cell, computerPiece: Cell,
                                      alpha: int, beta: int, forwardChecking: bool,
                                      i: Index, max: int, min: int)
    returns (cs: seq<int>, vs: seq<int>)
    requires |b| == 9 && Pieces(playerPiece, computerPiece) && b[i] == Empty
    requires -2 <= max <= 1 && -1 <= min <= 2
    requires max == -2 || beta == max
    ensures Trace(b, playerPiece, computerPiece, true, alpha, beta, forwardChecking, i, max, cs, vs)
    ensures Scan(b, playerPiece, computerPiece, true, alpha, beta, forwardChecking, i, max, min) ==
      Best(true, max, vs)
    decreases 9 - i, 0
  {
    var val := Minimax(b[i := playerPiece], playerPiece, computerPiece, false, alpha, beta, forwardChecking);
    ScanStepMax(b, playerPiece, computerPiece, alpha, beta, forwardChecking, i, max, min, val);
    var max', beta' := if val > max then val else max, if val > max then val else beta;
    assert Better(true, max, val) == max';
    if val == 1 || max' >= alpha {
      cs, vs := [i], [val];
      TraceStop(b, playerPiece, computerPiece, true, alpha, beta, forwardChecking, i, max, val);
    } else {
      var cs', vs' := ScanTrace(b, playerPiece, computerPiece, true, alpha, beta', forwardChecking, i + 1, max', min);
      cs, vs := [i] + cs', [val] + vs';
      BestCons(true, max, val, vs');
      TraceCons(b, playerPiece, computerPiece, true, alpha, beta, forwardChecking, i, max, val, cs', vs');
    }
  }

  /** The minimizer's scan at an empty cell i. */
  lemma {:induction false} MinTraceAt(b: seq<Cell>, playerPiece: Cell, computerPiece: Cell,
                                      alpha: int, beta: int, forwardChecking: bool,
                                      i: Index, max: int, min: int)
    returns (cs: seq<int>, vs: seq<int>)
    requires |b| == 9 && Pieces(playerPiece, computerPiece) && b[i] == Empty
    requires -2 <= max <= 1 && -1 <= min <= 2
    requires min == 2 || alpha == min
    ensures Trace(b, playerPiece, computerPiece, false, alpha, beta, forwardChecking, i, min, cs, vs)
    ensures Scan(b, playerPiece, computerPiece, false, alpha, beta, forwardChecking, i, max, min) ==
      Best(false, min, vs)
    decreases 9 - i, 0
  {
    var val := Minimax(b[i := computerPiece], playerPiece, computerPiece, true, alpha, beta, forwardChecking);
    ScanStepMin(b, playerPiece, computerPiece, alpha, beta, forwardChecking, i, max, min, val);
    var min', alpha' := if val < min then val else min, if val < min then val else alpha;
    assert Better(false, min, val) == min';
    if val == -1 || min' <= beta {
      cs, vs := [i], [val];
      TraceStop(b, playerPiece, computerPiece, false, alpha, beta, forwardChecking, i, min, val);
    } else {
      var cs', vs' := ScanTrace(b, playerPiece, computerPiece, false, alpha', beta, forwardChecking, i + 1, max, min');
      cs, vs := [i] + cs', [val] + vs';
      BestCons(false, min, val, vs');
      TraceCons(b, playerPiece, computerPiece, false, alpha, beta, forwardChecking, i, min, val, cs', vs');
    }
  }

  /** A full cell adds nothing to the trace. */
  lemma TraceSkip(b: seq<Cell>, playerPiece: Cell, computerPiece: Cell, isMaximizer: bool,
                  alpha: int, beta: int, forwardChecking: bool, i: nat, acc: int,
                  cs: seq<int>, vs: seq<int>)
    requires |b| == 9 && Pieces(playerPiece, computerPiece) && i < 9 && b[i] != Empty
    requires Trace(b, playerPiece, computerPiece, isMaximizer, alpha, beta, forwardChecking, i + 1, acc, cs, vs)
    ensures Trace(b, playerPiece, computerPiece, isMaximizer, alpha, beta, forwardChecking, i, acc, cs, vs)
  {
  }

  /** A child that stops the scan is a trace on its own. */
  lemma TraceStop(b: seq<Cell>, playerPiece: Cell, computerPiece: Cell, isMaximizer: bool,
                  alpha: int, beta: int, forwardChecking: bool, i: Index, acc: int, val: int)
    requires |b| == 9 && Pieces(playerPiece, computerPiece) && b[i] == Empty
    requires val == Minimax(b[i := Mover(isMaximizer, playerPiece, computerPiece)], playerPiece, computerPiece,
                            !isMaximizer, alpha, beta, forwardChecking)
    requires if isMaximizer then val == 1 || Better(true, acc, val) >= alpha
             else val == -1 || Better(false, acc, val) <= beta
    ensures Trace(b, playerPiece, computerPiece, isMaximizer, alpha, beta, forwardChecking, i, acc, [i], [val])
  {
    assert [val][1..] == [];
    assert Best(isMaximizer, acc, [val]) == Best(isMaximizer, Better(isMaximizer, acc, val), []);
    assert [val][|[val]| - 1] == val;
  }

  /** A child that does not stop the scan, in front of a trace from the
      next cell whose bounds and running best it updated. */
  lemma TraceCons(b: seq<Cell>, playerPiece: Cell, computerPiece: Cell, isMaximizer: bool,
                  alpha: int, beta: int, forwardChecking: bool, i: Index, acc: int, val: int,
                  cs': seq<int>, vs': seq<int>)
    requires |b| == 9 && Pieces(playerPiece, computerPiece) && b[i] == Empty
    requires val == Minimax(b[i := Mover(isMaximizer, playerPiece, computerPiece)], playerPiece, computerPiece,
                            !isMaximizer, alpha, beta, forwardChecking)
    requires if isMaximizer then val != 1 && Better(true, acc, val) < alpha
             else val != -1 && Better(false, acc, val) > beta
    requires Trace(b, playerPiece, computerPiece, isMaximizer,
                   if isMaximizer then alpha else Better(false, acc, val),
                   if isMaximizer then Better(true, acc, val) else beta,
                   forwardChecking, i + 1, Better(isMaximizer, acc, val), cs', vs')
    ensures Trace(b, playerPiece, computerPiece, isMaximizer, alpha, beta, forwardChecking, i, acc,
                  [i] + cs', [val] + vs')
  {
    var cs, vs := [i] + cs', [val] + vs';
    ScanTraceTail(b, i, cs, cs');
    ChildValuesCons(b, playerPiece, computerPiece, isMaximizer, alpha, beta, forwardChecking, acc, i, val, cs', vs');
    NoEarlyStopCons(isMaximizer, if isMaximizer then alpha else Better(false, acc, val),
                    if isMaximizer then Better(true, acc, val) else beta, alpha, beta, val, vs');
    BestCons(isMaximizer, acc, val, vs');
    if |vs'| > 0 {
      assert vs[|vs| - 1] == vs'[|vs'| - 1];
    }
  }

  /** A child value in front of the values of a scan from the next cell:
      after the first child the running best is also the running bound. */
  lemma ChildValuesCons(b: seq<Cell>, playerPiece: Cell, computerPiece: Cell, isMaximizer: bool,
                        alpha: int, beta: int, forwardChecking: bool, acc: int,
                        i: Index, val: int, cs': seq<int>, vs': seq<int>)
    requires |b| == 9 && Pieces(playerPiece, computerPiece) && |cs'| == |vs'|
    requires forall j :: 0 <= j < |cs'| ==> 0 <= cs'[j] < 9
    requires val == Minimax(b[i := Mover(isMaximizer, playerPiece, computerPiece)], playerPiece, computerPiece,
                            !isMaximizer, alpha, beta, forwardChecking)
    requires ChildValues(b, playerPiece, computerPiece, isMaximizer,
                         if isMaximizer then alpha else Better(false, acc, val),
                         if isMaximizer then Better(true, acc, val) else beta,
                         forwardChecking, Better(isMaximizer, acc, val), cs', vs')
    ensures ChildValues(b, playerPiece, computerPiece, isMaximizer, alpha, beta, forwardChecking, acc,
                        [i] + cs', [val] + vs')
  {
    var cs, vs := [i] + cs', [val] + vs';
    forall j | 1 <= j < |cs|
      ensures cs[j] == cs'[j - 1] && vs[j] == vs'[j - 1]
      ensures ChildBound(isMaximizer, if isMaximizer then beta else alpha, acc, vs, j) ==
        ChildBound(isMaximizer, Better(isMaximizer, acc, val), Better(isMaximizer, acc, val), vs', j - 1)
    {
      ChildBoundCons(isMaximizer, if isMaximizer then beta else alpha, acc, val, vs', j);
    }
  }

  /** A child that does not stop the scan in front of the values of a scan
      from the next cell. The bound a side updates is not the one its stop
      test reads, so only the other bound has to agree. */
  lemma NoEarlyStopCons(isMaximizer: bool, alpha': int, beta': int, alpha: int, beta: int,
                        val: int, vs': seq<int>)
    requires if isMaximizer then alpha' == alpha else beta' == beta
    requires isMaximizer ==> val != 1 && val < alpha
    requires !isMaximizer ==> val != -1 && val > beta
    requires NoEarlyStop(isMaximizer, alpha', beta', vs')
    ensures NoEarlyStop(isMaximizer, alpha, beta, [val] + vs')
  {
    var vs := [val] + vs';
    forall j | 1 <= j < |vs|
      ensures vs[j] == vs'[j - 1]
    {
    }
  }

  /** Putting an examined empty cell i in front of a trace from i + 1. */
  lemma ScanTraceTail(b: seq<Cell>, i: nat, cs: seq<int>, cs': seq<int>)
    requires |b| == 9 && i < 9 && b[i] == Empty
    requires EmptyPrefix(b, i + 1, cs') && cs == [i] + cs'
    ensures EmptyPrefix(b, i, cs)
    ensures AllEmptyIn(b, i + 1, cs') ==> AllEmptyIn(b, i, cs)
  {
  }

  /** Off the leaf tests, minimax is a scan over a non-empty prefix of the
      empty cells, and its value is the best of their children's values:
      one of them, and at least as good for the side to move as every
      other. */
  lemma MinimaxSearch(b: seq<Cell>, playerPiece: Cell, computerPiece: Cell, isMaximizer: bool,
                      alpha: int, beta: int, forwardChecking: bool)
    returns (cs: seq<int>, vs: seq<int>)
    requires |b| == 9 && Pieces(playerPiece, computerPiece)
    requires forwardChecking ==> InlinePos(b, playerPiece) == -1 && InlinePos(b, computerPiece) == -1
    requires WhoWon(b) != playerPiece && WhoWon(b) != computerPiece && !IsFilled(b)
    ensures Trace(b, playerPiece, computerPiece, isMaximizer, alpha, beta, forwardChecking, 0,
                  if isMaximizer then -2 else 2, cs, vs)
    ensures |cs| > 0
    ensures var r := Minimax(b, playerPiece, computerPiece, isMaximizer, alpha, beta, forwardChecking);
      && r in vs
      && (isMaximizer ==> forall j :: 0 <= j < |vs| ==> vs[j] <= r)
      && (!isMaximizer ==> forall j :: 0 <= j < |vs| ==> r <= vs[j])
  {
    NoReflexiveMove(b, playerPiece, computerPiece, isMaximizer, alpha, beta, forwardChecking);
    cs, vs := ScanTrace(b, playerPiece, computerPiece, isMaximizer, alpha, beta, forwardChecking, 0, -2, 2);
    BestBounds(isMaximizer, if isMaximizer then -2 else 2, vs);
    var k :| 0 <= k < 9 && b[k] == Empty;
    assert AllEmptyIn(b, 0, cs) ==> k in cs;
  }

  /** The leaf tests of minimax, once no reflexive move applies: a win for
      either piece decides the value, and a full board without a winner is
      a draw. */
  lemma MinimaxLeaf(b: seq<Cell>, playerPiece: Cell, computerPiece: Cell, isMaximizer: bool,
                    alpha: int, beta: int, forwardChecking: bool)
    requires |b| == 9 && Pieces(playerPiece, computerPiece)
    requires forwardChecking ==> InlinePos(b, playerPiece) == -1 && InlinePos(b, computerPiece) == -1
    ensures var r := Minimax(b, playerPiece, computerPiece, isMaximizer, alpha, beta, forwardChecking);
      && (WhoWon(b) == playerPiece ==> r == 1)
      && (WhoWon(b) == computerPiece ==> r == -1)
      && (WhoWon(b) != playerPiece && WhoWon(b) != computerPiece && IsFilled(b) ==> r == 0)
  {
    NoReflexiveMove(b, playerPiece, computerPiece, isMaximizer, alpha, beta, forwardChecking);
  }

  /** `vs` are makeComputerMove's scores of the cells `cs`. */
  ghost predicate Scores(b: seq<Cell>, computerPiece: Cell, forwardChecking: bool, cs: seq<int>, vs: seq<int>)
    requires |b| == 9 && computerPiece != Empty && |cs| == |vs|
    requires forall j :: 0 <= j < |cs| ==> 0 <= cs[j] < 9
  {
    forall j :: 0 <= j < |cs| ==> vs[j] == MoveValue(b, computerPiece, forwardChecking, cs[j])
  }

  /** `cs` and `vs` are a trace of makeComputerMove's scan from cell i:
      `cs` are the cells it scores, in increasing order and with no empty
      cell skipped, `vs` their scores; no score but the last is -1; and
      either every empty cell from i on was scored or the last score was -1. */
  ghost predicate MoveTrace(b: seq<Cell>, computerPiece: Cell, forwardChecking: bool, i: nat,
                            cs: seq<int>, vs: seq<int>)
    requires |b| == 9 && computerPiece != Empty
  {
    && |cs| == |vs|
    && EmptyPrefix(b, i, cs)
    && Scores(b, computerPiece, forwardChecking, cs, vs)
    && NoEarlyStop(false, 2, -1, vs)
    && (AllEmptyIn(b, i, cs) || (|vs| > 0 && vs[|vs| - 1] == -1))
  }

  /** The outcome of makeComputerMove's scan over the scores `vs` of the
      cells `cs`, started with the lowest score `min` of the cell `move`:
      it keeps `move` when no score beats `min` (p == -1); otherwise it
      answers the cell cs[p] whose score is the lowest, the first to
      reach it, beating `min`. */
  predicate MoveOutcome(cs: seq<int>, vs: seq<int>, min: int, move: int, p: int, m: int)
    requires |cs| == |vs|
  {
    || (p == -1 && m == move && forall j :: 0 <= j < |vs| ==> min <= vs[j])
    || (0 <= p < |cs| && m == cs[p] && FirstMinimum(vs, p) && vs[p] < min)
  }

  /** makeComputerMove's scan from cell i, started with the lowest score
      `min` of the cell `move`, has a trace, and its answer is the
      outcome over the trace. */
  lemma {:induction false} MoveScanTrace(b: seq<Cell>, computerPiece: Cell, forwardChecking: bool,
                                         i: nat, min: int, move: int)
    returns (cs: seq<int>, vs: seq<int>, p: int)
    requires |b| == 9 && computerPiece != Empty && i <= 9
    requires move == -1 || (0 <= move < i && b[move] == Empty)
    requires move == -1 ==> min == 2
    ensures MoveTrace(b, computerPiece, forwardChecking, i, cs, vs)
    ensures MoveOutcome(cs, vs, min, move, p, MoveScan(b, computerPiece, forwardChecking, i, min, move))
    decreases 9 - i, 1
  {
    if i == 9 {
      cs, vs, p := [], [], -1;
    } else if b[i] != Empty {
      cs, vs, p := MoveScanTrace(b, computerPiece, forwardChecking, i + 1, min, move);
      MoveTraceSkip(b, computerPiece, forwardChecking, i, cs, vs);
    } else {
      cs, vs, p := MoveScanTraceAt(b, computerPiece, forwardChecking, i, min, move);
    }
  }

  /** The same at an empty cell i: its score either ends the scan or goes
      in front of the trace of the rest. */
  lemma {:induction false} MoveScanTraceAt(b: seq<Cell>, computerPiece: Cell, forwardChecking: bool,
                                           i: Index, min: int, move: int)
    returns (cs: seq<int>, vs: seq<int>, p: int)
    requires |b| == 9 && computerPiece != Empty && b[i] == Empty
    requires move == -1 || (0 <= move < i && b[move] == Empty)
    requires move == -1 ==> min == 2
    ensures MoveTrace(b, computerPiece, forwardChecking, i, cs, vs)
    ensures MoveOutcome(cs, vs, min, move, p, MoveScan(b, computerPiece, forwardChecking, i, min, move))
    decreases 9 - i, 0
  {
    var val := MoveValue(b, computerPiece, forwardChecking, i);
    MoveScanStep(b, computerPiece, forwardChecking, i, min, move, val);
    var min', move' := if min > val then val else min, if min > val then i else move;
    if val == -1 {
      cs, vs := [i], [val];
      MoveTraceStop(b, computerPiece, forwardChecking, i, val);
      p := MoveOutcomeCons([], [], min', move', -1, move', i, val, min, move);
    } else {
      var cs', vs', p' := MoveScanTrace(b, computerPiece, forwardChecking, i + 1, min', move');
      cs, vs := [i] + cs', [val] + vs';
      MoveTraceCons(b, computerPiece, forwardChecking, i, val, cs', vs');
      p := MoveOutcomeCons(cs', vs', min', move', p', MoveScan(b, computerPiece, forwardChecking, i + 1, min', move'),
                           i, val, min, move);
    }
  }

  /** vs[p] is the lowest of the scores `vs`, and no earlier score reaches it. */
  predicate FirstMinimum(vs: seq<int>, p: nat)
    requires p < |vs|
  {
    && (forall j :: 0 <= j < |vs| ==> vs[p] <= vs[j])
    && (forall j :: 0 <= j < p ==> vs[p] < vs[j])
  }

  /** A score in front of the rest of the scan: the new lowest score and its
      cell are what the rest of the scan starts from. */
  lemma MoveOutcomeCons(cs': seq<int>, vs': seq<int>, min': int, move': int, p': int, m: int,
                        i: int, val: int, min: int, move: int)
    returns (p: int)
    requires |cs'| == |vs'|
    requires min' == (if min > val then val else min) && move' == (if min > val then i else move)
    requires MoveOutcome(cs', vs', min', move', p', m)
    ensures MoveOutcome([i] + cs', [val] + vs', min, move, p, m)
  {
    var cs, vs := [i] + cs', [val] + vs';
    forall j | 1 <= j < |vs|
      ensures cs[j] == cs'[j - 1] && vs[j] == vs'[j - 1]
    {
    }
    p := if p' != -1 then p' + 1 else if min > val then 0 else -1;
  }

  /** A full cell adds nothing to the trace. */
  lemma MoveTraceSkip(b: seq<Cell>, computerPiece: Cell, forwardChecking: bool, i: nat,
                      cs: seq<int>, vs: seq<int>)
    requires |b| == 9 && computerPiece != Empty && i < 9 && b[i] != Empty
    requires MoveTrace(b, computerPiece, forwardChecking, i + 1, cs, vs)
    ensures MoveTrace(b, computerPiece, forwardChecking, i, cs, vs)
  {
  }

  /** A score of -1 ends the scan: a trace on its own. */
  lemma MoveTraceStop(b: seq<Cell>, computerPiece: Cell, forwardChecking: bool, i: Index, val: int)
    requires |b| == 9 && computerPiece != Empty && b[i] == Empty
    requires val == MoveValue(b, computerPiece, forwardChecking, i) && val == -1
    ensures MoveTrace(b, computerPiece, forwardChecking, i, [i], [val])
  {
  }

  /** A score other than -1 in front of a trace from the next cell. */
  lemma MoveTraceCons(b: seq<Cell>, computerPiece: Cell, forwardChecking: bool, i: Index, val: int,
                      cs': seq<int>, vs': seq<int>)
    requires |b| == 9 && computerPiece != Empty && b[i] == Empty
    requires val == MoveValue(b, computerPiece, forwardChecking, i) && val != -1
    requires MoveTrace(b, computerPiece, forwardChecking, i + 1, cs', vs')
    ensures MoveTrace(b, computerPiece, forwardChecking, i, [i] + cs', [val] + vs')
  {
    var cs, vs := [i] + cs', [val] + vs';
    ScanTraceTail(b, i, cs, cs');
    ScoresCons(b, computerPiece, forwardChecking, i, val, cs', vs');
    NoEarlyStopCons(false, 2, -1, 2, -1, val, vs');
    LastCons(val, vs');
  }

  lemma ScoresCons(b: seq<Cell>, computerPiece: Cell, forwardChecking: bool, i: Index, val: int,
                   cs': seq<int>, vs': seq<int>)
    requires |b| == 9 && computerPiece != Empty && |cs'| == |vs'|
    requires forall j :: 0 <= j < |cs'| ==> 0 <= cs'[j] < 9
    requires val == MoveValue(b, computerPiece, forwardChecking, i)
    requires Scores(b, computerPiece, forwardChecking, cs', vs')
    ensures Scores(b, computerPiece, forwardChecking, [i] + cs', [val] + vs')
  {
    var cs, vs := [i] + cs', [val] + vs';
    forall j | 1 <= j < |vs|
      ensures cs[j] == cs'[j - 1] && vs[j] == vs'[j - 1]
    {
    }
  }

  /** Putting a value in front keeps the last value of a non-empty sequence. */
  lemma LastCons(val: int, vs': seq<int>)
    ensures |vs'| > 0 ==> ([val] + vs')[|vs'|] == vs'[|vs'| - 1]
  {
  }

  /** makeComputerMove without a reflexive move on a board with an empty
      cell: it commits the first scored cell of lowest score, having
      scored the empty cells in increasing order up to the first -1. */
  lemma ChooseMoveScan(b: seq<Cell>, computerPiece: Cell, forwardChecking: bool)
    returns (cs: seq<int>, vs: seq<int>, p: nat)
    requires |b| == 9 && computerPiece != Empty && !IsFilled(b)
    requires forwardChecking ==>
      InlinePos(b, computerPiece) == -1 && InlinePos(b, Opponent(computerPiece)) == -1
    ensures MoveTrace(b, computerPiece, forwardChecking, 0, cs, vs)
    ensures p < |cs| && ChooseMove(b, computerPiece, forwardChecking) == cs[p] && FirstMinimum(vs, p)
  {
    var q;
    cs, vs, q := MoveScanTrace(b, computerPiece, forwardChecking, 0, 2, -1);
    p := q;
  }

  /** Filling the empty cell of a line whose other cells hold `piece`
      completes that line with `piece`. */
  lemma FillCompletes(b: seq<Cell>, l: Line, piece: Cell, r: int)
    requires |b| == 9 && piece != Empty && Completes(b, l, piece, r)
    ensures 0 <= r < 9 && Complete(b[r := piece], l) && b[r := piece][l.first] == piece
  {
  }

  /** The forward-checking makeComputerMove takes a win when it has one:
      the committed cell completes a line of computerPiece. */
  lemma ChooseMoveWins(b: seq<Cell>, computerPiece: Cell)
    requires |b| == 9 && computerPiece != Empty && InlinePos(b, computerPiece) != -1
    ensures var m := ChooseMove(b, computerPiece, true);
      && m == InlinePos(b, computerPiece)
      && exists k :: 0 <= k < 8 && Complete(b[m := computerPiece], LineAt(k)) &&
           b[m := computerPiece][LineAt(k).first] == computerPiece
  {
    var m := ChooseMove(b, computerPiece, true);
    var k := InlineFromLine(b, computerPiece, 0);
    FillCompletes(b, LineAt(k), computerPiece, m);
  }

  /** Without a win, the forward-checking makeComputerMove blocks: the
      committed cell is the one that would complete a line of the
      opponent's, and no line offers computerPiece a win. */
  lemma ChooseMoveBlocks(b: seq<Cell>, computerPiece: Cell)
    requires |b| == 9 && computerPiece != Empty
    requires InlinePos(b, computerPiece) == -1 && InlinePos(b, Opponent(computerPiece)) != -1
    ensures var m := ChooseMove(b, computerPiece, true);
      && m == InlinePos(b, Opponent(computerPiece))
      && (exists k :: 0 <= k < 8 && Completes(b, LineAt(k), Opponent(computerPiece), m))
      && forall k :: 0 <= k < 8 ==> !Threat(b, LineAt(k), computerPiece)
  {
    InlinePosFirstLine(b, computerPiece);
    InlinePosFirstLine(b, Opponent(computerPiece));
  }
}
