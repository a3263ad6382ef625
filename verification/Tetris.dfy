/**
 The game of multi_array_tetris.cpp: rounds, moves, rotation, locking and collapse, first as
 rules on values, then as the object whose methods follow them.
 */
module Tetris {
  import opened Rotation
  import opened Board
  import opened Sequences

  /** `live` says that a piece is falling; `locked` and `cleared` count pieces and removed rows. */
  datatype Game = Game(
    board: seq<Row>, w: nat, piece: Grid<bool>, p0: int, p1: int, preview: Grid<bool>,
    live: bool, locked: nat, cleared: nat)
  {
    ghost predicate Shape() {
      && |board| > 0 && w > 0 && Shaped(board, w) && Square(piece) && Square(preview)
      && |Places(piece, true)| == |Places(preview, true)| == 4
    }

    /** Between rounds: no full row, and every filled cell is accounted for. */
    ghost predicate Valid() {
      && Shape() && NoneFull(board)
      && Filled(board) + w * cleared == 4 * locked
      && (live ==> p0 >= 0 && !Collides(board, w, piece, p0, p1))
    }

    /** The live piece locked where it stands, full rows removed. */
    ghost function Settle(): Game
      requires Shape()
    {
      var b := Locked(board, w, piece, p0, p1);
      this.(board := Collapsed(b, w), live := false, locked := locked + 1, cleared := cleared + |b| - |NonFull(b)|)
    }

    /** `Move`: down for 0, left below it, right above it; false when something is in the way. */
    ghost function Move(di: int): (Game, bool)
      requires Shape()
    {
      var t0 := if di == 0 then p0 + 1 else p0;
      var t1 := if di == 0 then p1 else if di < 0 then p1 - 1 else p1 + 1;
      if Collides(board, w, piece, t0, t1) then (if di == 0 then Settle() else this, false)
      else (this.(p0 := t0, p1 := t1), true)
    }

    /** Falling straight down, the piece comes to rest at row `r`: the first below which something is in the way. */
    ghost predicate LandsAt(r: int)
      requires Shape()
    {
      && p0 <= r && Collides(board, w, piece, r + 1, p1)
      && forall k: int :: p0 < k <= r ==> !Collides(board, w, piece, k, p1)
    }

    /** The state after that: the piece locked at row `r` in its column, full rows removed. */
    ghost function Landed(r: int): Game
      requires Shape()
    {
      this.(p0 := r).Settle()
    }

    ghost function Rotate(): (Game, bool)
      requires Shape()
    {
      if Collides(board, w, Rotated(piece), p0, p1) then (this, false)
      else (this.(piece := Rotated(piece)), true)
    }

    /** The column where a round starts; the source's division is towards zero. */
    function StartColumn(): int {
      if w >= |preview| then (w - |preview|) / 2 else -((|preview| - w) / 2)
    }

    /** On its way in from above the top, the piece meets nothing. */
    ghost predicate Enters()
      requires Shape()
    {
      FreeWay(board, w, preview, StartColumn())
    }

    /** A game that ends: on its way in the piece is merged at row `k`, the first where it meets something. */
    ghost predicate EndsIn(b: seq<Row>, k: int)
      requires Shape()
    {
      && 1 - |preview| <= k <= 0 && Collides(board, w, preview, k, StartColumn())
      && (forall i: int :: 1 - |preview| <= i < k ==> !Collides(board, w, preview, i, StartColumn()))
      && b == Locked(board, w, preview, k, StartColumn())
    }

    /** A round that starts: the preview becomes the piece, at row 0. */
    ghost function NextRound(next: Grid<bool>): Game
      requires Shape() && Enters()
    {
      this.(piece := preview, preview := next, p0 := 0, p1 := StartColumn(), live := true)
    }
  }

  // ----- the pieces -----

  /** A matrix of the source, 0 and 1 read as false and true. */
  function Matrix(g: seq<seq<int>>): Grid<bool> {
    seq(|g|, r requires 0 <= r < |g| => seq(|g[r]|, c requires 0 <= c < |g[r]| => g[r][c] != 0))
  }

  const PIECES: seq<seq<seq<int>>> := [
    [[1, 1], [1, 1]],
    [[0, 1, 0], [1, 1, 1], [0, 0, 0]],
    [[1, 1, 0], [0, 1, 1], [0, 0, 0]],
    [[0, 1, 1], [1, 1, 0], [0, 0, 0]],
    [[1, 1, 0], [0, 1, 0], [0, 1, 0]],
    [[0, 1, 1], [0, 1, 0], [0, 1, 0]],
    [[0, 1, 0, 0], [0, 1, 0, 0], [0, 1, 0, 0], [0, 1, 0, 0]]]

  lemma {:induction false} FourCells(m: seq<seq<int>>, cells: set<(int, int)>)
    requires forall r :: 0 <= r < |m| ==> |m[r]| == |m|
    requires forall r, c :: 0 <= r < |m| && 0 <= c < |m| ==> (m[r][c] != 0 <==> (r, c) in cells)
    requires forall q :: q in cells ==> 0 <= q.0 < |m| && 0 <= q.1 < |m|
    requires |cells| == 4
    ensures Square(Matrix(m)) && |Places(Matrix(m), true)| == 4
  {
    assert Places(Matrix(m), true) == cells;
  }

  lemma {:induction false} LongPiece()
    ensures Square(Matrix(PIECES[6])) && |Places(Matrix(PIECES[6]), true)| == 4
  {
    hide Matrix, Places;
    FourCells(PIECES[6], {(0, 1), (1, 1), (2, 1), (3, 1)});
  }

  /** Every piece is a square matrix of four cells, as the conservation law needs. */
  lemma {:induction false} PiecesHaveFourCells(i: nat)
    requires i < |PIECES|
    ensures Square(Matrix(PIECES[i])) && |Places(Matrix(PIECES[i]), true)| == 4
  {
    hide Matrix, Places;
    if i == 0 { FourCells(PIECES[i], {(0, 0), (0, 1), (1, 0), (1, 1)}); }
    if i == 1 { FourCells(PIECES[i], {(0, 1), (1, 0), (1, 1), (1, 2)}); }
    if i == 2 { FourCells(PIECES[i], {(0, 0), (0, 1), (1, 1), (1, 2)}); }
    if i == 3 { FourCells(PIECES[i], {(0, 1), (0, 2), (1, 0), (1, 1)}); }
    if i == 4 { FourCells(PIECES[i], {(0, 0), (0, 1), (1, 1), (2, 1)}); }
    if i == 5 { FourCells(PIECES[i], {(0, 1), (0, 2), (1, 1), (2, 1)}); }
    if i == 6 { LongPiece(); }
  }

  // ----- what the rules keep -----

  lemma {:induction false} SettleKeepsValid(g: Game)
    requires g.Valid() && g.live
    ensures g.Settle().Valid()
  {
    hide Locked, Collapsed, Collides, Filled, NonFull;
    var b := Locked(g.board, g.w, g.piece, g.p0, g.p1);
    LockedFilled(g.board, g.w, g.piece, g.p0, g.p1);
    CollapsedIsClean(b, g.w);
    CollapsedFilled(b, g.w);
    NonFullShorter(b);
    Cleared(g.w, g.cleared, |b| - |NonFull(b)|);
  }

  lemma {:induction false} NonFullShorter(b: seq<Row>)
    ensures |NonFull(b)| <= |b|
  {
  }

  lemma {:induction false} Cleared(w: int, a: int, b: int)
    ensures w * (a + b) == w * a + w * b
  {
  }

  lemma {:induction false} RotationKeepsPiece(m: Grid<bool>)
    requires Square(m)
    ensures |Places(Rotated(m), true)| == |Places(m, true)|
  {
    RotationPermutes(m, true);
  }

  lemma {:induction false} MoveKeepsValid(g: Game, di: int)
    requires g.Valid() && g.live
    ensures g.Move(di).0.Valid() && (di != 0 ==> g.Move(di).0.live) && (di == 0 ==> (g.Move(0).1 <==> g.Move(0).0.live))
  {
    SettleKeepsValid(g);
  }

  lemma {:induction false} MoveIs(g: Game, di: int, t0: int, t1: int, hit: bool)
    requires g.Shape() && (hit <==> Collides(g.board, g.w, g.piece, t0, t1))
    requires t0 == if di == 0 then g.p0 + 1 else g.p0
    requires t1 == if di == 0 then g.p1 else if di < 0 then g.p1 - 1 else g.p1 + 1
    ensures g.Move(di) == if hit then (if di == 0 then g.Settle() else g, false) else (g.(p0 := t0, p1 := t1), true)
  {
  }

  lemma {:induction false} RotateIs(g: Game, hit: bool)
    requires g.Shape() && (hit <==> Collides(g.board, g.w, Rotated(g.piece), g.p0, g.p1))
    ensures g.Rotate() == if hit then (g, false) else (g.(piece := Rotated(g.piece)), true)
  {
  }

  /** What locking leaves for the collapse: rows outside the piece that are not full. */
  lemma {:induction false} SettleFacts(g: Game)
    requires g.Valid() && g.live
    ensures var b := Locked(g.board, g.w, g.piece, g.p0, g.p1);
            && 0 <= g.p0 < |g.board| && g.Settle().Shape()
            && OthersStay(b, g.p0, |g.piece|)
            && g.Settle() == g.(board := Collapsed(b, g.w), live := false, locked := g.locked + 1,
                                cleared := g.cleared + (|b| - |NonFull(b)|))
  {
    SettleKeepsValid(g);
    OnlyPieceRowsFull(g);
    AboveFloor(g);
  }

  lemma {:induction false} RotateKeepsValid(g: Game)
    requires g.Valid() && g.live
    ensures g.Rotate().0.Valid() && g.Rotate().0.live
  {
    RotationKeepsPiece(g.piece);
  }

  lemma {:induction false} NextRoundKeepsValid(g: Game, next: Grid<bool>)
    requires g.Valid() && g.Enters() && Square(next) && |Places(next, true)| == 4
    ensures g.NextRound(next).Valid()
  {
  }

  /** A piece that falls stays above the floor: the drop loop has a measure. */
  lemma {:induction false} AboveFloor(g: Game)
    requires g.Valid() && g.live
    ensures 0 <= g.p0 < |g.board|
  {
    assert Places(g.piece, true) != {};
    var q :| q in Places(g.piece, true);
    assert Covers(g.piece, g.p0, g.p1, g.p0 + q.0, g.p1 + q.1);
    assert !At(g.board, g.w, g.p0 + q.0, g.p1 + q.1);
  }

  lemma {:induction false} ValidParts(g: Game)
    requires g.Valid()
    ensures g.Shape() && |g.preview| > 0
  {
    assert Places(g.preview, true) != {};
  }

  /** Where a piece lands is settled by the board, the piece and its column. */
  lemma {:induction false} LandsOnce(g: Game, r: int, q: int)
    requires g.Shape() && g.LandsAt(r) && g.LandsAt(q)
    ensures r == q
  {
  }

  /** A move that succeeds moves every cell of the piece by one: down, to the left or to the right. */
  lemma {:induction false} MoveMovesCells(g: Game, di: int, r: int, c: int)
    requires g.Shape() && g.Move(di).1
    ensures var h := g.Move(di).0;
            && h == g.(p0 := h.p0, p1 := h.p1)
            && (di == 0 ==> (Covers(h.piece, h.p0, h.p1, r + 1, c) <==> Covers(g.piece, g.p0, g.p1, r, c)))
            && (di < 0 ==> (Covers(h.piece, h.p0, h.p1, r, c - 1) <==> Covers(g.piece, g.p0, g.p1, r, c)))
            && (di > 0 ==> (Covers(h.piece, h.p0, h.p1, r, c + 1) <==> Covers(g.piece, g.p0, g.p1, r, c)))
  {
  }

  /**
   A round on an empty board that is wide and high enough: it starts, with the preview as its piece
   at the top in the middle, and the new choice as preview.
   */
  lemma {:induction false} EntersInTheMiddle(g: Game, next: Grid<bool>)
    requires g.Shape() && g.board == EmptyRows(|g.board|, g.w) && |g.preview| <= g.w && |g.preview| <= |g.board|
    ensures g.Enters()
    ensures var h := g.NextRound(next);
            && h.piece == g.preview && h.preview == next && h.p0 == 0 && h.live
            && 0 <= (g.w - h.p1 - |h.piece|) - h.p1 <= 1
            && h.board == g.board && h.locked == g.locked && h.cleared == g.cleared
  {
    var p1 := g.StartColumn();
    forall k: int | 1 - |g.preview| <= k <= 0 ensures !Collides(g.board, g.w, g.preview, k, p1) {
      forall r, c | Covers(g.preview, k, p1, r, c) ensures !At(g.board, g.w, r, c) {
        assert r >= 0 ==> g.board[r] == EmptyRow(g.w);
      }
    }
  }

  /** The last but one and the last of the bent pieces are mirror images, and so are the two before. */
  lemma {:induction false} PiecesMirror(r: nat, c: nat)
    requires r < 3 && c < 3
    ensures PIECES[3][r][c] == PIECES[2][r][2 - c] && PIECES[5][r][c] == PIECES[4][r][2 - c]
  {
  }

  datatype Op = Left | Right | Down | Turn | Round(next: Grid<bool>)

  /** Moves need a live piece; a round starts when there is none and the piece can enter. */
  ghost predicate Enabled(g: Game, op: Op) {
    g.Valid() &&
    match op
    case Round(next) => !g.live && g.Enters() && Square(next) && |Places(next, true)| == 4
    case _ => g.live
  }

  ghost function Next(g: Game, op: Op): Game
    requires Enabled(g, op)
  {
    match op
    case Left => g.Move(-1).0
    case Right => g.Move(1).0
    case Down => g.Move(0).0
    case Turn => g.Rotate().0
    case Round(next) => g.NextRound(next)
  }

  lemma {:induction false} NextKeepsValid(g: Game, op: Op)
    requires Enabled(g, op)
    ensures Next(g, op).Valid()
  {
    hide Game.Valid, Game.Move, Game.Rotate, Game.NextRound, Game.Enters;
    match op
    case Left => MoveKeepsValid(g, -1);
    case Right => MoveKeepsValid(g, 1);
    case Down => MoveKeepsValid(g, 0);
    case Turn => RotateKeepsValid(g);
    case Round(next) => NextRoundKeepsValid(g, next);
  }

  /** One round of the main loop: the preview enters, is turned once if that fits, and falls to where it lands. */
  ghost predicate OneRound(g: Game, next: Grid<bool>, h: Game) {
    && g.Shape() && g.Enters() && Square(next) && |Places(next, true)| == 4
    && g.NextRound(next).Shape()
    && var t := g.NextRound(next).Rotate().0;
       t.Shape() && t.LandsAt(h.p0) && h == t.Landed(h.p0)
  }

  /** The state after a round is settled by the state before and the choice. */
  lemma {:induction false} RoundsOnce(g: Game, next: Grid<bool>, h: Game, k: Game)
    requires OneRound(g, next, h) && OneRound(g, next, k)
    ensures h == k
  {
    hide Game.LandsAt, Game.Landed, Game.Rotate, Game.NextRound, Game.Enters;
    LandsOnce(g.NextRound(next).Rotate().0, h.p0, k.p0);
  }

  ghost predicate Plays(g: Game, ops: seq<Op>, h: Game)
    decreases |ops|
  {
    if ops == [] then g == h else Enabled(g, ops[0]) && Plays(Next(g, ops[0]), ops[1..], h)
  }

  /** The empty board of `new_game`. */
  function NewGame(h: nat, w: nat, piece: Grid<bool>, preview: Grid<bool>): Game {
    Game(EmptyRows(h, w), w, piece, 0, 0, preview, false, 0, 0)
  }

  /**
   Every state a game can reach: the falling piece overlaps neither board nor walls and is not
   above row 0, no row is full, and filled cells are four per locked piece less a width per
   removed row.
   */
  lemma {:induction false} ReachableStates(g: Game, ops: seq<Op>, h: Game)
    requires g.Valid() && Plays(g, ops, h)
    ensures h.Valid()
    decreases |ops|
  {
    hide Game.Valid, Next;
    if ops != [] {
      NextKeepsValid(g, ops[0]);
      ReachableStates(Next(g, ops[0]), ops[1..], h);
    }
  }

  lemma {:induction false} NewGameValid(h: nat, w: nat, piece: Grid<bool>, preview: Grid<bool>)
    requires h > 0 && w > 0 && Square(piece) && Square(preview)
    requires |Places(piece, true)| == |Places(preview, true)| == 4
    ensures NewGame(h, w, piece, preview).Valid()
  {
    EmptyRowsFilled(h, w);
    assert !EmptyRow(w)[0];
  }

  // ----- the object -----

  /** `low` holds the rows of `top` that stay, in their order, under empty rows. */
  ghost predicate Sunk(top: seq<Row>, low: seq<Row>, w: nat) {
    |NonFull(top)| <= |low| && low == EmptyRows(|low| - |NonFull(top)|, w) + NonFull(top)
  }

  lemma {:induction false} AlreadySunk(top: seq<Row>, w: nat)
    requires NoneFull(top)
    ensures Sunk(top, top, w)
  {
    NonFullSame(top);
  }

  lemma {:induction false} NothingSunk(low: seq<Row>, w: nat)
    requires forall r :: 0 <= r < |low| ==> low[r] == EmptyRow(w)
    ensures Sunk([], low, w)
  {
  }

  /** A full row sinks to nothing, any other row keeps its place below those above it. */
  lemma {:induction false} SinkRow(above: seq<Row>, row: Row, low: seq<Row>, w: nat)
    requires Sunk(above, low, w)
    ensures Sunk(above + [row], if Full(row) then low else low + [row], w)
  {
    var top := above + [row];
    assert top[..|above|] == above;
    assert NonFull(top) == NonFull(above) + if Full(row) then [] else [row];
  }

  /** No row is full outside the `n` rows at `top`. */
  ghost predicate OthersStay(b: seq<Row>, top: int, n: nat) {
    forall r :: 0 <= r < |b| && (r < top || r >= top + n) ==> !Full(b[r])
  }

  /** Locking can fill only the rows the piece spans. */
  lemma {:induction false} OnlyPieceRowsFull(g: Game)
    requires g.Valid()
    ensures OthersStay(Locked(g.board, g.w, g.piece, g.p0, g.p1), g.p0, |g.piece|)
  {
    var d := Locked(g.board, g.w, g.piece, g.p0, g.p1);
    forall r | 0 <= r < |g.board| && (r < g.p0 || r >= g.p0 + |g.piece|) ensures !Full(d[r]) {
      assert !Full(g.board[r]);
      assert forall c :: 0 <= c < g.w ==> !Covers(g.piece, g.p0, g.p1, r, c);
    }
  }

  /** Collapsing the top `n` rows is collapsing the board, when no row below them is full. */
  lemma {:induction false} CollapseWhole(b: seq<Row>, d: seq<Row>, w: nat, n: nat)
    requires n <= |b| == |d| && d[n..] == b[n..] && Sunk(b[..n], d[..n], w)
    requires forall r :: n <= r < |b| ==> !Full(b[r])
    ensures d == Collapsed(b, w)
  {
    hide Full, NonFull, EmptyRows, EmptyRow;
    var top, rest, low := b[..n], b[n..], d[..n];
    assert b == top + rest && d == low + rest;
    forall r | 0 <= r < |rest| ensures !Full(rest[r]) {
      assert rest[r] == b[n + r];
    }
    NonFullAppend(top, rest);
    NonFullSame(rest);
    AppendAssoc(EmptyRows(|low| - |NonFull(top)|, w), NonFull(top), rest);
  }

  method Duplicate(m: array2<bool>) returns (d: array2<bool>)
    ensures fresh(d) && d.Length0 == m.Length0 && d.Length1 == m.Length1 && Value(d) == Value(m)
  {
    d := new bool[m.Length0, m.Length1];
    forall r, c | 0 <= r < m.Length0 && 0 <= c < m.Length1 {
      d[r, c] := m[r, c];
    }
    forall r | 0 <= r < m.Length0 ensures Value(d)[r] == Value(m)[r] {
      assert forall c :: 0 <= c < m.Length1 ==> Value(d)[r][c] == Value(m)[r][c];
    }
  }

  method Copied(g: Grid<bool>) returns (m: array2<bool>)
    requires Square(g)
    ensures fresh(m) && m.Length0 == m.Length1 == |g| && Value(m) == g
  {
    m := new bool[|g|, |g|]((r, c) => 0 <= r < |g| && 0 <= c < |g| && g[r][c]);
    forall r | 0 <= r < |g| ensures Value(m)[r] == g[r] {
      assert forall c :: 0 <= c < |g| ==> Value(m)[r][c] == g[r][c];
    }
  }

  class Main {
    var vmat: array<Row>
    var width: nat
    var p0: int
    var p1: int
    var smat: array2<bool>
    var pv: Grid<bool>
    ghost var live: bool
    ghost var locked: nat
    ghost var cleared: nat

    ghost function State(): Game
      reads this, vmat, smat
    {
      Game(vmat[..], width, Value(smat), p0, p1, pv, live, locked, cleared)
    }

    ghost predicate Shape()
      reads this, vmat, smat
    {
      smat.Length0 == smat.Length1 && State().Shape()
    }

    /** `new_game`; the first piece is whatever the choice gives. */
    constructor (h: nat, w: nat, choice: Grid<bool>)
      requires h > 0 && w > 0 && Square(choice) && |Places(choice, true)| == 4
      ensures fresh(vmat) && fresh(smat) && Shape() && State().Valid() && !live
      ensures State() == NewGame(h, w, choice, choice)
    {
      var row := EmptyRow(w);
      vmat := new Row[h](_ => row);
      width, p0, p1, pv := w, 0, 0, choice;
      live, locked, cleared := false, 0, 0;
      var m := Copied(choice);
      smat := m;
      new;
      assert vmat[..] == EmptyRows(h, w);
      assert Value(smat) == choice;
      NewGameValid(h, w, choice, choice);
    }

    /** `Array2dx::at`. */
    method AtCell(r: int, c: int) returns (x: bool)
      requires Shape()
      ensures x == At(vmat[..], width, r, c)
    {
      if c < 0 || c >= width || r >= vmat.Length {
        return true;
      }
      if r < 0 {
        return false;
      }
      return vmat[r][c];
    }

    method IsCollision(bp0: int, bp1: int, n: array2<bool>) returns (hit: bool)
      requires Shape() && n.Length0 == n.Length1
      ensures hit <==> Collides(vmat[..], width, Value(n), bp0, bp1)
    {
      var ep0, ep1 := bp0 + n.Length0, bp1 + n.Length1;
      ghost var b, m := vmat[..], Value(n);
      var r := bp0;
      while r != ep0
        invariant bp0 <= r <= ep0
        invariant forall i, j :: i < r && Covers(m, bp0, bp1, i, j) ==> !At(b, width, i, j)
      {
        var c := bp1;
        while c != ep1
          invariant bp1 <= c <= ep1
          invariant forall j :: j < c && Covers(m, bp0, bp1, r, j) ==> !At(b, width, r, j)
        {
          var filled := AtCell(r, c);
          if n[r - bp0, c - bp1] && filled {
            assert Covers(m, bp0, bp1, r, c) && At(b, width, r, c);
            return true;
          }
          c := c + 1;
        }
        r := r + 1;
      }
      return false;
    }

    /** `or_assign`: cells outside the board go to the dummy and are lost. */
    method OrAssign(bp0: int, bp1: int, n: array2<bool>)
      requires Shape() && n.Length0 == n.Length1
      modifies vmat
      ensures vmat[..] == Locked(old(vmat[..]), width, Value(n), bp0, bp1)
    {
      var ep0 := bp0 + n.Length0;
      ghost var b, m := vmat[..], Value(n);
      var r := bp0;
      while r != ep0
        invariant bp0 <= r <= ep0 && Shaped(vmat[..], width)
        invariant forall i, j :: 0 <= i < vmat.Length && 0 <= j < width ==>
          (vmat[i][j] <==> b[i][j] || (i < r && Covers(m, bp0, bp1, i, j)))
      {
        OrRow(r, bp1, n, r - bp0);
        r := r + 1;
      }
      assert forall i :: 0 <= i < vmat.Length ==> vmat[i] == Locked(b, width, m, bp0, bp1)[i];
    }

    /** One row of the piece. */
    method OrRow(r: int, bp1: int, n: array2<bool>, k: nat)
      requires Shaped(vmat[..], width) && n.Length0 == n.Length1 && k < n.Length0
      modifies vmat
      ensures Shaped(vmat[..], width)
      ensures forall i, j :: 0 <= i < vmat.Length && 0 <= j < width ==>
        (vmat[i][j] <==> old(vmat[i][j]) || (i == r && 0 <= j - bp1 < n.Length1 && n[k, j - bp1]))
    {
      var c := bp1;
      while c != bp1 + n.Length1
        invariant bp1 <= c <= bp1 + n.Length1 && Shaped(vmat[..], width)
        invariant forall i, j :: 0 <= i < vmat.Length && 0 <= j < width ==>
          (vmat[i][j] <==> old(vmat[i][j]) || (i == r && 0 <= j - bp1 < n.Length1 && j < c && n[k, j - bp1]))
      {
        if 0 <= r < vmat.Length && 0 <= c < width {
          vmat[r] := vmat[r][c := vmat[r][c] || n[k, c - bp1]];
        }
        c := c + 1;
      }
    }

    /** `clear`. */
    method Clear(r: nat)
      requires Shaped(vmat[..], width) && r < vmat.Length
      modifies vmat
      ensures Shaped(vmat[..], width)
      ensures vmat[r] == EmptyRow(width) && forall i :: 0 <= i < vmat.Length && i != r ==> vmat[i] == old(vmat[i])
    {
      vmat[r] := EmptyRow(width);
    }

    /** What `collapse` does to row `rb` itself; `k` counts the cleared rows that are then below the next one. */
    method CollapseRow(rb: nat, r0: nat, nc: nat) returns (k: nat, stop: bool)
      requires Shaped(vmat[..], width) && rb + nc < vmat.Length
      requires forall r :: rb < r <= rb + nc ==> vmat[r] == EmptyRow(width)
      requires rb < r0 ==> !Full(vmat[rb])
      modifies vmat
      ensures Shaped(vmat[..], width)
      ensures forall r :: 0 <= r < rb || rb + nc < r < vmat.Length ==> vmat[r] == old(vmat[r])
      ensures stop ==> nc == 0 && rb == r0 && !Full(old(vmat[rb])) && vmat[rb] == old(vmat[rb])
      ensures !stop ==> k == if Full(old(vmat[rb])) then nc + 1 else nc
      ensures !stop ==> forall r :: rb - 1 < r <= rb - 1 + k ==> vmat[r] == EmptyRow(width)
      ensures !stop && !Full(old(vmat[rb])) ==> vmat[rb + nc] == old(vmat[rb])
    {
      var row := vmat[rb];
      k, stop := nc, false;
      if rb >= r0 {
        if Full(row) {
          Clear(rb);
          k := k + 1;
        } else if nc > 0 {
          vmat[rb + nc] := row;
          Clear(rb);
        } else if rb == r0 && nc == 0 {
          stop := true;
        }
      } else if nc > 0 {
        vmat[rb + nc] := row;
        Clear(rb);
      }
    }

    /**
     The recursive `collapse` from row `rb` up, with `nc` cleared rows below it: the rows down
     there that stay end up at the bottom in their order, and empty rows fill the space above.
     Only rows from `r0` on can be full.
     */
    method Collapse(rb: nat, r0: nat, nc: nat)
      requires Shaped(vmat[..], width) && rb + nc < vmat.Length
      requires forall r :: rb < r <= rb + nc ==> vmat[r] == EmptyRow(width)
      requires forall r :: 0 <= r <= rb && r < r0 ==> !Full(vmat[r])
      modifies vmat
      ensures Shaped(vmat[..], width)
      ensures forall r :: rb + nc < r < vmat.Length ==> vmat[r] == old(vmat[r])
      ensures Sunk(old(vmat[..rb + 1]), vmat[..rb + nc + 1], width)
      decreases rb, 1
    {
      hide EmptyRow, EmptyRows, NonFull, Sunk, Full;
      ghost var above, row := vmat[..rb], vmat[rb];
      assert vmat[..rb + 1] == above + [row];
      var k, stop := CollapseRow(rb, r0, nc);
      if stop {
        AlreadySunk(above + [row], width);
        assert vmat[..rb + 1] == above + [row];
        return;
      }
      assert vmat[..rb] == above;
      CollapseAbove(rb, r0, k);
      SinkRow(above, row, vmat[..rb + k], width);
      if !Full(row) {
        assert vmat[..rb + nc + 1] == vmat[..rb + k] + [row];
      }
    }

    /** The recursive call of `collapse`, for the rows above `rb`. */
    method CollapseAbove(rb: nat, r0: nat, k: nat)
      requires Shaped(vmat[..], width) && rb + k <= vmat.Length
      requires forall r :: rb <= r < rb + k ==> vmat[r] == EmptyRow(width)
      requires forall r :: 0 <= r < rb && r < r0 ==> !Full(vmat[r])
      modifies vmat
      ensures Shaped(vmat[..], width)
      ensures forall r :: rb + k <= r < vmat.Length ==> vmat[r] == old(vmat[r])
      ensures Sunk(old(vmat[..rb]), vmat[..rb + k], width)
      decreases rb, 0
    {
      hide EmptyRow, EmptyRows, NonFull, Sunk, Full;
      if rb > 0 {
        Collapse(rb - 1, r0, k);
      } else {
        NothingSunk(vmat[..k], width);
      }
    }

    /** The call of `collapse` for a piece of `n` rows at `top`. */
    method CollapseAround(top: int, n: nat)
      requires Shaped(vmat[..], width) && 0 <= top < vmat.Length
      requires OthersStay(vmat[..], top, n)
      modifies vmat
      ensures Shaped(vmat[..], width) && vmat[..] == Collapsed(old(vmat[..]), width)
    {
      hide Full, NonFull, Collapsed, Sunk;
      ghost var b := vmat[..];
      var rb := if top + n < vmat.Length - 1 then top + n else vmat.Length - 1;
      var r0 := if top > 0 then top else 0;
      assert vmat[..rb + 1] == b[..rb + 1];
      Collapse(rb, r0, 0);
      assert vmat[..][rb + 1..] == b[rb + 1..];
      assert vmat[..][..rb + 1] == vmat[..rb + 1];
      CollapseWhole(b, vmat[..], width, rb + 1);
    }

    /** Locking with the collapse that follows it, over the rows the piece can have filled. */
    method LockAndCollapse()
      requires Shape() && 0 <= p0 < vmat.Length
      requires OthersStay(Locked(vmat[..], width, Value(smat), p0, p1), p0, smat.Length0)
      modifies vmat
      ensures Shaped(vmat[..], width)
      ensures vmat[..] == Collapsed(Locked(old(vmat[..]), width, Value(smat), p0, p1), width)
    {
      ShapeParts();
      hide *;
      OrAssign(p0, p1, smat);
      CollapseAround(p0, smat.Length0);
    }

    method SettlePiece()
      requires Shape() && State().Valid() && live
      modifies vmat, this`live, this`locked, this`cleared
      ensures Shape() && State() == old(State()).Settle()
    {
      hide *;
      ghost var g := State();
      ShapeParts();
      StateParts();
      SettleFacts(g);
      ghost var b := Locked(g.board, g.w, g.piece, g.p0, g.p1);
      LockAndCollapse();
      live, locked, cleared := false, locked + 1, cleared + (|b| - |NonFull(b)|);
      StateParts();
    }

    lemma {:induction false} ShapeParts()
      requires Shape()
      ensures smat.Length0 == smat.Length1 && |Value(smat)| == smat.Length0 && Square(Value(smat))
      ensures State().Shape() && Shaped(vmat[..], width)
    {
    }

    method Move(di: int) returns (ok: bool)
      requires Shape() && State().Valid() && live
      modifies vmat, this`live, this`locked, this`cleared, this`p0, this`p1
      ensures Shape() && (State(), ok) == old(State()).Move(di)
      ensures State().Valid() && (live <==> ok || di != 0)
    {
      ghost var g := State();
      MoveKeepsValid(g, di);
      hide *;
      var t0, t1 := p0, p1;
      if di == 0 {
        t0 := t0 + 1;
      } else if di < 0 {
        t1 := t1 - 1;
      } else {
        t1 := t1 + 1;
      }
      StateParts();
      var hit := IsCollision(t0, t1, smat);
      MoveIs(g, di, t0, t1, hit);
      ok := !hit;
      if hit {
        if di == 0 {
          SettlePiece();
        }
      } else {
        p0, p1 := t0, t1;
      }
      StateParts();
    }

    /** The fields, read off the state. */
    lemma {:induction false} StateParts()
      requires smat.Length0 == smat.Length1
      ensures State() == Game(vmat[..], width, Value(smat), p0, p1, pv, live, locked, cleared)
      ensures Shape() <==> State().Shape()
    {
    }

    /** The piece is turned in a copy, and the copy kept only if it fits. */
    method Rotate() returns (ok: bool)
      requires Shape() && State().Valid() && live
      modifies this`smat
      ensures Shape() && (State(), ok) == old(State()).Rotate()
      ensures State().Valid() && live && (smat == old(smat) || fresh(smat))
    {
      ghost var g := State();
      RotateKeepsValid(g);
      hide *;
      StateParts();
      var tmp := Duplicate(smat);
      Rotate90Right(tmp);
      var hit := IsCollision(p0, p1, tmp);
      RotateIs(g, hit);
      ok := !hit;
      if ok {
        smat := tmp;
      }
      StateParts();
    }

    /** The way in: from above the top down to row 0, or merged where it first meets something. */
    method Enter() returns (ok: bool)
      requires Shape() && smat.Length0 > 0
      modifies this`p0, vmat
      ensures Shape()
      ensures ok <==> FreeWay(old(vmat[..]), width, old(Value(smat)), p1)
      ensures ok ==> p0 == 0 && vmat[..] == old(vmat[..])
      ensures !ok ==> 1 - smat.Length0 <= p0 <= 0
                      && Collides(old(vmat[..]), width, old(Value(smat)), p0, p1)
                      && (forall k: int :: 1 - smat.Length0 <= k < p0 ==>
                            !Collides(old(vmat[..]), width, old(Value(smat)), k, p1))
                      && vmat[..] == Locked(old(vmat[..]), width, old(Value(smat)), p0, p1)
    {
      hide Filled, Places, Collides, NonFull, Locked, Collapsed, Full, NoneFull, Rotated;
      ghost var b, m := vmat[..], Value(smat);
      p0 := -(smat.Length0 - 1);
      while p0 <= 0
        invariant 1 - smat.Length0 <= p0 <= 0 && Shape() && vmat[..] == b
        invariant forall k: int :: 1 - smat.Length0 <= k < p0 ==> !Collides(b, width, m, k, p1)
        decreases -p0
      {
        var hit := IsCollision(p0, p1, smat);
        if hit {
          OrAssign(p0, p1, smat);
          return false;
        }
        if p0 == 0 {
          break;
        }
        p0 := p0 + 1;
      }
      return true;
    }

    /**
     `next_round`: the preview enters from above the top, and `next` is previewed. The round
     starts exactly when nothing is in the way; otherwise the game is over, with the piece merged
     where it first met something.
     */
    method NextRound(next: Grid<bool>) returns (ok: bool)
      requires Shape() && State().Valid() && !live
      requires Square(next) && |Places(next, true)| == 4
      modifies this`smat, this`pv, this`p0, this`p1, this`live, vmat
      ensures Shape() && fresh(smat) && (ok <==> old(State()).Enters())
      ensures ok ==> State() == old(State()).NextRound(next) && State().Valid()
      ensures !ok ==> !live && old(State()).EndsIn(vmat[..], p0)
    {
      hide Filled, Places, Collides, NonFull, Locked, Collapsed, Full, NoneFull, Rotated;
      hide Shaped, Square, FreeWay, Game.Valid;
      ghost var g := State();
      ValidParts(g);
      smat := Copied(pv);
      pv := next;
      var n := smat.Length0;
      p1 := if width >= n then (width - n) / 2 else -((n - width) / 2);
      ok := Enter();
      if ok {
        live := true;
        NextRoundKeepsValid(g, next);
      }
    }

    /**
     The drop loop of `main`; the rows below the piece are its measure. The piece is locked where it
     lands, in the column it had.
     */
    method Drop()
      requires Shape() && State().Valid() && live
      modifies vmat, this`live, this`locked, this`cleared, this`p0, this`p1
      ensures Shape() && State().Valid() && !live && locked == old(locked) + 1
      ensures old(State()).LandsAt(p0) && State() == old(State()).Landed(p0)
    {
      hide Collides, Filled, Places, Locked, Collapsed, Full, NoneFull;
      ghost var g := State();
      var falling := true;
      while falling
        invariant Shape() && State().Valid() && (live <==> falling) && smat == old(smat)
        invariant locked == old(locked) + if falling then 0 else 1
        invariant falling ==> State() == g.(p0 := p0) && p0 >= g.p0
        invariant falling ==> forall k: int :: g.p0 < k <= p0 ==> !Collides(g.board, g.w, g.piece, k, g.p1)
        invariant !falling ==> g.LandsAt(p0) && State() == g.Landed(p0)
        decreases if falling then vmat.Length - p0 else -1
      {
        AboveFloor(State());
        falling := Move(0);
        if falling {
          AboveFloor(State());
        }
      }
    }

    /**
     The loop of `main` over any choice of pieces: round, one rotation, drop; until the game is
     over. The states between the rounds follow each other as the rules say.
     */
    method Play(choices: seq<Grid<bool>>) returns (over: bool, rounds: nat, ghost games: seq<Game>)
      requires Shape() && State().Valid() && !live
      requires forall i :: 0 <= i < |choices| ==> Square(choices[i]) && |Places(choices[i], true)| == 4
      modifies this, vmat
      ensures Shape() && rounds <= |choices| && locked == old(locked) + rounds
      ensures |games| == rounds + 1 && games[0] == old(State())
      ensures forall i :: 0 <= i < rounds ==> OneRound(games[i], choices[i], games[i + 1])
      ensures games[rounds].Valid() && !games[rounds].live
      ensures !over ==> rounds == |choices| && State() == games[rounds]
      ensures over ==> rounds < |choices| && !games[rounds].Enters() && games[rounds].EndsIn(vmat[..], p0)
    {
      hide Filled, Places, Collides, NonFull, Locked, Collapsed, Full, NoneFull, Rotated;
      hide Game.LandsAt, Game.Landed, Game.Rotate, Game.NextRound, Game.Enters, Game.EndsIn, OneRound;
      rounds, games := 0, [State()];
      while rounds < |choices|
        invariant rounds <= |choices| && Shape() && State().Valid() && !live && vmat == old(vmat)
        invariant locked == old(locked) + rounds
        invariant |games| == rounds + 1 && games[0] == old(State()) && games[rounds] == State()
        invariant forall i :: 0 <= i < rounds ==> OneRound(games[i], choices[i], games[i + 1])
      {
        var ok := Round(choices[rounds]);
        if !ok {
          return true, rounds, games;
        }
        games := games + [State()];
        rounds := rounds + 1;
      }
      over := false;
    }

    /** The body of the loop of `main`. */
    method Round(next: Grid<bool>) returns (ok: bool)
      requires Shape() && State().Valid() && !live && Square(next) && |Places(next, true)| == 4
      modifies this, vmat
      ensures Shape() && vmat == old(vmat) && (ok <==> old(State()).Enters())
      ensures ok ==> State().Valid() && !live && locked == old(locked) + 1
                     && OneRound(old(State()), next, State())
      ensures !ok ==> locked == old(locked) && old(State()).EndsIn(vmat[..], p0)
    {
      hide Filled, Places, Collides, NonFull, Locked, Collapsed, Full, NoneFull, Rotated;
      hide Game.LandsAt, Game.Landed, Game.Rotate, Game.Enters, Game.EndsIn;
      ok := NextRound(next);
      if ok {
        var turned := Rotate();
        Drop();
      }
    }
  }
}
