/**
 The board of multi_array_tetris.cpp as a list of rows: collision against cells and walls,
 locking a piece, and the collapse of full rows.
 */
module Board {
  import opened Rotation

  type Row = seq<bool>

  /** A board of rows of width `w`, row 0 on top. */
  predicate Shaped(b: seq<Row>, w: nat) {
    forall r :: 0 <= r < |b| ==> |b[r]| == w
  }

  /** A cell and the virtual walls: left, right and below filled, above empty. */
  predicate At(b: seq<Row>, w: nat, r: int, c: int)
    requires Shaped(b, w)
  {
    if c < 0 || c >= w || r >= |b| then true
    else if r < 0 then false
    else b[r][c]
  }

  /** The piece `m` with its corner at `(p0, p1)` covers the cell. */
  predicate Covers(m: Grid<bool>, p0: int, p1: int, r: int, c: int)
    requires Square(m)
  {
    0 <= r - p0 < |m| && 0 <= c - p1 < |m| && m[r - p0][c - p1]
  }

  /** Some cell of the piece meets a cell or a wall. */
  ghost predicate Collides(b: seq<Row>, w: nat, m: Grid<bool>, p0: int, p1: int)
    requires Shaped(b, w) && Square(m)
  {
    exists r, c :: Covers(m, p0, p1, r, c) && At(b, w, r, c)
  }

  /** In column `p1` the piece meets nothing from above the top down to row 0. */
  ghost predicate FreeWay(b: seq<Row>, w: nat, m: Grid<bool>, p1: int)
    requires Shaped(b, w) && Square(m)
  {
    forall k: int :: 1 - |m| <= k <= 0 ==> !Collides(b, w, m, k, p1)
  }

  /** The board with the cells of the piece filled in; what lies outside is lost. */
  function Locked(b: seq<Row>, w: nat, m: Grid<bool>, p0: int, p1: int): (d: seq<Row>)
    requires Shaped(b, w) && Square(m)
    ensures |d| == |b| && Shaped(d, w)
    ensures forall r, c :: 0 <= r < |b| && 0 <= c < w ==> (d[r][c] <==> b[r][c] || Covers(m, p0, p1, r, c))
  {
    seq(|b|, r requires 0 <= r < |b| => seq(w, c requires 0 <= c < w => b[r][c] || Covers(m, p0, p1, r, c)))
  }

  predicate Full(row: Row) {
    forall c :: 0 <= c < |row| ==> row[c]
  }

  predicate NoneFull(b: seq<Row>) {
    forall r :: 0 <= r < |b| ==> !Full(b[r])
  }

  function EmptyRow(w: nat): (row: Row)
    ensures |row| == w && forall c :: 0 <= c < w ==> !row[c]
  {
    seq(w, _ => false)
  }

  function EmptyRows(k: nat, w: nat): (b: seq<Row>)
    ensures |b| == k && forall r :: 0 <= r < k ==> b[r] == EmptyRow(w)
  {
    seq(k, _ => EmptyRow(w))
  }

  /** The rows that stay, in their order. */
  function NonFull(b: seq<Row>): (d: seq<Row>)
    ensures |d| <= |b|
  {
    if b == [] then []
    else NonFull(b[..|b| - 1]) + if Full(b[|b| - 1]) then [] else [b[|b| - 1]]
  }

  /** The rows that stay, under as many empty rows as were removed. */
  function Collapsed(b: seq<Row>, w: nat): seq<Row> {
    EmptyRows(|b| - |NonFull(b)|, w) + NonFull(b)
  }

  lemma {:induction false} NonFullAppend(a: seq<Row>, b: seq<Row>)
    ensures NonFull(a + b) == NonFull(a) + NonFull(b)
    decreases |b|
  {
    if b == [] {
      assert a + b == a;
    } else {
      var n := |b| - 1;
      assert (a + b)[..|a| + n] == a + b[..n];
      NonFullAppend(a, b[..n]);
    }
  }

  lemma {:induction false} NonFullSame(b: seq<Row>)
    requires NoneFull(b)
    ensures NonFull(b) == b
    decreases |b|
  {
    hide Full;
    if b != [] {
      var n := |b| - 1;
      assert NoneFull(b[..n]);
      NonFullSame(b[..n]);
      assert b == b[..n] + [b[n]];
    }
  }

  lemma {:induction false} NonFullKeeps(b: seq<Row>, w: nat)
    requires Shaped(b, w)
    ensures NoneFull(NonFull(b)) && Shaped(NonFull(b), w)
    decreases |b|
  {
    if b != [] {
      NonFullKeeps(b[..|b| - 1], w);
    }
  }

  /** After a collapse no row is full, and the board has its shape. */
  lemma {:induction false} CollapsedIsClean(b: seq<Row>, w: nat)
    requires Shaped(b, w) && w > 0
    ensures Shaped(Collapsed(b, w), w) && NoneFull(Collapsed(b, w)) && |Collapsed(b, w)| == |b|
  {
    NonFullKeeps(b, w);
    var k := |b| - |NonFull(b)|;
    forall r | 0 <= r < |b| ensures !Full(Collapsed(b, w)[r]) && |Collapsed(b, w)[r]| == w {
      if r < k {
        assert !EmptyRow(w)[0];
      }
    }
  }

  // ----- counting cells -----

  ghost function RowCells(row: Row): set<int> {
    set c | 0 <= c < |row| && row[c]
  }

  ghost function Filled(b: seq<Row>): nat {
    if b == [] then 0 else Filled(b[..|b| - 1]) + |RowCells(b[|b| - 1])|
  }

  ghost function Cells(b: seq<Row>): set<(int, int)> {
    set r, c | 0 <= r < |b| && 0 <= c < |b[r]| && b[r][c] :: (r, c)
  }

  /** The cells of a row that stands at height `n`. */
  ghost function InRow(row: Row, n: int): set<(int, int)> {
    set c | 0 <= c < |row| && row[c] :: (n, c)
  }

  lemma {:induction false} InRowSize(row: Row, n: int)
    ensures |InRow(row, n)| == |RowCells(row)|
  {
    var f := (c: int) => (n, c);
    forall q | q in InRow(row, n) ensures exists c :: c in RowCells(row) && f(c) == q {
      assert q.1 in RowCells(row) && f(q.1) == q;
    }
    ImageSize(RowCells(row), f, InRow(row, n));
  }

  lemma {:induction false} CellsStep(b: seq<Row>, row: Row)
    ensures Cells(b + [row]) == Cells(b) + InRow(row, |b|) && Cells(b) !! InRow(row, |b|)
  {
    var d := b + [row];
    assert d[|b|] == row && forall r :: 0 <= r < |b| ==> d[r] == b[r];
  }

  /** Counting row by row is counting cells. */
  lemma {:induction false} FilledIsCells(b: seq<Row>)
    ensures Filled(b) == |Cells(b)|
    decreases |b|
  {
    hide RowCells, InRow;
    if b == [] {
      assert Cells(b) == {};
    } else {
      hide Cells;
      var n := |b| - 1;
      assert b == b[..n] + [b[n]];
      FilledIsCells(b[..n]);
      CellsStep(b[..n], b[n]);
      InRowSize(b[n], n);
    }
  }

  lemma {:induction false} FilledAppend(a: seq<Row>, b: seq<Row>)
    ensures Filled(a + b) == Filled(a) + Filled(b)
    decreases |b|
  {
    if b == [] {
      assert a + b == a;
    } else {
      var n := |b| - 1;
      assert (a + b)[..|a| + n] == a + b[..n];
      FilledAppend(a, b[..n]);
    }
  }

  lemma {:induction false} EmptyRowsFilled(k: nat, w: nat)
    ensures Filled(EmptyRows(k, w)) == 0
  {
    var b := EmptyRows(k, w);
    assert Cells(b) == {};
    FilledIsCells(b);
  }

  lemma {:induction false} FullRowSize(row: Row)
    requires Full(row)
    ensures |RowCells(row)| == |row|
    decreases |row|
  {
    if row == [] {
      assert RowCells(row) == {};
    } else {
      var n := |row| - 1;
      FullRowSize(row[..n]);
      assert RowCells(row) == RowCells(row[..n]) + {n};
    }
  }

  /** A row is full exactly when every one of its cells is filled. */
  lemma {:induction false} FullExactly(row: Row)
    ensures Full(row) <==> |RowCells(row)| == |row|
  {
    if Full(row) {
      FullRowSize(row);
    } else {
      var c :| 0 <= c < |row| && !row[c];
      RowCellsAtMost(row, c);
    }
  }

  lemma {:induction false} RowCellsAtMost(row: Row, gap: int)
    ensures |RowCells(row)| <= |row|
    ensures 0 <= gap < |row| && !row[gap] ==> |RowCells(row)| < |row|
    decreases |row|
  {
    if row == [] {
      assert RowCells(row) == {};
    } else {
      var n := |row| - 1;
      RowCellsAtMost(row[..n], gap);
      assert RowCells(row) == RowCells(row[..n]) + if row[n] then {n} else {};
    }
  }

  /** Each removed row takes a width of cells with it. */
  lemma {:induction false} NonFullFilled(b: seq<Row>, w: nat)
    requires Shaped(b, w)
    ensures Filled(b) == Filled(NonFull(b)) + w * (|b| - |NonFull(b)|)
    decreases |b|
  {
    if b != [] {
      var n := |b| - 1;
      var above, last := b[..n], b[n];
      NonFullFilled(above, w);
      FilledAppend(NonFull(above), if Full(last) then [] else [last]);
      if Full(last) {
        FullRowSize(last);
        Distribute(w, n - |NonFull(above)|);
      } else {
        assert [last][..0] == [];
        assert Filled([last]) == Filled([]) + |RowCells(last)|;
      }
    }
  }

  lemma {:induction false} Distribute(w: int, k: int)
    ensures w * (k + 1) == w * k + w
  {
  }

  lemma {:induction false} CollapsedFilled(b: seq<Row>, w: nat)
    requires Shaped(b, w)
    ensures Filled(b) == Filled(Collapsed(b, w)) + w * (|b| - |NonFull(b)|)
  {
    NonFullFilled(b, w);
    EmptyRowsFilled(|b| - |NonFull(b)|, w);
    FilledAppend(EmptyRows(|b| - |NonFull(b)|, w), NonFull(b));
  }

  /** The cells a placed piece covers. */
  ghost function Placed(m: Grid<bool>, p0: int, p1: int): set<(int, int)>
    requires Square(m)
  {
    set r, c | p0 <= r < p0 + |m| && p1 <= c < p1 + |m| && m[r - p0][c - p1] :: (r, c)
  }

  lemma {:induction false} PlacedCovers(m: Grid<bool>, p0: int, p1: int)
    requires Square(m)
    ensures forall r, c :: (r, c) in Placed(m, p0, p1) <==> Covers(m, p0, p1, r, c)
    ensures |Placed(m, p0, p1)| == |Places(m, true)|
  {
    var a, b := Places(m, true), Placed(m, p0, p1);
    var f := (q: (int, int)) => (q.0 + p0, q.1 + p1);
    forall q | q in a ensures f(q) in b {
    }
    forall q | q in b ensures exists p :: p in a && f(p) == q {
      var p := (q.0 - p0, q.1 - p1);
      assert p in a && f(p) == q;
    }
    ImageSize(a, f, b);
  }

  /** Without a collision below the top every covered cell is a free cell of the board. */
  lemma {:induction false} CoversFreeCells(b: seq<Row>, w: nat, m: Grid<bool>, p0: int, p1: int)
    requires Shaped(b, w) && Square(m) && p0 >= 0 && !Collides(b, w, m, p0, p1)
    ensures forall r, c :: Covers(m, p0, p1, r, c) ==> 0 <= r < |b| && 0 <= c < w && !b[r][c]
  {
    forall r, c | Covers(m, p0, p1, r, c) ensures 0 <= r < |b| && 0 <= c < w && !b[r][c] {
      assert !At(b, w, r, c);
    }
  }

  lemma {:induction false} LockedCells(b: seq<Row>, w: nat, m: Grid<bool>, p0: int, p1: int)
    requires Shaped(b, w) && Square(m)
    requires forall r, c :: Covers(m, p0, p1, r, c) ==> 0 <= r < |b| && 0 <= c < w && !b[r][c]
    ensures Cells(Locked(b, w, m, p0, p1)) == Cells(b) + Placed(m, p0, p1)
    ensures Cells(b) !! Placed(m, p0, p1)
  {
    PlacedCovers(m, p0, p1);
    hide Covers, Placed, Locked;
    var d := Locked(b, w, m, p0, p1);
    forall r, c ensures (r, c) in Cells(d) <==> (r, c) in Cells(b) || Covers(m, p0, p1, r, c) {
    }
  }

  /** Locking a piece that does not collide adds exactly its cells. */
  lemma {:induction false} LockedFilled(b: seq<Row>, w: nat, m: Grid<bool>, p0: int, p1: int)
    requires Shaped(b, w) && Square(m) && p0 >= 0 && !Collides(b, w, m, p0, p1)
    ensures Filled(Locked(b, w, m, p0, p1)) == Filled(b) + |Places(m, true)|
  {
    hide *;
    CoversFreeCells(b, w, m, p0, p1);
    LockedCells(b, w, m, p0, p1);
    PlacedCovers(m, p0, p1);
    FilledIsCells(b);
    FilledIsCells(Locked(b, w, m, p0, p1));
  }
}
