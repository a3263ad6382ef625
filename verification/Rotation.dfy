/** The in-place rotation of multi_array_tetris.cpp, ring by ring. */
module Rotation {

  /** The square view of side `s` whose corner lies at `(o, o)`. */
  predicate InView(r: int, c: int, o: int, s: int) {
    o <= r < o + s && o <= c < o + s
  }

  /** The places of the outer ring that `i` rounds of swaps have filled. */
  predicate Turned(r: int, c: int, s: int, i: int) {
    || (r == 0 && 0 <= c < i)
    || (c == s - 1 && 0 <= r < i)
    || (r == s - 1 && s - 1 - i < c <= s - 1)
    || (c == 0 && s - 1 - i < r <= s - 1)
  }

  method Swap<T>(m: array2<T>, r: nat, c: nat, r': nat, c': nat)
    requires r < m.Length0 && r' < m.Length0 && c < m.Length1 && c' < m.Length1
    modifies m
    ensures m[r, c] == old(m[r', c']) && m[r', c'] == old(m[r, c])
    ensures forall i, j :: 0 <= i < m.Length0 && 0 <= j < m.Length1 && (i, j) != (r, c) && (i, j) != (r', c')
              ==> m[i, j] == old(m[i, j])
  {
    m[r, c], m[r', c'] := m[r', c'], m[r, c];
  }

  /** Three swaps through the first corner turn four places of the ring, here counted from `(o, o)`. */
  method TurnFour<T>(m: array2<T>, o: nat, s: nat, i: nat)
    requires o + s <= m.Length0 && o + s <= m.Length1 && i + 1 < s
    modifies m
    ensures m[o, o + i] == old(m[o + s - 1 - i, o])
    ensures m[o + i, o + s - 1] == old(m[o, o + i])
    ensures m[o + s - 1, o + s - 1 - i] == old(m[o + i, o + s - 1])
    ensures m[o + s - 1 - i, o] == old(m[o + s - 1, o + s - 1 - i])
    ensures forall r, c :: 0 <= r < m.Length0 && 0 <= c < m.Length1
              && (r, c) != (o, o + i) && (r, c) != (o + i, o + s - 1)
              && (r, c) != (o + s - 1, o + s - 1 - i) && (r, c) != (o + s - 1 - i, o)
              ==> m[r, c] == old(m[r, c])
  {
    Swap(m, o, o + i, o + i, o + s - 1);
    Swap(m, o, o + i, o + s - 1, o + s - 1 - i);
    Swap(m, o, o + i, o + s - 1 - i, o);
  }

  /** One ring of the view. */
  method TurnRing<T>(m: array2<T>, o: nat, s: nat)
    requires o + s <= m.Length0 && o + s <= m.Length1 && s >= 2
    modifies m
    ensures forall r, c :: 0 <= r < m.Length0 && 0 <= c < m.Length1 ==>
              m[r, c] == if Turned(r - o, c - o, s, s - 1) then old(m[o + s - 1 - (c - o), o + (r - o)])
                         else old(m[r, c])
  {
    var i := 0;
    while i != s - 1
      invariant 0 <= i <= s - 1
      invariant forall r, c :: 0 <= r < m.Length0 && 0 <= c < m.Length1 ==>
        m[r, c] == if Turned(r - o, c - o, s, i) then old(m[o + s - 1 - (c - o), o + (r - o)]) else old(m[r, c])
    {
      TurnFour(m, o, s, i);
      i := i + 1;
    }
  }

  /** `rotate90_right` on a view: an exact clockwise rotation inside, nothing outside. */
  method RotateView<T>(m: array2<T>, o: nat, s: nat)
    requires o + s <= m.Length0 && o + s <= m.Length1
    modifies m
    ensures forall r, c :: 0 <= r < m.Length0 && 0 <= c < m.Length1 ==>
              m[r, c] == if InView(r, c, o, s) then old(m[o + s - 1 - (c - o), o + (r - o)]) else old(m[r, c])
    decreases s
  {
    if s <= 1 {
      return;
    }
    TurnRing(m, o, s);
    if s == 2 {
      return;
    }
    RotateView(m, o + 1, s - 2);
  }

  // ----- the rotation as a value -----

  type Grid<T> = seq<seq<T>>

  predicate Square<T>(g: Grid<T>) {
    forall r :: 0 <= r < |g| ==> |g[r]| == |g|
  }

  function Rotated<T>(g: Grid<T>): (h: Grid<T>)
    requires Square(g)
    ensures |h| == |g| && Square(h)
  {
    seq(|g|, r requires 0 <= r < |g| => seq(|g|, c requires 0 <= c < |g| => g[|g| - 1 - c][r]))
  }

  ghost function Value<T>(m: array2<T>): (g: Grid<T>)
    reads m
    ensures |g| == m.Length0 && forall r :: 0 <= r < |g| ==> |g[r]| == m.Length1
    ensures forall r, c :: 0 <= r < m.Length0 && 0 <= c < m.Length1 ==> g[r][c] == m[r, c]
  {
    seq(m.Length0, r requires 0 <= r < m.Length0 reads m =>
      seq(m.Length1, c requires 0 <= c < m.Length1 reads m => m[r, c]))
  }

  method Rotate90Right<T>(m: array2<T>)
    requires m.Length0 == m.Length1
    modifies m
    ensures Value(m) == Rotated(old(Value(m)))
  {
    ghost var g := Value(m);
    RotateView(m, 0, m.Length0);
    forall r | 0 <= r < |g| ensures Value(m)[r] == Rotated(g)[r] {
      forall c | 0 <= c < |g| ensures Value(m)[r][c] == Rotated(g)[r][c] {
        assert m[r, c] == g[|g| - 1 - c][r];
      }
    }
  }

  /** Clockwise: what was in row `i`, column `j` goes to row `j`, column `n - 1 - i`. */
  lemma {:induction false} RotatedMoves<T>(g: Grid<T>, i: nat, j: nat)
    requires Square(g) && i < |g| && j < |g|
    ensures Rotated(g)[j][|g| - 1 - i] == g[i][j]
  {
  }

  lemma {:induction false} FourTurnsAreNone<T>(g: Grid<T>)
    requires Square(g)
    ensures Rotated(Rotated(Rotated(Rotated(g)))) == g
  {
    var n, h := |g|, Rotated(Rotated(g));
    forall r, c | 0 <= r < n && 0 <= c < n ensures h[r][c] == g[n - 1 - r][n - 1 - c] {
      assert h[r][c] == Rotated(g)[n - 1 - c][r];
    }
    var k := Rotated(Rotated(h));
    forall r | 0 <= r < n ensures k[r] == g[r] {
      forall c | 0 <= c < n ensures k[r][c] == g[r][c] {
        assert k[r][c] == Rotated(h)[n - 1 - c][r] == h[n - 1 - r][n - 1 - c];
      }
    }
  }

  /** The places of a value in a square grid. */
  ghost function Places<T>(g: Grid<T>, v: T): set<(int, int)>
    requires Square(g)
  {
    set r, c | 0 <= r < |g| && 0 <= c < |g| && g[r][c] == v :: (r, c)
  }

  /** An injective image has as many elements. */
  lemma {:induction false} ImageSize<A(!new), B>(a: set<A>, f: A -> B, b: set<B>)
    requires forall x, y :: x in a && y in a && f(x) == f(y) ==> x == y
    requires forall x :: x in a ==> f(x) in b
    requires forall y :: y in b ==> exists x :: x in a && f(x) == y
    ensures |b| == |a|
    decreases |a|
  {
    if a == {} {
      assert b == {};
    } else {
      var x :| x in a;
      ImageSize(a - {x}, f, b - {f(x)});
    }
  }

  /** Rotation only moves cells: every value occurs as often as before. */
  lemma {:induction false} RotationPermutes<T>(g: Grid<T>, v: T)
    requires Square(g)
    ensures |Places(Rotated(g), v)| == |Places(g, v)|
  {
    var n, a, b := |g|, Places(g, v), Places(Rotated(g), v);
    var f := (p: (int, int)) => (p.1, n - 1 - p.0);
    forall p | p in a ensures f(p) in b {
      RotatedMoves(g, p.0, p.1);
    }
    forall q | q in b ensures exists p :: p in a && f(p) == q {
      var p := (n - 1 - q.1, q.0);
      RotatedMoves(g, p.0, p.1);
      assert p in a && f(p) == q;
    }
    ImageSize(a, f, b);
  }
}
