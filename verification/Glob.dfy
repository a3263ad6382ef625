/**
 The meaning of a glob pattern, independent of any search order: '*' stands for an
 arbitrary (possibly empty) stretch of text, every other character for itself.
 */
module Glob {

  /** The single pattern character `c` accounts for the text from `b` up to `e`. */
  predicate Covers(c: char, t: seq<char>, b: int, e: int) {
    0 <= b <= e <= |t| && (c == '*' || (e == b + 1 && t[b] == c))
  }

  /** `p` matches exactly the stretch of `t` from position `b` up to position `e`. */
  ghost predicate Occurs(p: seq<char>, t: seq<char>, b: int, e: int)
    decreases |p|
  {
    if p == [] then 0 <= b == e <= |t|
    else exists k :: Covers(p[0], t, b, k) && Occurs(p[1..], t, k, e)
  }

  /** `p` occurs somewhere inside the window from `lo` up to `hi`. */
  ghost predicate OccursWithin(p: seq<char>, t: seq<char>, lo: int, hi: int) {
    exists b, e :: lo <= b && e <= hi && Occurs(p, t, b, e)
  }

  /** `(b, e)` is an occurrence in the window that begins no later and ends no later than any other. */
  ghost predicate IsFirst(p: seq<char>, t: seq<char>, lo: int, hi: int, b: int, e: int) {
    && lo <= b && e <= hi && Occurs(p, t, b, e)
    && forall b', e' :: lo <= b' && e' <= hi && Occurs(p, t, b', e') ==> b <= b' && e <= e'
  }

  /** The literal `l` stands in `t` at position `i`, ending no later than `hi`. */
  predicate LiteralAt(l: seq<char>, t: seq<char>, i: int, hi: int) {
    0 <= i && i + |l| <= hi <= |t| && t[i..i + |l|] == l
  }

  function Reverse<T>(s: seq<T>): (r: seq<T>)
    ensures |r| == |s|
  {
    if s == [] then [] else Reverse(s[1..]) + [s[0]]
  }

  lemma {:induction false} ReverseConcat<T>(s: seq<T>, u: seq<T>)
    ensures Reverse(s + u) == Reverse(u) + Reverse(s)
    decreases |s|
  {
    if s == [] {
      assert s + u == u;
    } else {
      assert (s + u)[1..] == s[1..] + u;
      ReverseConcat(s[1..], u);
    }
  }

  lemma {:induction false} ReverseAt<T>(s: seq<T>, k: nat)
    requires k < |s|
    ensures Reverse(s)[|s| - 1 - k] == s[k]
    decreases |s|
  {
    if k > 0 {
      ReverseAt(s[1..], k - 1);
    }
  }

  /** The window counted from the far end of a reversed sequence is the reversed window. */
  lemma {:induction false} ReverseSlice<T>(s: seq<T>, i: nat, j: nat)
    requires i <= j <= |s|
    ensures Reverse(s)[|s| - j..|s| - i] == Reverse(s[i..j])
  {
    hide Reverse;
    var a, m, c := s[..i], s[i..j], s[j..];
    assert s == (a + m) + c;
    ReverseConcat(a + m, c);
    ReverseConcat(a, m);
    MiddleSlice(Reverse(c), Reverse(m), Reverse(a), |s| - j, |s| - i);
  }

  lemma {:induction false} MiddleSlice<T>(a: seq<T>, m: seq<T>, c: seq<T>, i: nat, j: nat)
    requires i == |a| && j == |a| + |m|
    ensures (a + (m + c))[i..j] == m
  {
  }

  lemma {:induction false} OccursBounds(p: seq<char>, t: seq<char>, b: int, e: int)
    requires Occurs(p, t, b, e)
    ensures 0 <= b <= e <= |t|
    decreases |p|
  {
    if p != [] {
      var k :| Covers(p[0], t, b, k) && Occurs(p[1..], t, k, e);
      OccursBounds(p[1..], t, k, e);
    }
  }

  /** An occurrence of a concatenation splits at some position, and conversely. */
  lemma {:induction false} OccursConcat(p: seq<char>, q: seq<char>, t: seq<char>, b: int, e: int)
    ensures Occurs(p + q, t, b, e) <==> exists m :: Occurs(p, t, b, m) && Occurs(q, t, m, e)
    decreases |p|
  {
    if p == [] {
      assert p + q == q;
      if Occurs(q, t, b, e) {
        OccursBounds(q, t, b, e);
        assert Occurs(p, t, b, b);
      }
    } else {
      assert (p + q)[1..] == p[1..] + q;
      if Occurs(p + q, t, b, e) {
        var k :| Covers(p[0], t, b, k) && Occurs(p[1..] + q, t, k, e);
        OccursConcat(p[1..], q, t, k, e);
        var m :| Occurs(p[1..], t, k, m) && Occurs(q, t, m, e);
        assert Occurs(p, t, b, m);
      }
      if m :| Occurs(p, t, b, m) && Occurs(q, t, m, e) {
        var k :| Covers(p[0], t, b, k) && Occurs(p[1..], t, k, m);
        OccursConcat(p[1..], q, t, k, e);
        assert Occurs(p[1..], t, k, m);
        assert Occurs(q, t, m, e);
        assert Occurs(p[1..] + q, t, k, e);
        assert Covers((p + q)[0], t, b, k) && Occurs((p + q)[1..], t, k, e);
      }
    }
  }

  lemma {:induction false} SingletonOccurs(c: char, t: seq<char>, b: int, e: int)
    ensures Occurs([c], t, b, e) <==> Covers(c, t, b, e)
  {
    assert [c][1..] == [];
    if Covers(c, t, b, e) {
      assert Occurs([], t, e, e);
    }
  }

  lemma {:induction false} CoversReverse(c: char, t: seq<char>, b: int, e: int)
    ensures Covers(c, t, b, e) <==> Covers(c, Reverse(t), |t| - e, |t| - b)
  {
    hide Reverse;
    if 0 <= b < |t| {
      ReverseAt(t, b);
    }
  }

  /** One direction of reading pattern and text backwards. */
  lemma {:induction false} OccursReversed(p: seq<char>, t: seq<char>, b: int, e: int)
    requires Occurs(p, t, b, e)
    ensures Occurs(Reverse(p), Reverse(t), |t| - e, |t| - b)
    decreases |p|
  {
    if p != [] {
      var k :| Covers(p[0], t, b, k) && Occurs(p[1..], t, k, e);
      OccursReversed(p[1..], t, k, e);
      CoversReverse(p[0], t, b, k);
      SingletonOccurs(p[0], Reverse(t), |t| - k, |t| - b);
      OccursConcat(Reverse(p[1..]), [p[0]], Reverse(t), |t| - e, |t| - b);
    }
  }

  lemma {:induction false} ReverseTwice<T>(s: seq<T>)
    ensures Reverse(Reverse(s)) == s
    decreases |s|
  {
    if s != [] {
      ReverseConcat(Reverse(s[1..]), [s[0]]);
      ReverseTwice(s[1..]);
    }
  }

  /** Reading pattern and text backwards keeps every occurrence and adds none. */
  lemma {:induction false} OccursReverse(p: seq<char>, t: seq<char>, b: int, e: int)
    ensures Occurs(p, t, b, e) <==> Occurs(Reverse(p), Reverse(t), |t| - e, |t| - b)
  {
    if Occurs(p, t, b, e) {
      OccursReversed(p, t, b, e);
    }
    if Occurs(Reverse(p), Reverse(t), |t| - e, |t| - b) {
      OccursReversed(Reverse(p), Reverse(t), |t| - e, |t| - b);
      ReverseTwice(p);
      ReverseTwice(t);
    }
  }

  /** A star-free pattern occurs exactly where its text stands. */
  lemma {:induction false} LiteralOccurs(l: seq<char>, t: seq<char>, b: int, e: int)
    requires '*' !in l
    ensures Occurs(l, t, b, e) <==> e == b + |l| && LiteralAt(l, t, b, |t|)
    decreases |l|
  {
    if l != [] {
      LiteralOccurs(l[1..], t, b + 1, e);
      if 0 <= b && b + |l| <= |t| {
        assert t[b..b + |l|] == [t[b]] + t[b + 1..b + 1 + |l[1..]|];
        assert l == [l[0]] + l[1..];
      }
      if e == b + |l| && LiteralAt(l, t, b, |t|) {
        assert Covers(l[0], t, b, b + 1);
      }
    }
  }

  /** `p` occurs somewhere at or after `c`, ending at `e`: the meaning of a leading star. */
  ghost predicate OccursAhead(p: seq<char>, t: seq<char>, c: int, e: int) {
    exists k :: 0 <= c <= k && Occurs(p, t, k, e)
  }

  lemma {:induction false} StarOccurs(p: seq<char>, t: seq<char>, c: int, e: int)
    ensures Occurs(['*'] + p, t, c, e) <==> OccursAhead(p, t, c, e)
  {
    assert (['*'] + p)[1..] == p;
    if k :| 0 <= c <= k && Occurs(p, t, k, e) {
      OccursBounds(p, t, k, e);
      assert Covers((['*'] + p)[0], t, c, k) && Occurs((['*'] + p)[1..], t, k, e);
    }
  }

  lemma {:induction false} StarAhead(p: seq<char>, t: seq<char>, c: int, e: int)
    ensures OccursAhead(['*'] + p, t, c, e) <==> OccursAhead(p, t, c, e)
  {
    if k :| 0 <= c <= k && Occurs(['*'] + p, t, k, e) {
      StarOccurs(p, t, k, e);
    }
    if k :| 0 <= c <= k && Occurs(p, t, k, e) {
      StarOccurs(p, t, k, e);
    }
  }
}
