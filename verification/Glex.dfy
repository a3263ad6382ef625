/**
 The glob extractor of glex.hpp. Iterators are indices into a text `t` and a pattern `p`;
 running the search over reverse iterators is running it over the reversed sequences.
 */
module Glex {
  import opened Glob

  /** A pair of iterators that callees move in place. */
  class Range {
    var begin: nat
    var end: nat

    constructor (b: nat, e: nat)
      ensures begin == b && end == e
    {
      begin, end := b, e;
    }
  }

  /** What `Globex` left in its result range. */
  datatype Where = NoMatch | InPattern | InText

  /** The part of a pattern still to be matched; an iterator may have run one past the end. */
  ghost function Rest(p: seq<char>, b: int, e: int): seq<char>
    requires 0 <= b <= e + 1 && e <= |p|
  {
    if b <= e then p[b..e] else []
  }

  /** `std::find` on a range of characters. */
  method Find(s: seq<char>, b: nat, e: nat, c: char) returns (r: nat)
    requires b <= e <= |s|
    ensures b <= r <= e && c !in s[b..r] && (r < e ==> s[r] == c)
  {
    r := b;
    while r < e && s[r] != c
      invariant b <= r <= e && c !in s[b..r]
    {
      assert s[b..r + 1] == s[b..r] + [s[r]];
      r := r + 1;
    }
  }

  /** `std::search` for the needle `p[pb..pe]`: its first position, or `e`. */
  method Search(t: seq<char>, b: nat, e: nat, p: seq<char>, pb: nat, pe: nat) returns (r: nat)
    requires b <= e <= |t| && pb < pe <= |p|
    ensures b <= r <= e
    ensures r < e ==> LiteralAt(p[pb..pe], t, r, e)
    ensures forall i :: b <= i < r ==> !LiteralAt(p[pb..pe], t, i, e)
  {
    r := b;
    while r < e
      invariant b <= r <= e
      invariant forall i :: b <= i < r ==> !LiteralAt(p[pb..pe], t, i, e)
    {
      if r + (pe - pb) <= e && t[r..r + (pe - pb)] == p[pb..pe] {
        return;
      }
      r := r + 1;
    }
  }

  /** Any match of the literal `l` and what follows starts where the literal stands. */
  lemma {:induction false} LiteralFirst(l: seq<char>, q: seq<char>, t: seq<char>, k: int, e: int)
    requires '*' !in l && Occurs(l + q, t, k, e)
    ensures LiteralAt(l, t, k, e) && Occurs(q, t, k + |l|, e)
  {
    OccursConcat(l, q, t, k, e);
    var m :| Occurs(l, t, k, m) && Occurs(q, t, m, e);
    LiteralOccurs(l, t, k, m);
    OccursBounds(q, t, m, e);
  }

  lemma {:induction false} LiteralThen(l: seq<char>, q: seq<char>, t: seq<char>, k: int, e: int)
    requires '*' !in l && LiteralAt(l, t, k, |t|) && Occurs(q, t, k + |l|, e)
    ensures Occurs(l + q, t, k, e)
  {
    LiteralOccurs(l, t, k, k + |l|);
    OccursConcat(l, q, t, k, e);
  }

  /**
   The exchange step behind greedy matching: when `s` is the first place of the literal `l` at
   or after `c`, whatever follows `l` in some match ahead of `c` can keep its end behind `s`.
   Here `q` is what follows the literal and `r` the same without its leading star.
   */
  lemma {:induction false} GreedyKeeps(l: seq<char>, q: seq<char>, r: seq<char>, t: seq<char>, c: int,
                                       s: int, e: int, hi: int)
    requires l != [] && '*' !in l && 0 <= c <= s && e <= hi <= |t|
    requires forall i :: c <= i < s ==> !LiteralAt(l, t, i, hi)
    requires q == ['*'] + r || (q == [] && r == [])
    requires OccursAhead(l + q, t, c, e)
    ensures s < hi && OccursAhead(r, t, s + |l|, e)
  {
    var k :| c <= k && Occurs(l + q, t, k, e);
    LiteralFirst(l, q, t, k, e);
    assert LiteralAt(l, t, k, hi);
    if q != [] {
      StarOccurs(r, t, k + |l|, e);
    }
  }

  /** And it invents none: the earliest end behind the first place of the literal ends the whole. */
  lemma {:induction false} GreedyLeads(l: seq<char>, q: seq<char>, r: seq<char>, t: seq<char>, s: int, n: int, e: int)
    requires '*' !in l && LiteralAt(l, t, s, |t|) && n == s + |l|
    requires q == ['*'] + r || (q == [] && r == [])
    requires OccursAhead(r, t, n, e)
    requires forall e': int :: OccursAhead(r, t, n, e') ==> e <= e'
    ensures Occurs(l + q, t, s, e)
  {
    if q == [] {
      assert Occurs([], t, n, n);
      assert OccursAhead(r, t, n, n);
      assert Occurs(q, t, n, e);
    } else {
      StarOccurs(r, t, s + |l|, e);
    }
    LiteralThen(l, q, t, s, e);
  }

  /**
   Consumes the rest of a pattern behind a star: succeeds exactly when the rest occurs anywhere
   ahead, and then leaves `cont.begin` at the earliest end of any such occurrence.
   */
  method MatchRes(t: seq<char>, p: seq<char>, cont: Range, pat: Range) returns (ok: bool)
    requires cont != pat
    requires cont.begin <= cont.end <= |t| && pat.begin <= pat.end + 1 && pat.end <= |p|
    modifies cont, pat
    ensures cont.end == old(cont.end) && pat.end == old(pat.end)
    ensures ok <==> exists e: int ::
                      e <= cont.end && OccursAhead(old(Rest(p, pat.begin, pat.end)), t, old(cont.begin), e)
    ensures ok ==> cont.begin <= cont.end
                   && OccursAhead(old(Rest(p, pat.begin, pat.end)), t, old(cont.begin), cont.begin)
    ensures ok ==> forall e: int ::
                     OccursAhead(old(Rest(p, pat.begin, pat.end)), t, old(cont.begin), e) ==> cont.begin <= e
    decreases pat.end + 1 - pat.begin
  {
    hide Occurs, OccursAhead;
    ghost var rest, c := Rest(p, pat.begin, pat.end), cont.begin;
    if pat.begin >= pat.end {
      NothingAhead(t, c);
      assert rest == [] && OccursAhead(rest, t, c, c);
      return true;
    }
    var star := Find(p, pat.begin, pat.end, '*');
    if star == pat.begin {
      ghost var q := p[pat.begin + 1..pat.end];
      assert rest == ['*'] + q;
      forall e: int ensures OccursAhead(rest, t, c, e) <==> OccursAhead(q, t, c, e) { StarAhead(q, t, c, e); }
      pat.begin := pat.begin + 1;
      assert Rest(p, pat.begin, pat.end) == q;
      ok := MatchRes(t, p, cont, pat);
      assert ok ==> OccursAhead(rest, t, c, cont.begin);
      return;
    }
    ghost var l, r := p[pat.begin..star], Rest(p, star + 1, pat.end);
    ghost var q := if star < pat.end then ['*'] + r else [];
    assert rest == l + q;
    var s := Search(t, cont.begin, cont.end, p, pat.begin, star);
    forall e: int | OccursAhead(rest, t, c, e)
      ensures e <= cont.end ==> s < cont.end && OccursAhead(r, t, s + |l|, e)
    {
      if e <= cont.end {
        GreedyKeeps(l, q, r, t, c, s, e, cont.end);
      }
    }
    cont.begin := s;
    if cont.begin >= cont.end {
      return false;
    }
    cont.begin := cont.begin + (star - pat.begin);
    pat.begin := star + 1;
    ok := MatchRes(t, p, cont, pat);
    if ok {
      GreedyLeads(l, q, r, t, s, s + |l|, cont.begin);
      FoundAhead(rest, t, c, s, cont.begin);
    }
  }

  lemma {:induction false} NothingAhead(t: seq<char>, c: int)
    requires 0 <= c <= |t|
    ensures OccursAhead([], t, c, c) && forall e: int :: OccursAhead([], t, c, e) ==> c <= e
  {
    assert Occurs([], t, c, c);
  }

  lemma {:induction false} FoundAhead(p: seq<char>, t: seq<char>, c: int, s: int, e: int)
    requires 0 <= c <= s && Occurs(p, t, s, e)
    ensures OccursAhead(p, t, c, e)
  {
  }

  /** A star-free pattern: the first place of its text is its first occurrence. */
  lemma {:induction false} LiteralSearch(l: seq<char>, t: seq<char>, c: int, s: int, hi: int)
    requires l != [] && '*' !in l && 0 <= c <= s <= hi <= |t|
    requires forall i :: c <= i < s ==> !LiteralAt(l, t, i, hi)
    requires s < hi ==> LiteralAt(l, t, s, hi)
    ensures OccursWithin(l, t, c, hi) <==> s < hi
    ensures s < hi ==> IsFirst(l, t, c, hi, s, s + |l|)
  {
    forall b, e | c <= b && e <= hi && Occurs(l, t, b, e)
      ensures s <= b < hi && s + |l| <= e
    {
      LiteralOccurs(l, t, b, e);
      assert LiteralAt(l, t, b, hi);
    }
    if s < hi {
      LiteralOccurs(l, t, s, s + |l|);
    }
  }

  /** Every occurrence of literal, star, rest begins no earlier than the literal's first place. */
  lemma {:induction false} StarSearch(l: seq<char>, r: seq<char>, t: seq<char>, c: int, s: int, n: int, hi: int)
    requires '*' !in l && 0 <= c <= s <= hi <= |t| && (l == [] ==> s == c) && n == s + |l|
    requires forall i :: c <= i < s ==> !LiteralAt(l, t, i, hi)
    ensures forall b, e :: c <= b && e <= hi && Occurs(l + (['*'] + r), t, b, e)
              ==> s <= b && OccursAhead(r, t, n, e) && (l != [] ==> s < hi)
  {
    forall b, e | c <= b && e <= hi && Occurs(l + (['*'] + r), t, b, e)
      ensures s <= b && OccursAhead(r, t, n, e) && (l != [] ==> s < hi)
    {
      LiteralFirst(l, ['*'] + r, t, b, e);
      OccursBounds(['*'] + r, t, b + |l|, e);
      assert LiteralAt(l, t, b, hi);
      StarOccurs(r, t, b + |l|, e);
    }
  }

  /** With the earliest end `e` of the rest, the occurrence found is the first one. */
  lemma {:induction false} StarSearchFound(l: seq<char>, r: seq<char>, t: seq<char>, c: int, s: int, n: int,
                                           e: int, hi: int)
    requires '*' !in l && 0 <= c <= s <= hi <= |t| && (l == [] ==> s == c) && n == s + |l|
    requires forall i :: c <= i < s ==> !LiteralAt(l, t, i, hi)
    requires LiteralAt(l, t, s, hi) && e <= hi && OccursAhead(r, t, n, e)
    requires forall e': int :: OccursAhead(r, t, n, e') ==> e <= e'
    ensures IsFirst(l + (['*'] + r), t, c, hi, s, e)
  {
    StarSearch(l, r, t, c, s, n, hi);
    StarOccurs(r, t, n, e);
    LiteralThen(l, ['*'] + r, t, s, e);
  }

  /**
   Searches a whole pattern: succeeds exactly when the pattern occurs in the window, and then
   returns the occurrence that begins leftmost and ends earliest of all.
   */
  method PSearch(t: seq<char>, p: seq<char>, ret: Range, pat: Range, cont: Range) returns (found: bool)
    requires pat.begin < pat.end <= |p| && cont.begin <= cont.end <= |t|
    requires ret != pat && ret != cont
    modifies ret
    ensures found <==> OccursWithin(p[pat.begin..pat.end], t, cont.begin, cont.end)
    ensures found ==> IsFirst(p[pat.begin..pat.end], t, cont.begin, cont.end, ret.begin, ret.end)
  {
    hide Occurs, OccursAhead;
    ghost var whole, c, hi := p[pat.begin..pat.end], cont.begin, cont.end;
    var pt := new Range(pat.begin, pat.end);
    var ct := new Range(cont.begin, cont.end);
    var contbeg := ct.begin;
    var star := pt.begin;
    ghost var l := [];
    if p[star] != '*' {
      star := Find(p, pt.begin, pt.end, '*');
      l := p[pt.begin..star];
      if star >= pt.end {
        ct.begin := Search(t, ct.begin, ct.end, p, pt.begin, pt.end);
        LiteralSearch(whole, t, c, ct.begin, hi);
        if ct.begin >= ct.end {
          return false;
        }
        ret.begin := ct.begin;
        ret.end := ct.begin + (pt.end - pt.begin);
        return true;
      }
      contbeg := Search(t, ct.begin, ct.end, p, pt.begin, star);
      if contbeg >= ct.end {
        StarSearch(l, p[star + 1..pt.end], t, c, contbeg, contbeg + |l|, hi);
        assert whole == l + (['*'] + p[star + 1..pt.end]);
        return false;
      }
      ct.begin := contbeg + (star - pt.begin);
    }
    ghost var r, n := p[star + 1..pt.end], ct.begin;
    assert whole == l + (['*'] + r);
    pt.begin := star + 1;
    assert Rest(p, pt.begin, pt.end) == r;
    found := MatchRes(t, p, ct, pt);
    if !found {
      StarSearch(l, r, t, c, contbeg, n, hi);
      return false;
    }
    StarSearchFound(l, r, t, c, contbeg, n, ct.begin, hi);
    ret.begin := contbeg;
    ret.end := ct.begin;
  }

  /** `x` is the greatest end of any occurrence of `p` in the window. */
  ghost predicate IsLastEnd(p: seq<char>, t: seq<char>, lo: int, hi: int, x: int) {
    && (exists b :: lo <= b && x <= hi && Occurs(p, t, b, x))
    && forall b, e :: lo <= b && e <= hi && Occurs(p, t, b, e) ==> e <= x
  }

  /** Some occurrence of `start` is followed, without overlap, by one of `stop`. */
  ghost predicate StartThenStop(start: seq<char>, stop: seq<char>, t: seq<char>, lo: int, hi: int) {
    exists b, e, b', e' :: lo <= b && e <= b' && e' <= hi && Occurs(start, t, b, e) && Occurs(stop, t, b', e')
  }

  /** `y` is the leftmost begin of an occurrence of `stop` that has an occurrence of `start` before it. */
  ghost predicate IsFirstStop(start: seq<char>, stop: seq<char>, t: seq<char>, lo: int, hi: int, y: int) {
    && (exists b, e, e' :: lo <= b && e <= y && e' <= hi && Occurs(start, t, b, e) && Occurs(stop, t, y, e'))
    && forall b, e, b', e' :: lo <= b && e <= b' && e' <= hi && Occurs(start, t, b, e) && Occurs(stop, t, b', e')
         ==> y <= b'
  }

  /** `rp` over `rt` is `p` over `t`, read backwards. */
  ghost predicate Mirrored(p: seq<char>, t: seq<char>, rp: seq<char>, rt: seq<char>) {
    |rt| == |t| && forall b, e :: Occurs(p, t, b, e) <==> Occurs(rp, rt, |t| - e, |t| - b)
  }

  lemma {:induction false} ReverseMirrors(p: seq<char>, t: seq<char>)
    ensures Mirrored(p, t, Reverse(p), Reverse(t))
  {
    forall b, e ensures Occurs(p, t, b, e) <==> Occurs(Reverse(p), Reverse(t), |t| - e, |t| - b) {
      OccursReverse(p, t, b, e);
    }
  }

  /** Backwards, the first occurrence begins where the last one ends. */
  lemma {:induction false} LastEndFromReverse(p: seq<char>, t: seq<char>, rp: seq<char>, rt: seq<char>,
                           lo: int, hi: int, b: int, e: int)
    requires Mirrored(p, t, rp, rt)
    requires IsFirst(rp, rt, |t| - hi, |t| - lo, b, e)
    ensures IsLastEnd(p, t, lo, hi, |t| - b)
  {
    var n := |t|;
    assert Occurs(p, t, n - e, n - b) by { assert n - (n - b) == b && n - (n - e) == e; }
    forall b', e' | lo <= b' && e' <= hi && Occurs(p, t, b', e')
      ensures e' <= n - b
    {
      assert Occurs(rp, rt, n - e', n - b');
    }
  }

  /** What occurs in a window occurs in the reversed window: the reverse search cannot fail. */
  lemma {:induction false} ReverseSearchFinds(p: seq<char>, t: seq<char>, rp: seq<char>, rt: seq<char>,
                           lo: int, hi: int, b: int, e: int)
    requires Mirrored(p, t, rp, rt)
    requires lo <= b && e <= hi && Occurs(p, t, b, e)
    ensures OccursWithin(rp, rt, |t| - hi, |t| - lo)
  {
    assert Occurs(rp, rt, |t| - e, |t| - b);
  }

  /** Searching `stop` behind the first occurrence of `start` misses no start-then-stop pair. */
  lemma {:induction false} FirstStartSuffices(start: seq<char>, stop: seq<char>, t: seq<char>, lo: int,
                                              hi: int, b0: int, e0: int)
    requires IsFirst(start, t, lo, hi, b0, e0)
    ensures StartThenStop(start, stop, t, lo, hi) <==> OccursWithin(stop, t, e0, hi)
    ensures forall y, e' :: IsFirst(stop, t, e0, hi, y, e') ==> IsFirstStop(start, stop, t, lo, hi, y)
  {
    forall b, e, b', e' | lo <= b && e <= b' && e' <= hi && Occurs(start, t, b, e) && Occurs(stop, t, b', e')
      ensures e0 <= b'
    {
      OccursBounds(stop, t, b', e');
      assert e <= hi;
    }
    if OccursWithin(stop, t, e0, hi) {
      var b', e' :| e0 <= b' && e' <= hi && Occurs(stop, t, b', e');
      assert lo <= b0 && e0 <= b' && Occurs(start, t, b0, e0);
    }
  }

  lemma {:induction false} EmptyFirst(t: seq<char>, lo: int, hi: int)
    requires 0 <= lo <= hi <= |t|
    ensures IsFirst([], t, lo, hi, lo, lo)
  {
    assert Occurs([], t, lo, lo);
  }

  /** What the extraction between two patterns promises, in terms of occurrences only. */
  ghost predicate Extracts(start: seq<char>, stop: seq<char>, t: seq<char>, lo: int, hi: int, w: Where, x: int, y: int)
  {
    && (w == InText <==> StartThenStop(start, stop, t, lo, hi))
    && (w == InText ==>
          && (if stop == [] then y == hi else IsFirstStop(start, stop, t, lo, hi, y))
          && (if start == [] then x == lo else IsLastEnd(start, t, lo, y, x))
          && lo <= x <= y <= hi)
  }

  lemma {:induction false} NoStart(start: seq<char>, stop: seq<char>, t: seq<char>, lo: int, hi: int)
    requires !OccursWithin(start, t, lo, hi)
    ensures !StartThenStop(start, stop, t, lo, hi)
  {
    if b, e, b', e' :| lo <= b && e <= b' && e' <= hi && Occurs(start, t, b, e) && Occurs(stop, t, b', e') {
      OccursBounds(stop, t, b', e');
    }
  }

  /** The stop part found behind the first start match, and the last start end before it, are the extraction. */
  lemma {:induction false} ExtractsBetween(start: seq<char>, stop: seq<char>, t: seq<char>, lo: int, hi: int,
                        b0: int, e0: int, x: int, y: int, z: int)
    requires IsFirst(start, t, lo, hi, b0, e0) && e0 <= y <= hi <= |t|
    requires if stop == [] then y == hi else IsFirst(stop, t, e0, hi, y, z)
    requires if start == [] then x == lo == e0 else IsLastEnd(start, t, b0, y, x)
    ensures Extracts(start, stop, t, lo, hi, InText, x, y)
  {
    FirstStartSuffices(start, stop, t, lo, hi, b0, e0);
    OccursBounds(start, t, b0, e0);
    if stop == [] {
      assert Occurs(stop, t, hi, hi);
      assert OccursWithin(stop, t, e0, hi);
    }
    assert IsFirst(stop, t, e0, hi, y, z) ==> OccursWithin(stop, t, e0, hi);
    if start != [] {
      var b :| b0 <= b && x <= y && Occurs(start, t, b, x);
      OccursBounds(start, t, b, x);
    }
  }

  /**
   The whole extraction. Without a '$' the result is the pattern itself. Otherwise it succeeds
   exactly when some match of the part before '$' is followed by one of the part behind it. The
   result then ends at the leftmost such stop match, and begins at the greatest end of any start
   match before it, so it is the innermost one.
   */
  method Globex(t: seq<char>, p: seq<char>, ret: Range, pat: Range, cont: Range) returns (w: Where)
    requires pat.begin <= pat.end <= |p| && cont.begin <= cont.end <= |t|
    requires ret != pat && ret != cont
    modifies ret
    ensures w == InPattern <==> '$' !in p[pat.begin..pat.end]
    ensures w == InPattern ==> ret.begin == pat.begin && ret.end == pat.end
    ensures w != InPattern ==> exists d ::
      && pat.begin <= d < pat.end && p[d] == '$' && '$' !in p[pat.begin..d]
      && Extracts(p[pat.begin..d], p[d + 1..pat.end], t, cont.begin, cont.end, w, ret.begin, ret.end)
  {
    var d := Find(p, pat.begin, pat.end, '$');
    if d >= pat.end {
      ret.begin, ret.end := pat.begin, pat.end;
      return InPattern;
    }
    assert p[pat.begin..pat.end][d - pat.begin] == '$';
    var starts := new Range(pat.begin, d);
    var stops := new Range(d + 1, pat.end);
    w := GlobexAt(t, p, ret, starts, stops, cont);
  }

  /** The part of `Globex` behind the test for '$'. */
  method GlobexAt(t: seq<char>, p: seq<char>, ret: Range, starts: Range, stops: Range, cont: Range)
    returns (w: Where)
    requires starts.begin <= starts.end <= |p| && stops.begin <= stops.end <= |p|
    requires cont.begin <= cont.end <= |t|
    requires ret != starts && ret != stops && ret != cont
    modifies ret
    ensures w != InPattern
    ensures Extracts(p[starts.begin..starts.end], p[stops.begin..stops.end], t, cont.begin, cont.end,
                     w, ret.begin, ret.end)
  {
    ghost var start, stop := p[starts.begin..starts.end], p[stops.begin..stops.end];
    ghost var lo, hi := cont.begin, cont.end;
    var res0 := new Range(0, 0);
    var res1 := new Range(0, 0);
    if starts.begin == starts.end {
      res0.begin, res0.end := cont.begin, cont.begin;
      EmptyFirst(t, lo, hi);
    } else {
      var found := PSearch(t, p, res0, starts, cont);
      if !found {
        NoStart(start, stop, t, lo, hi);
        return NoMatch;
      }
    }
    OccursBounds(start, t, res0.begin, res0.end);
    var rng := new Range(res0.end, cont.end);
    if stops.begin == stops.end {
      res1.begin, res1.end := rng.end, rng.end;
    } else {
      var found := PSearch(t, p, res1, stops, rng);
      if !found {
        FirstStartSuffices(start, stop, t, lo, hi, res0.begin, res0.end);
        return NoMatch;
      }
      OccursBounds(stop, t, res1.begin, res1.end);
    }
    if starts.begin == starts.end {
      ret.begin, ret.end := res0.end, res1.begin;
    } else {
      var x := LastEnd(t, p, starts, res0, res1.begin);
      ret.begin, ret.end := x, res1.begin;
    }
    ExtractsBetween(start, stop, t, lo, hi, res0.begin, res0.end, ret.begin, ret.end, res1.end);
    return InText;
  }

  /**
   The search over reverse iterators from the stop match back to the first start match. It
   always succeeds, so the `assert(0)` of the source is never reached.
   */
  method LastEnd(t: seq<char>, p: seq<char>, starts: Range, res0: Range, y: nat) returns (x: nat)
    requires starts.begin < starts.end <= |p| && res0.begin <= res0.end <= y <= |t|
    requires Occurs(p[starts.begin..starts.end], t, res0.begin, res0.end)
    ensures IsLastEnd(p[starts.begin..starts.end], t, res0.begin, y, x)
  {
    ghost var start := p[starts.begin..starts.end];
    var rt, rp := Reverse(t), Reverse(p);
    var rrng := new Range(|t| - y, |t| - res0.begin);
    var rs := new Range(|p| - starts.end, |p| - starts.begin);
    var rres0 := new Range(0, 0);
    ghost var rstart := rp[rs.begin..rs.end];
    ReverseSlice(p, starts.begin, starts.end);
    ReverseMirrors(start, t);
    ReverseSearchFinds(start, t, rstart, rt, res0.begin, y, res0.begin, res0.end);
    var found := PSearch(rt, rp, rres0, rs, rrng);
    if !found {
      assert false;
    }
    OccursBounds(rstart, rt, rres0.begin, rres0.end);
    LastEndFromReverse(start, t, rstart, rt, res0.begin, y, rres0.begin, rres0.end);
    x := |t| - rres0.begin;
  }

  /** Start then stop is one glob: the pattern with its '$' read as a star. */
  lemma {:induction false} DollarIsStar(start: seq<char>, stop: seq<char>, t: seq<char>, lo: int, hi: int)
    ensures StartThenStop(start, stop, t, lo, hi) <==> OccursWithin(start + (['*'] + stop), t, lo, hi)
  {
    if b, e, b', e' :| lo <= b && e <= b' && e' <= hi && Occurs(start, t, b, e) && Occurs(stop, t, b', e') {
      OccursBounds(start, t, b, e);
      StarOccurs(stop, t, e, e');
      OccursConcat(start, ['*'] + stop, t, b, e');
    }
    if b, e' :| lo <= b && e' <= hi && Occurs(start + (['*'] + stop), t, b, e') {
      OccursConcat(start, ['*'] + stop, t, b, e');
      var e :| Occurs(start, t, b, e) && Occurs(['*'] + stop, t, e, e');
      StarOccurs(stop, t, e, e');
    }
  }

  /** A start part that ends in a star reaches up to the stop match: nothing is ever extracted. */
  lemma {:induction false} TrailingStarExtractsNothing(start: seq<char>, stop: seq<char>, t: seq<char>,
                                                       lo: int, hi: int, x: int, y: int)
    requires start != [] && start[|start| - 1] == '*' && hi <= |t|
    requires Extracts(start, stop, t, lo, hi, InText, x, y)
    ensures x == y
  {
    var q := start[..|start| - 1];
    assert start == q + ['*'];
    var b :| lo <= b && x <= y && Occurs(start, t, b, x);
    OccursConcat(q, ['*'], t, b, x);
    var m :| Occurs(q, t, b, m) && Occurs(['*'], t, m, x);
    SingletonOccurs('*', t, m, x);
    if stop != [] {
      var b1, e1, e' :| lo <= b1 && e1 <= y && e' <= hi && Occurs(start, t, b1, e1) && Occurs(stop, t, y, e');
      OccursBounds(stop, t, y, e');
      SingletonOccurs('*', t, m, y);
      OccursConcat(q, ['*'], t, b, y);
    } else {
      SingletonOccurs('*', t, m, y);
      OccursConcat(q, ['*'], t, b, y);
    }
  }
}
