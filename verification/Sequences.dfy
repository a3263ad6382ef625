/** What several parts need to know about lists. */
module Sequences {

  /** All the pieces of a list, one after another. */
  function Concat<T>(parts: seq<seq<T>>): seq<T> {
    if parts == [] then [] else parts[0] + Concat(parts[1..])
  }

  lemma {:induction false} AppendAssoc<T>(a: seq<T>, b: seq<T>, c: seq<T>)
    ensures (a + b) + c == a + (b + c)
  {
  }

  lemma {:induction false} SamePrefix<T>(p: seq<T>, x: seq<T>, y: seq<T>)
    ensures p + x == p + y <==> x == y
  {
    assert x == (p + x)[|p|..] && y == (p + y)[|p|..];
  }

  /** A lossy channel marks what it lets through; here it lets everything through. */
  predicate AllKept(keep: seq<bool>) {
    forall i :: 0 <= i < |keep| ==> keep[i]
  }

  lemma {:induction false} AllKeptStep(keep: seq<bool>)
    requires keep != []
    ensures AllKept(keep) <==> keep[0] && AllKept(keep[1..])
  {
    if keep[0] && AllKept(keep[1..]) {
      forall i | 0 <= i < |keep| ensures keep[i] {
        assert i > 0 ==> keep[i] == keep[1..][i - 1];
      }
    }
  }
}
