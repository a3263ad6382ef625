/**
 The parser and the grammar agree: every printed tree is read back with exactly its callbacks,
 and every text that is accepted is a printed tree.
 */
module JsonRoundTrip {
  import opened JsonParser
  import opened JsonGrammar

  // ----- every printed tree is accepted -----

  lemma {:induction false} FirstOfValue(v: Value)
    requires ValidValue(v)
    ensures Print(v) != "" && !IsSpace(Print(v)[0]) && Print(v)[0] != ']' && Print(v)[0] != '}'
  {
  }

  lemma {:induction false} SkipNone(t: string, at: nat)
    requires at < |t| && !IsSpace(t[at])
    ensures Skip(t, at) == at
  {
  }

  lemma {:induction false} ScalarRead(t: string, at: nat, s: Scalar, key: Key)
    requires ValidScalar(s) && At(t, at, PrintScalar(s)) && Stops(t, at + |PrintScalar(s)|)
    ensures at < |t| && Skip(t, at) == at
    ensures ParseWalk(t, at, key) == Parsed(true, at + |PrintScalar(s)|, [Set(key, s.text, TypeOf(s))])
  {
    hide ScanString, ScanNumber, ScanBoolean, ParseWalk, Skip, Stops, At;
    FirstOfScalar(s);
    AtFirst(t, at, PrintScalar(s));
    SkipNone(t, at);
    WalkScalar(t, at, key);
    match s
    case Str(q, text) =>
      assert "" + ([q] + text + [q]) == PrintScalar(s);
      StringRead(t, at, "", q, text);
    case Num(text) =>
      NumberRead(t, at, text);
    case Bool(text) =>
      BooleanRead(t, at, text);
  }

  lemma {:induction false} FirstOfScalar(s: Scalar)
    requires ValidScalar(s)
    ensures PrintScalar(s) != "" && !IsSpace(PrintScalar(s)[0]) && !IsOpen(PrintScalar(s)[0])
    ensures s.Str? ==> IsQuote(PrintScalar(s)[0])
    ensures s.Num? ==> PrintScalar(s)[0] == '+' || PrintScalar(s)[0] == '-' || IsDigit(PrintScalar(s)[0])
    ensures s.Bool? ==> PrintScalar(s)[0] in "TFtf"
  {
  }

  /** The first character decides how a scalar is read. */
  lemma {:induction false} WalkScalar(t: string, at: nat, key: Key)
    requires at < |t| && Skip(t, at) == at && !IsOpen(t[at])
    ensures IsQuote(t[at]) ==> ParseWalk(t, at, key) == SetOrFail(ScanString(t, at), key, TY_STR)
    ensures t[at] == '+' || t[at] == '-' || IsDigit(t[at]) ==>
              ParseWalk(t, at, key) == SetOrFail(ScanNumber(t, at), key, TY_INT)
    ensures t[at] in "TFtf" ==> ParseWalk(t, at, key) == SetOrFail(ScanBoolean(t, at), key, TY_BOOL)
    ensures ParseWalk(t, at, key).ok ==>
              IsQuote(t[at]) || t[at] == '+' || t[at] == '-' || IsDigit(t[at]) || t[at] in "TFtf"
  {
    hide ScanString, ScanNumber, ScanBoolean, SetOrFail;
  }

  lemma {:induction false} WalkSkips(t: string, b: nat, at: nat, key: Key)
    requires b <= |t| && Skip(t, b) == at && at < |t|
    ensures Skip(t, at) == at && ParseWalk(t, b, key) == ParseWalk(t, at, key)
  {
    SkipSpaces(t, b);
  }

  lemma {:induction false} WalkContainer(t: string, at: nat, key: Key)
    requires at < |t| && IsOpen(t[at])
    ensures Skip(t, at) == at
    ensures var a := ParseArray(t, at);
            ParseWalk(t, at, key) == Parsed(a.ok, a.pos, [New(key, at)] + a.events + if a.ok then [Fin(key)] else [])
  {
    hide ParseArray;
    var a := ParseArray(t, at);
    assert [New(key, at)] + a.events + [] == [New(key, at)] + a.events;
  }

  lemma {:induction false} EmptyContainer(t: string, s: nat)
    requires s < |t| && IsOpen(t[s]) && Skip(t, s + 1) < |t| && t[Skip(t, s + 1)] == Closing(t[s])
    ensures ParseArray(t, s) == Parsed(true, Skip(t, s + 1) + 1, [])
  {
  }

  lemma {:induction false} FullContainer(t: string, s: nat)
    requires s < |t| && IsOpen(t[s]) && Skip(t, s + 1) < |t| && t[Skip(t, s + 1)] != Closing(t[s])
    ensures ParseArray(t, s) == ParseItems(t, t[s], s, 0)
  {
    hide ParseItems;
  }

  /** The key of an item is read, and what follows it is reached. */
  lemma {:induction false} KeyRead(t: string, open: char, b: nat, n: nat, k: KeyText)
    requires IsOpen(open) && ValidKey(open, k) && At(t, b, PrintKey(k))
    ensures ParseKey(t, open, b, n) == Keyed(true, b + |PrintKey(k)|, KeyOf(k, n))
  {
    hide At, Skip, ScanString, AllSpace;
    match k
    case NoKey =>
    case KeyText(before, q, text, after) =>
      var token := [q] + text + [q];
      AtSplit(t, b, before, token + (after + ":"));
      AtSplit(t, b + |before|, token, after + ":");
      AtSplit(t, b + |before| + |token|, after, ":");
      AtSplit(t, b, before, token);
      StringRead(t, b, before, q, text);
      AtFirst(t, b + |before| + |token| + |after|, ":");
      SkipOver(t, b + |before| + |token|, after);
  }

  /** The first thing behind the opening bracket is not the closing one when there are items. */
  lemma {:induction false} ItemsBegin(t: string, open: char, b: nat, items: Items)
    requires IsOpen(open) && items.More? && ValidItems(open, items) && At(t, b, PrintItems(open, items))
    ensures Skip(t, b) < |t| && t[Skip(t, b)] != Closing(open)
  {
    hide Print, Tail, At, Skip, AllSpace;
    var More(key, before, value, after, rest) := items;
    AtSplit(t, b, PrintKey(key), before + Print(value) + (after + Tail(open, rest)));
    FirstOfValue(value);
    match key
    case NoKey =>
      AtSplit(t, b, before + Print(value), after + Tail(open, rest));
      AtSplit(t, b, before, Print(value));
      AtFirst(t, b + |before|, Print(value));
      SkipOver(t, b, before);
    case KeyText(pre, q, text, post) =>
      var token := [q] + text + [q];
      AtSplit(t, b, pre, token + (post + ":"));
      AtSplit(t, b + |pre|, token, post + ":");
      AtFirst(t, b + |pre|, token);
      SkipOver(t, b, pre);
  }

  lemma {:induction false} TailFirst(open: char, rest: Items)
    requires IsOpen(open)
    ensures Tail(open, rest) != ""
    ensures Tail(open, rest)[0] == if rest.None? then Closing(open) else ','
    ensures !IsSpace(Tail(open, rest)[0]) && !IsDigit(Tail(open, rest)[0]) && Tail(open, rest)[0] != '.'
  {
  }

  /** Behind a value come spaces and then a comma or bracket, so a number ends there. */
  lemma {:induction false} StopsBehind(t: string, e: nat, after: string, tail: string)
    requires AllSpace(after) && At(t, e, after + tail) && tail != ""
    requires !IsSpace(tail[0]) && !IsDigit(tail[0]) && tail[0] != '.'
    ensures Stops(t, e) && Skip(t, e) == e + |after| && At(t, e + |after|, tail)
  {
    AtSplit(t, e, after, tail);
    AtFirst(t, e + |after|, tail);
    SkipOver(t, e, after);
    if after != "" {
      AtFirst(t, e, after);
    }
  }

  lemma {:induction false} ValueRead(t: string, b: nat, before: string, v: Value, key: Key)
    requires AllSpace(before) && ValidValue(v) && At(t, b, before + Print(v))
    requires Stops(t, b + |before| + |Print(v)|)
    ensures var at := b + |before|;
            ParseWalk(t, b, key) == Parsed(true, at + |Print(v)|, EventsOf(v, key, at))
    decreases v, 3
  {
    hide ParseWalk, ParseArray, Print, EventsOf, PrintScalar;
    var at := b + |before|;
    AtSplit(t, b, before, Print(v));
    FirstOfValue(v);
    AtFirst(t, at, Print(v));
    SkipOver(t, b, before);
    WalkSkips(t, b, at, key);
    ValueShape(v, key, at);
    match v
    case Leaf(s) =>
      ScalarRead(t, at, s, key);
    case Box(open, gap, items) =>
      WalkContainer(t, at, key);
      ContainerRead(t, at, open, gap, items);
  }

  lemma {:induction false} ValueShape(v: Value, key: Key, at: nat)
    ensures v.Leaf? ==>
              Print(v) == PrintScalar(v.scalar)
              && EventsOf(v, key, at) == [Set(key, v.scalar.text, TypeOf(v.scalar))]
    ensures v.Box? ==> Print(v) == [v.open] + Inside(v.open, v.gap, v.items)
                       && EventsOf(v, key, at) == [New(key, at)] + ItemEvents(v.open, v.items, 0, at + 1) + [Fin(key)]
  {
  }

  /** A container is read up to just past its closing bracket, with its children's callbacks. */
  lemma {:induction false} ContainerRead(t: string, s: nat, open: char, gap: string, items: Items)
    requires IsOpen(open) && AllSpace(gap) && ValidItems(open, items)
    requires At(t, s, [open] + Inside(open, gap, items))
    ensures s < |t| && t[s] == open
    ensures ParseArray(t, s) == Parsed(true, s + 1 + |Inside(open, gap, items)|, ItemEvents(open, items, 0, s + 1))
    decreases items, 2
  {
    hide ParseArray, ParseItems, PrintItems, ItemEvents;
    var inside := Inside(open, gap, items);
    AtSplit(t, s, [open], inside);
    AtFirst(t, s, [open]);
    if items.None? {
      AtSplit(t, s + 1, gap, [Close(open)]);
      AtFirst(t, s + 1 + |gap|, [Close(open)]);
      SkipOver(t, s + 1, gap);
      EmptyContainer(t, s);
      NoItemEvents(open, s + 1);
    } else {
      ItemsBegin(t, open, s + 1, items);
      FullContainer(t, s);
      ItemsRead(t, open, s, 0, items);
    }
  }

  lemma {:induction false} NoItemEvents(open: char, at: nat)
    ensures ItemEvents(open, None, 0, at) == []
  {
  }

  /** One item of a printed list: key, value, spaces. */
  lemma {:induction false} ItemRead(t: string, open: char, beg: nat, n: nat, items: Items)
    requires beg < |t| && IsOpen(open) && items.More? && ValidItems(open, items)
    requires At(t, beg + 1, PrintItems(open, items))
    ensures var v := beg + 1 + |PrintKey(items.key)| + |items.before|;
            var c := v + |Print(items.value)| + |items.after|;
            && ParseItem(t, open, beg, n) == Parsed(true, c, EventsOf(items.value, KeyOf(items.key, n), v))
            && At(t, c, Tail(open, items.rest))
    decreases items, 0
  {
    hide *;
    var More(key, before, value, after, rest) := items;
    var b := beg + 1;
    ItemShape(t, open, beg, n, items);
    AtSplit(t, b, PrintKey(key), before + Print(value) + (after + Tail(open, rest)));
    var w := b + |PrintKey(key)|;
    AtSplit(t, w, before + Print(value), after + Tail(open, rest));
    KeyRead(t, open, b, n, key);
    TailFirst(open, rest);
    StopsBehind(t, w + |before| + |Print(value)|, after, Tail(open, rest));
    ValueRead(t, w, before, value, KeyOf(key, n));
  }

  lemma {:induction false} ItemShape(t: string, open: char, beg: nat, n: nat, items: Items)
    requires beg < |t| && items.More? && ValidItems(open, items)
    ensures ValidKey(open, items.key) && AllSpace(items.before) && ValidValue(items.value) && AllSpace(items.after)
    ensures ValidItems(open, items.rest)
    ensures PrintItems(open, items)
            == PrintKey(items.key) + (items.before + Print(items.value) + (items.after + Tail(open, items.rest)))
    ensures var k := ParseKey(t, open, beg + 1, n);
            k.ok ==> ParseItem(t, open, beg, n)
                     == var w := ParseWalk(t, k.pos, k.key); if w.ok then w.(pos := Skip(t, w.pos)) else w
  {
    hide Print, Tail, PrintKey, ParseWalk, ParseKey;
  }

  lemma {:induction false} ItemsRead(t: string, open: char, beg: nat, n: nat, items: Items)
    requires beg < |t| && IsOpen(open) && items.More? && ValidItems(open, items)
    requires At(t, beg + 1, PrintItems(open, items))
    ensures ParseItems(t, open, beg, n)
            == Parsed(true, beg + 1 + |PrintItems(open, items)|, ItemEvents(open, items, n, beg + 1))
    decreases items, 1
  {
    hide At, Skip, ParseItem, ParseItems, PrintItems, Print, Tail, EventsOf, ItemEvents, PrintKey, KeyOf, ValidItems;
    ItemShape(t, open, beg, n, items);
    ItemRead(t, open, beg, n, items);
    TailIs(open, items.rest);
    ItemsUnfold(t, open, beg, n);
    var c := beg + 1 + |PrintKey(items.key)| + |items.before| + |Print(items.value)| + |items.after|;
    AtFirst(t, c, Tail(open, items.rest));
    ItemEventsStep(open, items, n, beg + 1);
    if items.rest.More? {
      AtSplit(t, c, ",", PrintItems(open, items.rest));
      ItemsRead(t, open, c, n + 1, items.rest);
    }
  }

  lemma {:induction false} TailIs(open: char, rest: Items)
    requires IsOpen(open)
    ensures Tail(open, rest) == if rest.None? then [Closing(open)] else "," + PrintItems(open, rest)
    ensures Closing(open) != ','
  {
  }

  lemma {:induction false} ItemsUnfold(t: string, open: char, beg: nat, n: nat)
    requires beg < |t| && IsOpen(open)
    ensures var w := ParseItem(t, open, beg, n);
            w.ok && w.pos < |t| ==>
              && (t[w.pos] == ',' ==> ParseItems(t, open, beg, n) == ParseItems(t, open, w.pos, n + 1).After(w.events))
              && (t[w.pos] == Closing(open) ==> ParseItems(t, open, beg, n) == Parsed(true, w.pos + 1, w.events))
  {
    hide ParseItem;
  }

  lemma {:induction false} ItemEventsStep(open: char, items: Items, n: nat, at: nat)
    requires items.More?
    ensures var v := at + |PrintKey(items.key)| + |items.before|;
            var e := EventsOf(items.value, KeyOf(items.key, n), v);
            ItemEvents(open, items, n, at)
            == if items.rest.None? then e
               else e + ItemEvents(open, items.rest, n + 1, v + |Print(items.value)| + |items.after| + 1)
    ensures PrintItems(open, items)
            == PrintKey(items.key) + (items.before + Print(items.value) + (items.after + Tail(open, items.rest)))
  {
    hide Print, EventsOf, PrintKey, KeyOf, Tail;
    var v := at + |PrintKey(items.key)| + |items.before|;
    var e := EventsOf(items.value, KeyOf(items.key, n), v);
    assert e + [] == e;
  }

  /**
   Round trip: a container printed with any white space, anywhere in a text, is read up to just
   past its closing bracket and reports exactly the callbacks of its tree.
   */
  lemma {:induction false} RoundTrip(t: string, i: nat, pre: string, v: Value)
    requires AllSpace(pre) && v.Box? && ValidValue(v) && At(t, i, pre + Print(v))
    ensures ParseArray(t, i)
            == Parsed(true, i + |pre| + |Print(v)|, ItemEvents(v.open, v.items, 0, i + |pre| + 1))
  {
    hide ParseItems, PrintItems, ItemEvents;
    AtSplit(t, i, pre, Print(v));
    var s := i + |pre|;
    AtFirst(t, s, Print(v));
    SkipOver(t, i, pre);
    ContainerRead(t, s, v.open, v.gap, v.items);
    ArraySkips(t, i, s);
  }

  lemma {:induction false} ArraySkips(t: string, i: nat, s: nat)
    requires i <= |t| && Skip(t, i) == s && s < |t|
    ensures Skip(t, s) == s && ParseArray(t, i) == ParseArray(t, s)
  {
    hide ParseItems;
    SkipSpaces(t, i);
  }
}
