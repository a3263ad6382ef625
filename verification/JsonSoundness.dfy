/** Every text the parser accepts is a printed tree, with the callbacks of that tree. */
module JsonSoundness {
  import opened JsonParser
  import opened JsonGrammar
  import opened JsonRoundTrip

  lemma {:induction false} SkippedThen(t: string, b: nat, s: string)
    requires b <= |t| && At(t, Skip(t, b), s)
    ensures AllSpace(t[b..Skip(t, b)]) && At(t, b, t[b..Skip(t, b)] + s)
  {
    SkipSpaces(t, b);
    AtSplit(t, b, t[b..Skip(t, b)], s);
  }

  lemma {:induction false} KeySound(t: string, open: char, b: nat, n: nat) returns (k: KeyText)
    requires b <= |t| && IsOpen(open) && ParseKey(t, open, b, n).ok
    ensures ValidKey(open, k) && At(t, b, PrintKey(k))
    ensures ParseKey(t, open, b, n) == Keyed(true, b + |PrintKey(k)|, KeyOf(k, n))
  {
    if open == '[' {
      return NoKey;
    }
    var r := ScanString(t, b);
    var s := Skip(t, b);
    StringParsed(t, b);
    var c := Skip(t, r.pos);
    hide Skip, ScanString, FindChar;
    var token := [t[s]] + r.text + [t[s]];
    k := KeyText(t[b..s], t[s], r.text, t[r.pos..c]);
    assert t[c..c + 1] == ":" && At(t, c, ":");
    SkippedThen(t, r.pos, ":");
    hide At;
    AtSplit(t, s, token, k.after + ":");
    SkippedThen(t, b, token + (k.after + ":"));
  }

  lemma {:induction false} ScalarSound(t: string, at: nat, key: Key) returns (s: Scalar)
    requires at < |t| && Skip(t, at) == at && !IsOpen(t[at]) && ParseWalk(t, at, key).ok
    ensures ValidScalar(s) && At(t, at, PrintScalar(s))
    ensures ParseWalk(t, at, key) == Parsed(true, at + |PrintScalar(s)|, [Set(key, s.text, TypeOf(s))])
  {
    hide ScanString, ScanNumber, ScanBoolean, ParseWalk, Skip, At, NumberText;
    WalkScalar(t, at, key);
    if IsQuote(t[at]) {
      StringParsed(t, at);
      return Str(t[at], ScanString(t, at).text);
    } else if t[at] == '+' || t[at] == '-' || IsDigit(t[at]) {
      NumberParsed(t, at);
      return Num(ScanNumber(t, at).text);
    } else {
      BooleanParsed(t, at);
      return Bool(ScanBoolean(t, at).text);
    }
  }

  lemma {:induction false} WalkSound(t: string, b: nat, key: Key) returns (before: string, v: Value)
    requires b <= |t| && Skip(t, b) < |t| && ParseWalk(t, b, key).ok
    ensures AllSpace(before) && ValidValue(v) && At(t, b, before + Print(v))
    ensures ParseWalk(t, b, key) == Parsed(true, b + |before| + |Print(v)|, EventsOf(v, key, b + |before|))
    decreases |t| - b, 3
  {
    hide Skip, ParseWalk, ParseArray, At, Print, EventsOf, PrintScalar, Inside, ValidItems, ValidScalar;
    var at := Skip(t, b);
    before := t[b..at];
    WalkSkips(t, b, at, key);
    if IsOpen(t[at]) {
      WalkContainer(t, at, key);
      var gap, items := ContainerSound(t, at);
      v := Box(t[at], gap, items);
    } else {
      var s := ScalarSound(t, at, key);
      v := Leaf(s);
    }
    ValueShape(v, key, at);
    SkippedThen(t, b, Print(v));
  }

  lemma {:induction false} ContainerSound(t: string, s: nat) returns (gap: string, items: Items)
    requires s < |t| && IsOpen(t[s]) && ParseArray(t, s).ok
    ensures AllSpace(gap) && ValidItems(t[s], items) && At(t, s, [t[s]] + Inside(t[s], gap, items))
    ensures ParseArray(t, s) == Parsed(true, s + 1 + |Inside(t[s], gap, items)|, ItemEvents(t[s], items, 0, s + 1))
    decreases |t| - s, 2
  {
    var open, p := t[s], Skip(t, s + 1);
    BracketCloses(t, s);
    hide Skip, ParseArray, ParseItems, PrintItems, ItemEvents;
    assert At(t, s, [open]);
    gap, items := t[s + 1..p], None;
    if t[p] == Closing(open) {
      EmptyContainer(t, s);
      NoItemEvents(open, s + 1);
      assert At(t, p, [Closing(open)]);
      SkippedThen(t, s + 1, [Closing(open)]);
    } else {
      FullContainer(t, s);
      gap := "";
      items := ItemsSound(t, open, s, 0);
    }
    AtSplit(t, s, [open], Inside(open, gap, items));
  }

  /** Behind an accepted opening bracket something other than a space follows. */
  lemma {:induction false} BracketCloses(t: string, s: nat)
    requires s < |t| && IsOpen(t[s]) && ParseArray(t, s).ok
    ensures Skip(t, s + 1) < |t|
  {
    hide ParseItems;
  }

  /** An item that is followed by a comma or bracket has a value. */
  lemma {:induction false} ItemParts(t: string, open: char, beg: nat, n: nat)
    requires beg < |t| && IsOpen(open) && ParseItems(t, open, beg, n).ok
    ensures var k := ParseKey(t, open, beg + 1, n);
            && k.ok && ParseWalk(t, k.pos, k.key).ok && Skip(t, k.pos) < |t|
            && var w := ParseWalk(t, k.pos, k.key);
               var c := Skip(t, w.pos);
               && c < |t| && ParseItem(t, open, beg, n) == Parsed(true, c, w.events)
               && (t[c] == ',' || t[c] == Closing(open))
               && (t[c] == ',' ==> ParseItems(t, open, c, n + 1).ok)
  {
    hide ParseKey, ParseArray, ScanString, ScanNumber, ScanBoolean;
    var k := ParseKey(t, open, beg + 1, n);
    var w := ParseWalk(t, k.pos, k.key);
    assert k.ok && w.ok;
  }

  /** One item: its key, its value, and the spaces on both sides, each where it is printed. */
  lemma {:induction false} ItemSound(t: string, open: char, beg: nat, n: nat) returns (item: Items, c: nat)
    requires beg < |t| && IsOpen(open) && ParseItems(t, open, beg, n).ok
    ensures item.More? && item.rest.None? && ValidItems(open, item)
    ensures var w := beg + 1 + |PrintKey(item.key)|;
            var v := w + |item.before|;
            && At(t, beg + 1, PrintKey(item.key)) && At(t, w, item.before + Print(item.value))
            && At(t, v + |Print(item.value)|, item.after)
            && c == v + |Print(item.value)| + |item.after|
            && ParseItem(t, open, beg, n) == Parsed(true, c, EventsOf(item.value, KeyOf(item.key, n), v))
    ensures c < |t| && (t[c] == ',' || t[c] == Closing(open))
    ensures t[c] == ',' ==> ParseItems(t, open, c, n + 1).ok
    decreases |t| - beg, 0
  {
    hide *;
    ItemParts(t, open, beg, n);
    var k := ParseKey(t, open, beg + 1, n);
    var key := KeySound(t, open, beg + 1, n);
    var before, value := WalkSound(t, k.pos, k.key);
    var w := ParseWalk(t, k.pos, k.key);
    c := Skip(t, w.pos);
    SkipSpaces(t, w.pos);
    var after := t[w.pos..c];
    item := More(key, before, value, after, None);
    ValidItem(open, key, before, value, after);
  }

  lemma {:induction false} ValidItem(open: char, key: KeyText, before: string, value: Value, after: string)
    requires ValidKey(open, key) && AllSpace(before) && ValidValue(value) && AllSpace(after)
    ensures ValidItems(open, More(key, before, value, after, None))
  {
  }

  lemma {:induction false} ItemsSound(t: string, open: char, beg: nat, n: nat) returns (items: Items)
    requires beg < |t| && IsOpen(open) && ParseItems(t, open, beg, n).ok
    ensures items.More? && ValidItems(open, items) && At(t, beg + 1, PrintItems(open, items))
    ensures ParseItems(t, open, beg, n)
            == Parsed(true, beg + 1 + |PrintItems(open, items)|, ItemEvents(open, items, n, beg + 1))
    decreases |t| - beg, 1
  {
    hide At, Skip, ParseKey, ParseWalk, ParseItem, ParseItems, PrintItems, Print, Tail, EventsOf, ItemEvents;
    hide PrintKey, KeyOf, ValidKey, ValidValue;
    var item, c := ItemSound(t, open, beg, n);
    CharIsAt(t, c);
    var rest := None;
    if t[c] == ',' {
      rest := ItemsSound(t, open, c, n + 1);
      AtSplit(t, c, ",", PrintItems(open, rest));
    }
    TailIs(open, rest);
    items := item.(rest := rest);
    ItemJoined(t, open, beg, item, rest, c);
    ItemEventsStep(open, items, n, beg + 1);
    ItemsUnfold(t, open, beg, n);
  }

  /** An item and what follows it, put together. */
  lemma {:induction false} ItemJoined(t: string, open: char, beg: nat, item: Items, rest: Items, c: nat)
    requires item.More?
    requires At(t, beg + 1, PrintKey(item.key))
    requires At(t, beg + 1 + |PrintKey(item.key)|, item.before + Print(item.value))
    requires c == beg + 1 + |PrintKey(item.key)| + |item.before| + |Print(item.value)| + |item.after|
    requires At(t, c - |item.after|, item.after) && At(t, c, Tail(open, rest))
    ensures At(t, beg + 1, PrintKey(item.key) + (item.before + Print(item.value) + (item.after + Tail(open, rest))))
  {
    hide *;
    var w := beg + 1 + |PrintKey(item.key)|;
    AtSplit(t, c - |item.after|, item.after, Tail(open, rest));
    AtSplit(t, w, item.before + Print(item.value), item.after + Tail(open, rest));
    AtSplit(t, beg + 1, PrintKey(item.key), item.before + Print(item.value) + (item.after + Tail(open, rest)));
  }

  lemma {:induction false} CharIsAt(t: string, c: nat)
    requires c < |t|
    ensures At(t, c, [t[c]])
  {
  }

  /**
   Soundness and completeness: from any position of any text, the parser accepts exactly when a
   printed container stands there behind white space.
   */
  lemma {:induction false} AcceptsExactly(t: string, i: nat)
    requires i <= |t|
    ensures ParseArray(t, i).ok <==>
            exists pre, v: Value :: AllSpace(pre) && v.Box? && ValidValue(v) && At(t, i, pre + Print(v))
  {
    hide ParseItems, PrintItems, ValidItems;
    if ParseArray(t, i).ok {
      var s := Skip(t, i);
      ArraySkips(t, i, s);
      var gap, items := ContainerSound(t, s);
      var v := Box(t[s], gap, items);
      ValueShape(v, Index(0), s);
      SkippedThen(t, i, Print(v));
      assert AllSpace(t[i..s]) && v.Box? && ValidValue(v) && At(t, i, t[i..s] + Print(v));
    }
    if pre, v: Value :| AllSpace(pre) && v.Box? && ValidValue(v) && At(t, i, pre + Print(v)) {
      RoundTrip(t, i, pre, v);
    }
  }

  // ----- the callbacks nest -----

  /** The containers still open after some callbacks, innermost first; nothing if one closes out of turn. */
  datatype Nesting = Broken | Open(keys: seq<Key>)

  function Nest(open: seq<Key>, es: seq<Event>): Nesting
    decreases |es|
  {
    if es == [] then Open(open)
    else
      match es[0]
      case New(k, _) => Nest([k] + open, es[1..])
      case Fin(k) => if open != [] && open[0] == k then Nest(open[1..], es[1..]) else Broken
      case Set(_, _, _) => Nest(open, es[1..])
  }

  lemma {:induction false} NestStep(open: seq<Key>, e: Event, es: seq<Event>)
    ensures Nest(open, [e] + es) ==
            match e
            case New(k, _) => Nest([k] + open, es)
            case Fin(k) => if open != [] && open[0] == k then Nest(open[1..], es) else Broken
            case Set(_, _, _) => Nest(open, es)
  {
    assert ([e] + es)[1..] == es;
  }

  /** The callbacks of a value close what they open, around exactly those of its children. */
  lemma {:induction false} ValueNests(v: Value, key: Key, at: nat, open: seq<Key>, es: seq<Event>)
    ensures Nest(open, EventsOf(v, key, at) + es) == Nest(open, es)
    decreases v
  {
    hide Nest, ItemEvents;
    match v
    case Leaf(s) =>
      NestStep(open, Set(key, s.text, TypeOf(s)), es);
    case Box(o, gap, items) =>
      var inner := ItemEvents(o, items, 0, at + 1);
      assert EventsOf(v, key, at) + es == [New(key, at)] + (inner + ([Fin(key)] + es));
      NestStep(open, New(key, at), inner + ([Fin(key)] + es));
      ItemsNest(o, items, 0, at + 1, [key] + open, [Fin(key)] + es);
      NestStep([key] + open, Fin(key), es);
      assert ([key] + open)[1..] == open;
  }

  lemma {:induction false} ItemsNest(o: char, items: Items, n: nat, at: nat, open: seq<Key>, es: seq<Event>)
    ensures Nest(open, ItemEvents(o, items, n, at) + es) == Nest(open, es)
    decreases items
  {
    hide Nest, EventsOf, Print, PrintKey, KeyOf;
    match items
    case None =>
      assert [] + es == es;
    case More(key, before, value, after, rest) =>
      var v := at + |PrintKey(key)| + |before|;
      var a, b := EventsOf(value, KeyOf(key, n), v), ItemEvents(o, rest, n + 1, v + |Print(value)| + |after| + 1);
      assert (a + b) + es == a + (b + es);
      ValueNests(value, KeyOf(key, n), v, open, b + es);
      ItemsNest(o, rest, n + 1, v + |Print(value)| + |after| + 1, open, es);
  }

  /** Whatever text is accepted, the callbacks of the parse are balanced. */
  lemma {:induction false} AcceptedEventsNest(t: string, i: nat)
    requires i <= |t| && ParseArray(t, i).ok
    ensures Nest([], ParseArray(t, i).events) == Open([])
  {
    hide ParseItems, ItemEvents;
    var s := Skip(t, i);
    ArraySkips(t, i, s);
    var gap, items := ContainerSound(t, s);
    var es := ItemEvents(t[s], items, 0, s + 1);
    ItemsNest(t[s], items, 0, s + 1, [], []);
    assert es + [] == es;
  }
}
