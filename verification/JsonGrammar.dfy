/** The texts js.cc accepts, as trees that remember their white space, and what each should report. */
module JsonGrammar {
  import opened JsonParser

  datatype Scalar = Str(quote: char, text: string) | Num(text: string) | Bool(text: string)

  datatype KeyText = NoKey | KeyText(before: string, quote: char, text: string, after: string)

  /** A container keeps the gap between its brackets for the case that it has no items. */
  datatype Value = Leaf(scalar: Scalar) | Box(open: char, gap: string, items: Items)
  datatype Items = None | More(key: KeyText, before: string, value: Value, after: string, rest: Items)

  predicate AllSpace(s: string) {
    forall i :: 0 <= i < |s| ==> IsSpace(s[i])
  }

  function SignLength(s: string): nat {
    if s != "" && (s[0] == '+' || s[0] == '-') then 1 else 0
  }

  /** An optional sign, a digit, digits and at most one point. */
  predicate NumberText(s: string) {
    var p := SignLength(s);
    && p < |s| && IsDigit(s[p]) && (forall i :: p < i < |s| ==> IsDigit(s[i]) || s[i] == '.')
    && Points(s) <= 1
  }

  predicate ValidScalar(s: Scalar) {
    match s
    case Str(quote, text) => IsQuote(quote) && quote !in text
    case Num(text) => NumberText(text)
    case Bool(text) => text == "true" || text == "True" || text == "false" || text == "False"
  }

  /** An object's items have keys, an array's have none. */
  predicate ValidKey(open: char, k: KeyText) {
    match k
    case NoKey => open == '['
    case KeyText(before, quote, text, after) =>
      open == '{' && AllSpace(before) && IsQuote(quote) && quote !in text && AllSpace(after)
  }

  predicate ValidValue(v: Value)
    decreases v
  {
    match v
    case Leaf(s) => ValidScalar(s)
    case Box(open, gap, items) => IsOpen(open) && AllSpace(gap) && ValidItems(open, items)
  }

  predicate ValidItems(open: char, items: Items)
    decreases items
  {
    match items
    case None => true
    case More(key, before, value, after, rest) =>
      ValidKey(open, key) && AllSpace(before) && ValidValue(value) && AllSpace(after) && ValidItems(open, rest)
  }

  // ----- the alphabet -----

  /** The six characters of white space, the ten digits, the quotes and the brackets. */
  lemma {:induction false} Alphabet(c: char)
    ensures IsSpace(c) <==> c in {' ', '\t', '\n', '\r', 11 as char, 12 as char}
    ensures IsDigit(c) <==> c in {'0', '1', '2', '3', '4', '5', '6', '7', '8', '9'}
    ensures IsQuote(c) <==> c in {'"', '\''}
    ensures IsOpen(c) <==> c in {'[', '{'}
    ensures Closing('[') == ']' && Closing('{') == '}'
  {
  }

  /** Scalars of different kinds are reported with different types. */
  lemma {:induction false} TypesDiffer(s: Scalar, u: Scalar)
    ensures TypeOf(s) == TypeOf(u) <==> (s.Str? && u.Str?) || (s.Num? && u.Num?) || (s.Bool? && u.Bool?)
  {
  }

  /** Some numbers and what is none: signs, one point, digits first. */
  lemma {:induction false} Numbers()
    ensures NumberText("7") && NumberText("-1.5") && NumberText("+20.")
    ensures !NumberText("") && !NumberText("-") && !NumberText(".5") && !NumberText("1x") && !NumberText("1.2.3")
  {
    assert "-1.5"[1..] == "1.5" && "1.5"[1..] == ".5" && ".5"[1..] == "5" && "5"[1..] == "";
    assert "+20."[1..] == "20." && "20."[1..] == "0." && "0."[1..] == "." && "."[1..] == "";
    assert "7"[1..] == "";
    assert "1.2.3"[1..] == ".2.3" && ".2.3"[1..] == "2.3" && "2.3"[1..] == ".3" && ".3"[1..] == "3" && "3"[1..] == "";
    assert "1x"[1] == 'x';
    assert ".5"[0] == '.';
  }

  /** A token that fails is reported where it begins. */
  lemma {:induction false} FailsWhereItBegins(t: string, i: nat)
    requires i <= |t|
    ensures !ScanString(t, i).ok ==> ScanString(t, i).pos == Skip(t, i)
    ensures !ScanNumber(t, i).ok ==> ScanNumber(t, i).pos == Skip(t, i)
    ensures !ScanBoolean(t, i).ok ==> ScanBoolean(t, i).pos == Skip(t, i)
  {
  }

  // ----- printing -----

  function PrintScalar(s: Scalar): string {
    match s
    case Str(quote, text) => [quote] + text + [quote]
    case Num(text) => text
    case Bool(text) => text
  }

  function PrintKey(k: KeyText): string {
    match k
    case NoKey => ""
    case KeyText(before, quote, text, after) => before + (([quote] + text + [quote]) + (after + ":"))
  }

  function Print(v: Value): string
    decreases v
  {
    match v
    case Leaf(s) => PrintScalar(s)
    case Box(open, gap, items) => [open] + Inside(open, gap, items)
  }

  /** What follows the opening bracket, the closing one included. */
  function Inside(open: char, gap: string, items: Items): string
    decreases items, 2
  {
    if items.None? then gap + [Close(open)] else PrintItems(open, items)
  }

  function PrintItems(open: char, items: Items): string
    decreases items, 1
  {
    match items
    case None => ""
    case More(key, before, value, after, rest) =>
      PrintKey(key) + (before + Print(value) + (after + Tail(open, rest)))
  }

  function Tail(open: char, rest: Items): string
    decreases rest, 2
  {
    if rest.None? then [Close(open)] else "," + PrintItems(open, rest)
  }

  function Close(open: char): char {
    if open == '{' then '}' else ']'
  }

  // ----- reporting -----

  function TypeOf(s: Scalar): int {
    match s case Str(_, _) => TY_STR case Num(_) => TY_INT case Bool(_) => TY_BOOL
  }

  function KeyOf(k: KeyText, n: nat): Key {
    match k
    case NoKey => Index(n + 1)
    case KeyText(_, _, text, _) => Name(text)
  }

  /** The callbacks for a value that stands at position `at`. */
  function EventsOf(v: Value, key: Key, at: nat): seq<Event>
    decreases v
  {
    match v
    case Leaf(s) => [Set(key, s.text, TypeOf(s))]
    case Box(open, gap, items) => [New(key, at)] + ItemEvents(open, items, 0, at + 1) + [Fin(key)]
  }

  /** The callbacks for the items from number `n` on, printed from position `at` on; numbers start at 1. */
  function ItemEvents(open: char, items: Items, n: nat, at: nat): seq<Event>
    decreases items
  {
    match items
    case None => []
    case More(key, before, value, after, rest) =>
      var v := at + |PrintKey(key)| + |before|;
      EventsOf(value, KeyOf(key, n), v) + ItemEvents(open, rest, n + 1, v + |Print(value)| + |after| + 1)
  }

  // ----- a text at a place -----

  predicate At(t: string, i: nat, s: string) {
    i + |s| <= |t| && t[i..i + |s|] == s
  }

  lemma {:induction false} AtSplit(t: string, i: nat, a: string, b: string)
    ensures At(t, i, a + b) <==> At(t, i, a) && At(t, i + |a|, b)
  {
    if i + |a| + |b| <= |t| {
      var s := t[i..i + |a| + |b|];
      assert s[..|a|] == t[i..i + |a|] && s[|a|..] == t[i + |a|..i + |a| + |b|];
      assert (a + b)[..|a|] == a && (a + b)[|a|..] == b;
      assert s == s[..|a|] + s[|a|..];
    }
  }

  lemma {:induction false} AtFirst(t: string, i: nat, s: string)
    requires At(t, i, s) && s != ""
    ensures i < |t| && t[i] == s[0]
  {
    assert t[i] == t[i..i + |s|][0];
  }

  lemma {:induction false} SkipOver(t: string, i: nat, s: string)
    requires At(t, i, s) && AllSpace(s) && (i + |s| < |t| ==> !IsSpace(t[i + |s|]))
    ensures Skip(t, i) == i + |s|
    decreases |s|
  {
    if s != "" {
      AtFirst(t, i, s);
      assert t[i + 1..i + |s|] == s[1..];
      SkipOver(t, i + 1, s[1..]);
    }
  }

  lemma {:induction false} SkipSpaces(t: string, i: nat)
    requires i <= |t|
    ensures AllSpace(t[i..Skip(t, i)]) && At(t, i, t[i..Skip(t, i)])
    ensures Skip(t, i) < |t| ==> !IsSpace(t[Skip(t, i)])
    decreases |t| - i
  {
    if i < |t| && IsSpace(t[i]) {
      SkipSpaces(t, i + 1);
      var j := Skip(t, i + 1);
      assert t[i..j] == [t[i]] + t[i + 1..j];
    }
  }

  lemma {:induction false} FindsAt(t: string, i: nat, s: string, c: char)
    requires At(t, i, s) && c !in s && i + |s| < |t| && t[i + |s|] == c
    ensures FindChar(t, i, c) == i + |s|
    decreases |s|
  {
    if s != "" {
      AtFirst(t, i, s);
      assert t[i + 1..i + |s|] == s[1..];
      FindsAt(t, i + 1, s[1..], c);
    }
  }

  lemma {:induction false} FoundAt(t: string, i: nat, c: char)
    requires i <= |t|
    ensures c !in t[i..FindChar(t, i, c)]
    ensures FindChar(t, i, c) < |t| ==> t[FindChar(t, i, c)] == c
    decreases |t| - i
  {
    if i < |t| && t[i] != c {
      FoundAt(t, i + 1, c);
      var j := FindChar(t, i + 1, c);
      assert t[i..j] == [t[i]] + t[i + 1..j];
    }
  }

  /** No digit or point stands there, so a number ends. */
  predicate Stops(t: string, i: nat) {
    i < |t| ==> !IsDigit(t[i]) && t[i] != '.'
  }

  lemma {:induction false} DigitsTo(t: string, i: nat, j: nat)
    requires i <= j <= |t| && Stops(t, j)
    requires forall k :: i <= k < j ==> IsDigit(t[k]) || t[k] == '.'
    ensures DigitsEnd(t, i) == j
    decreases j - i
  {
    if i < j {
      DigitsTo(t, i + 1, j);
    }
  }

  lemma {:induction false} DigitsFrom(t: string, i: nat)
    requires i <= |t|
    ensures forall k :: i <= k < DigitsEnd(t, i) ==> IsDigit(t[k]) || t[k] == '.'
    decreases |t| - i
  {
    if i < |t| && (IsDigit(t[i]) || t[i] == '.') {
      DigitsFrom(t, i + 1);
    }
  }

  // ----- tokens, printed and read -----

  lemma {:induction false} StringRead(t: string, i: nat, ws: string, q: char, text: string)
    requires AllSpace(ws) && IsQuote(q) && q !in text && At(t, i, ws + ([q] + text + [q]))
    ensures ScanString(t, i) == Token(true, i + |ws| + |text| + 2, text)
  {
    hide Skip, FindChar, AllSpace;
    AtSplit(t, i, ws, [q] + text + [q]);
    var s := i + |ws|;
    AtSplit(t, s, [q] + text, [q]);
    AtSplit(t, s, [q], text);
    AtFirst(t, s, [q]);
    AtFirst(t, s + 1 + |text|, [q]);
    SkipOver(t, i, ws);
    FindsAt(t, s + 1, text, q);
  }

  lemma {:induction false} StringParsed(t: string, i: nat)
    requires i <= |t| && ScanString(t, i).ok
    ensures var s, r := Skip(t, i), ScanString(t, i);
            && s + 1 < r.pos && IsQuote(t[s]) && t[s] !in r.text && r.pos == s + |r.text| + 2
            && At(t, s, [t[s]] + r.text + [t[s]])
  {
    var s, r := Skip(t, i), ScanString(t, i);
    FoundAt(t, s + 1, t[s]);
    Enclosed(t, s, r.pos - 1);
  }

  lemma {:induction false} Enclosed(t: string, i: nat, j: nat)
    requires i < j < |t|
    ensures t[i..j + 1] == [t[i]] + t[i + 1..j] + [t[j]]
  {
  }

  lemma {:induction false} NumberRead(t: string, s: nat, text: string)
    requires NumberText(text) && At(t, s, text) && Stops(t, s + |text|)
    ensures Skip(t, s) == s && ScanNumber(t, s) == Token(true, s + |text|, text)
  {
    AtFirst(t, s, text);
    assert forall k :: 0 <= k < |text| ==> t[s + k] == text[k];
    var p := s + SignLength(text);
    forall k | p + 1 <= k < s + |text| ensures IsDigit(t[k]) || t[k] == '.' {
      assert t[k] == text[k - s];
    }
    DigitsTo(t, p + 1, s + |text|);
  }

  lemma {:induction false} NumberParsed(t: string, s: nat)
    requires s <= |t| && Skip(t, s) == s && ScanNumber(t, s).ok
    ensures var r := ScanNumber(t, s); NumberText(r.text) && At(t, s, r.text) && r.pos == s + |r.text|
  {
    var r := ScanNumber(t, s);
    var p := if CharAt(t, s) == '-' || CharAt(t, s) == '+' then s + 1 else s;
    DigitsFrom(t, p + 1);
    assert forall k :: 0 <= k < |r.text| ==> r.text[k] == t[s + k];
  }

  lemma {:induction false} BooleanRead(t: string, s: nat, text: string)
    requires ValidScalar(Bool(text)) && At(t, s, text)
    ensures Skip(t, s) == s && ScanBoolean(t, s) == Token(true, s + |text|, text)
  {
    AtFirst(t, s, text);
    assert t[s + 1..s + |text|] == text[1..];
    assert text[1..] == "rue" || text[1..] == "alse";
  }

  lemma {:induction false} BooleanParsed(t: string, s: nat)
    requires s <= |t| && Skip(t, s) == s && ScanBoolean(t, s).ok
    ensures var r := ScanBoolean(t, s); ValidScalar(Bool(r.text)) && At(t, s, r.text) && r.pos == s + |r.text|
  {
    var r := ScanBoolean(t, s);
    var n := if t[s] == 'T' || t[s] == 't' then 4 else 5;
    assert r == Token(true, s + n, t[s..s + n]);
    assert t[s..s + n] == [t[s]] + t[s + 1..s + n];
  }
}
