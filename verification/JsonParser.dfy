/**
 The event parser of js.cc. Positions are indices into the text; the character at its end
 reads as NUL, and a thrown `jsax_fail` is a result that is not `ok`.
 */
module JsonParser {

  const TY_STR := 1
  const TY_INT := 2
  const TY_BOOL := 3

  datatype Key = Index(i: nat) | Name(name: string)

  /** The callbacks: a container opens at a position and closes, a scalar is set. */
  datatype Event = New(key: Key, pos: nat) | Fin(key: Key) | Set(key: Key, text: string, ty: int)

  /** Where a call ends and what it has reported; on failure the position `jsax_fail` carries. */
  datatype Parsed = Parsed(ok: bool, pos: nat, events: seq<Event>) {
    function After(es: seq<Event>): Parsed {
      this.(events := es + events)
    }
  }

  /** A token: its end and its text. */
  datatype Token = Token(ok: bool, pos: nat, text: string)

  function CharAt(t: string, i: nat): char {
    if i < |t| then t[i] else '\0'
  }

  predicate IsSpace(c: char) {
    c == ' ' || ('\t' <= c <= '\r')
  }

  predicate IsDigit(c: char) {
    '0' <= c <= '9'
  }

  predicate IsQuote(c: char) {
    c == '"' || c == '\''
  }

  function Skip(t: string, i: nat): (j: nat)
    requires i <= |t|
    ensures i <= j <= |t|
    decreases |t| - i
  {
    if i < |t| && IsSpace(t[i]) then Skip(t, i + 1) else i
  }

  function FindChar(t: string, i: nat, c: char): (j: nat)
    requires i <= |t|
    ensures i <= j <= |t|
    decreases |t| - i
  {
    if i < |t| && t[i] != c then FindChar(t, i + 1, c) else i
  }

  /** The end of a run of digits and points. */
  function DigitsEnd(t: string, i: nat): (j: nat)
    requires i <= |t|
    ensures i <= j <= |t|
    decreases |t| - i
  {
    if i < |t| && (IsDigit(t[i]) || t[i] == '.') then DigitsEnd(t, i + 1) else i
  }

  function Points(s: string): nat {
    if s == "" then 0 else (if s[0] == '.' then 1 else 0) + Points(s[1..])
  }

  function ScanString(t: string, i: nat): (r: Token)
    requires i <= |t|
    ensures i <= r.pos <= |t| && (r.ok ==> i < r.pos)
  {
    var s := Skip(t, i);
    if !IsQuote(CharAt(t, s)) || s + 1 >= |t| then Token(false, s, "")
    else
      var f := FindChar(t, s + 1, t[s]);
      if f == |t| then Token(false, s, "") else Token(true, f + 1, t[s + 1..f])
  }

  function ScanNumber(t: string, i: nat): (r: Token)
    requires i <= |t|
    ensures i <= r.pos <= |t| && (r.ok ==> i < r.pos)
  {
    var s := Skip(t, i);
    var p := if CharAt(t, s) == '-' || CharAt(t, s) == '+' then s + 1 else s;
    if p >= |t| || !IsDigit(t[p]) then Token(false, s, "")
    else
      var q := DigitsEnd(t, p + 1);
      if Points(t[s..q]) > 1 then Token(false, s, "") else Token(true, q, t[s..q])
  }

  function ScanBoolean(t: string, i: nat): (r: Token)
    requires i <= |t|
    ensures i <= r.pos <= |t| && (r.ok ==> i < r.pos)
  {
    var s := Skip(t, i);
    var c := CharAt(t, s);
    if c == 'T' || c == 't' then
      if |t| - s < 4 || t[s + 1..s + 4] != "rue" then Token(false, s, "") else Token(true, s + 4, t[s..s + 4])
    else if c == 'F' || c == 'f' then
      if |t| - s < 5 || t[s + 1..s + 5] != "alse" then Token(false, s, "") else Token(true, s + 5, t[s..s + 5])
    else Token(false, s, "")
  }

  predicate IsOpen(c: char) { c == '{' || c == '[' }

  /** `*sbeg + 2` */
  function Closing(c: char): char
    requires IsOpen(c)
  {
    if c == '{' then '}' else ']'
  }

  function ParseArray(t: string, i: nat): (r: Parsed)
    requires i <= |t|
    ensures i <= r.pos <= |t| && (r.ok ==> i < r.pos)
    decreases |t| - i, 2
  {
    var s := Skip(t, i);
    if !IsOpen(CharAt(t, s)) then Parsed(false, s, [])
    else
      var p := Skip(t, s + 1);
      if p == |t| then Parsed(false, s, [])
      else if t[p] == Closing(t[s]) then Parsed(true, p + 1, [])
      else ParseItems(t, t[s], s, 0)
  }

  /** The key of an item, or the position of a failure. */
  datatype Keyed = Keyed(ok: bool, pos: nat, key: Key)

  function ParseKey(t: string, open: char, b: nat, n: nat): (r: Keyed)
    requires b <= |t|
    ensures b <= r.pos <= |t|
  {
    if open == '[' then Keyed(true, b, Index(n + 1))
    else
      var k := ScanString(t, b);
      if !k.ok then Keyed(false, k.pos, Index(0))
      else
        var c := Skip(t, k.pos);
        if c == |t| || t[c] != ':' then Keyed(false, c, Index(0)) else Keyed(true, c + 1, Name(k.text))
  }

  /** One round of the loop of `jsax_array`, up to the comma or bracket behind the item. */
  function ParseItem(t: string, open: char, beg: nat, n: nat): (r: Parsed)
    requires beg < |t|
    ensures beg < r.pos <= |t|
    decreases |t| - beg, 0
  {
    var k := ParseKey(t, open, beg + 1, n);
    if !k.ok then Parsed(false, k.pos, [])
    else
      var w := ParseWalk(t, k.pos, k.key);
      if w.ok then w.(pos := Skip(t, w.pos)) else w
  }

  /** The loop of `jsax_array` from the bracket or comma at `beg` on, `n` items behind it. */
  function ParseItems(t: string, open: char, beg: nat, n: nat): (r: Parsed)
    requires beg < |t| && IsOpen(open)
    ensures beg < r.pos <= |t|
    decreases |t| - beg, 1
  {
    var w := ParseItem(t, open, beg, n);
    if !w.ok then w
    else if CharAt(t, w.pos) == ',' then ParseItems(t, open, w.pos, n + 1).After(w.events)
    else if CharAt(t, w.pos) != Closing(open) then w.(ok := false)
    else w.(pos := w.pos + 1)
  }

  function SetOrFail(k: Token, key: Key, ty: int): (r: Parsed)
    ensures r.pos == k.pos && r.ok == k.ok
  {
    Parsed(k.ok, k.pos, if k.ok then [Set(key, k.text, ty)] else [])
  }

  /** `jsax_walk`: one value; at the end of the text it returns without a word. */
  function ParseWalk(t: string, b: nat, key: Key): (r: Parsed)
    requires b <= |t|
    ensures b <= r.pos <= |t|
    decreases |t| - b, 3
  {
    var v := Skip(t, b);
    if v == |t| then Parsed(true, v, [])
    else
      var c := t[v];
      if IsOpen(c) then
        var a := ParseArray(t, v).After([New(key, v)]);
        if a.ok then a.(events := a.events + [Fin(key)]) else a
      else if IsQuote(c) then SetOrFail(ScanString(t, v), key, TY_STR)
      else if c == '+' || c == '-' || IsDigit(c) then SetOrFail(ScanNumber(t, v), key, TY_INT)
      else if c == 'T' || c == 'F' || c == 't' || c == 'f' then SetOrFail(ScanBoolean(t, v), key, TY_BOOL)
      else Parsed(false, v, [])
  }

  /** Whether or not the rest fails: what has been reported stays reported, and a failure adds nothing. */
  lemma {:induction false} ReportsStay(t: string, open: char, beg: nat, n: nat)
    requires beg < |t| && IsOpen(open)
    ensures ParseItem(t, open, beg, n).events <= ParseItems(t, open, beg, n).events
    ensures !ParseItem(t, open, beg, n).ok ==> ParseItems(t, open, beg, n) == ParseItem(t, open, beg, n)
    ensures var w := ParseItem(t, open, beg, n);
            w.ok && CharAt(t, w.pos) != ',' ==>
              ParseItems(t, open, beg, n).events == w.events
              && (ParseItems(t, open, beg, n).ok <==> CharAt(t, w.pos) == Closing(open))
  {
  }

  /** A container that fails has been reported as opened, with all that was read of it, and not as closed. */
  lemma {:induction false} FailedContainer(t: string, b: nat, key: Key)
    requires b <= |t| && Skip(t, b) < |t| && IsOpen(t[Skip(t, b)])
    ensures var v := Skip(t, b);
            var a, w := ParseArray(t, v), ParseWalk(t, b, key);
            && w.pos == a.pos && (w.ok <==> a.ok)
            && w.events == [New(key, v)] + a.events + if a.ok then [Fin(key)] else []
  {
  }

  // ----- the functions of the source, loops and all -----

  method SkipSs(t: string, beg: nat) returns (p: nat)
    requires beg <= |t|
    ensures p == Skip(t, beg)
  {
    p := beg;
    while p != |t|
      invariant p <= |t| && Skip(t, beg) == Skip(t, p)
    {
      if !IsSpace(t[p]) {
        break;
      }
      p := p + 1;
    }
  }

  method JsaxString(t: string, beg: nat) returns (r: Token)
    requires beg <= |t|
    ensures r == ScanString(t, beg)
  {
    var s := SkipSs(t, beg);
    if !IsQuote(CharAt(t, s)) || s + 1 >= |t| {
      return Token(false, s, "");
    }
    var p := s + 1;
    while p != |t| && t[p] != t[s]
      invariant s + 1 <= p <= |t| && FindChar(t, s + 1, t[s]) == FindChar(t, p, t[s])
    {
      p := p + 1;
    }
    if p == |t| {
      return Token(false, s, "");
    }
    return Token(true, p + 1, t[s + 1..p]);
  }

  method JsaxDigital(t: string, beg: nat) returns (r: Token)
    requires beg <= |t|
    ensures r == ScanNumber(t, beg)
  {
    var s := SkipSs(t, beg);
    var p := s;
    if CharAt(t, s) == '-' || CharAt(t, s) == '+' {
      p := p + 1;
    }
    if p >= |t| || !IsDigit(t[p]) {
      return Token(false, s, "");
    }
    ghost var first := p + 1;
    p := p + 1;
    while p < |t|
      invariant first <= p <= |t| && DigitsEnd(t, first) == DigitsEnd(t, p)
    {
      if !IsDigit(t[p]) && t[p] != '.' {
        break;
      }
      p := p + 1;
    }
    if Points(t[s..p]) > 1 {
      return Token(false, s, "");
    }
    return Token(true, p, t[s..p]);
  }

  method JsaxBoolean(t: string, beg: nat) returns (r: Token)
    requires beg <= |t|
    ensures r == ScanBoolean(t, beg)
  {
    var s := SkipSs(t, beg);
    assert |t| - s >= 4 ==> t[s + 1..s + 4] == [t[s + 1], t[s + 2], t[s + 3]];
    assert |t| - s >= 5 ==> t[s + 1..s + 5] == [t[s + 1], t[s + 2], t[s + 3], t[s + 4]];
    if CharAt(t, s) == 'T' || CharAt(t, s) == 't' {
      if |t| - s < 4 || t[s + 1] != 'r' || t[s + 2] != 'u' || t[s + 3] != 'e' {
        return Token(false, s, "");
      }
      return Token(true, s + 4, t[s..s + 4]);
    } else if CharAt(t, s) == 'F' || CharAt(t, s) == 'f' {
      if |t| - s < 5 || t[s + 1] != 'a' || t[s + 2] != 'l' || t[s + 3] != 's' || t[s + 4] != 'e' {
        return Token(false, s, "");
      }
      return Token(true, s + 5, t[s..s + 5]);
    } else {
      return Token(false, s, "");
    }
  }

  method JsaxArray(t: string, start: nat) returns (r: Parsed)
    requires start <= |t|
    ensures r == ParseArray(t, start)
    decreases |t| - start, 2
  {
    var s := SkipSs(t, start);
    if !IsOpen(CharAt(t, s)) {
      return Parsed(false, s, []);
    }
    var p := SkipSs(t, s + 1);
    if p == |t| {
      return Parsed(false, s, []);
    }
    if t[p] == Closing(t[s]) {
      return Parsed(true, p + 1, []);
    }
    var beg, n := s, 0;
    var log: seq<Event> := [];
    var more := true;
    while more
      invariant s <= beg <= |t| && (more ==> beg < |t|)
      invariant more ==> ParseItems(t, t[s], s, 0) == ParseItems(t, t[s], beg, n).After(log)
      invariant !more ==> ParseItems(t, t[s], s, 0) == Ended(t, t[s], beg, log)
      decreases more, |t| - beg
    {
      hide ParseItem;
      var w := JsaxItem(t, t[s], beg, n);
      ItemsStep(t, t[s], beg, n, log);
      log := log + w.events;
      if !w.ok {
        return Parsed(false, w.pos, log);
      }
      beg, n := w.pos, n + 1;
      more := CharAt(t, beg) == ',';
    }
    if CharAt(t, beg) != Closing(t[s]) {
      return Parsed(false, beg, log);
    }
    return Parsed(true, beg + 1, log);
  }

  /** The end of the loop: the closing bracket, or a failure at what stands in its place. */
  function Ended(t: string, open: char, c: nat, log: seq<Event>): Parsed
    requires IsOpen(open)
  {
    if CharAt(t, c) != Closing(open) then Parsed(false, c, log) else Parsed(true, c + 1, log)
  }

  lemma {:induction false} ItemsStep(t: string, open: char, beg: nat, n: nat, log: seq<Event>)
    requires beg < |t| && IsOpen(open)
    ensures var w := ParseItem(t, open, beg, n);
            ParseItems(t, open, beg, n).After(log)
            == if !w.ok then Parsed(false, w.pos, log + w.events)
               else if CharAt(t, w.pos) == ',' then ParseItems(t, open, w.pos, n + 1).After(log + w.events)
               else Ended(t, open, w.pos, log + w.events)
  {
    hide ParseItem;
    var w := ParseItem(t, open, beg, n);
    if w.ok && CharAt(t, w.pos) == ',' {
      var es := ParseItems(t, open, w.pos, n + 1).events;
      assert log + (w.events + es) == (log + w.events) + es;
    }
  }

  /** The index or the key of the next item. */
  method JsaxKey(t: string, open: char, start: nat, n: nat) returns (k: Keyed)
    requires start <= |t|
    ensures k == ParseKey(t, open, start, n)
  {
    if open == '[' {
      return Keyed(true, start, Index(n + 1));
    }
    var s := JsaxString(t, start);
    if !s.ok {
      return Keyed(false, s.pos, Index(0));
    }
    var beg := SkipSs(t, s.pos);
    if beg == |t| || t[beg] != ':' {
      return Keyed(false, beg, Index(0));
    }
    return Keyed(true, beg + 1, Name(s.text));
  }

  /** One round of the loop. */
  method JsaxItem(t: string, open: char, start: nat, n: nat) returns (r: Parsed)
    requires start < |t|
    ensures r == ParseItem(t, open, start, n)
    decreases |t| - start, 0
  {
    hide ParseKey, ParseWalk, Skip;
    var k := JsaxKey(t, open, start + 1, n);
    if !k.ok {
      return Parsed(false, k.pos, []);
    }
    r := JsaxWalk(t, k.pos, k.key);
    if r.ok {
      var p := SkipSs(t, r.pos);
      r := r.(pos := p);
    }
  }

  method JsaxWalk(t: string, start: nat, key: Key) returns (r: Parsed)
    requires start <= |t|
    ensures r == ParseWalk(t, start, key)
    decreases |t| - start, 3
  {
    var beg := SkipSs(t, start);
    if beg < |t| {
      var c := t[beg];
      var k, ty;
      if IsOpen(c) {
        var a := JsaxArray(t, beg);
        r := a.After([New(key, beg)]);
        if a.ok {
          r := r.(events := r.events + [Fin(key)]);
        }
        return;
      } else if IsQuote(c) {
        k := JsaxString(t, beg);
        ty := TY_STR;
      } else if c == '+' || c == '-' || IsDigit(c) {
        k := JsaxDigital(t, beg);
        ty := TY_INT;
      } else if c == 'T' || c == 'F' || c == 't' || c == 'f' {
        k := JsaxBoolean(t, beg);
        ty := TY_BOOL;
      } else {
        return Parsed(false, beg, []);
      }
      if !k.ok {
        return Parsed(false, k.pos, []);
      }
      return Parsed(true, k.pos, [Set(key, k.text, ty)]);
    }
    return Parsed(true, beg, []);
  }
}
