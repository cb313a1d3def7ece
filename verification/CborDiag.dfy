/** The CBOR diagnostic-notation printer (cbor_diag.py), a parser for the notation, and the proof that
    the parser undoes the printer at every indentation. */
module CborDiag {
  import opened Octets
  import opened Decimal
  import opened Hexadecimal

  datatype Entry = Entry(key: Item, val: Item)

  /** A decoded CBOR item. `Time` is what cbor2 makes of tag 1, in microseconds since the epoch.
      `Sign1` is tag 18 over four elements, with the two embedded byte strings already decoded. */
  datatype Item =
    | Int(n: int)
    | Bstr(bytes: Bytes)
    | Tstr(text: string)
    | Bool(b: bool)
    | Null
    | Array(items: seq<Item>)
    | Map(entries: seq<Entry>)
    | Tag(tag: nat, inner: Item)
    | Time(micros: int)
    | Sign1(prot: Item, unprot: Item, payload: Item, sig: Bytes)

  /** Tag 1 is always a `Time` and tag 18 over four elements is always a `Sign1`. */
  predicate Wf(o: Item) {
    match o
    case Array(items) => forall i :: 0 <= i < |items| ==> Wf(items[i])
    case Map(entries) => forall i :: 0 <= i < |entries| ==> Wf(entries[i].key) && Wf(entries[i].val)
    case Tag(t, v) => t != 1 && !(t == 18 && v.Array? && |v.items| == 4) && Wf(v)
    case Sign1(prot, unp, payload, _) => Wf(prot) && Wf(unp) && Wf(payload)
    case _ => true
  }

  // ---- The printer ----

  /** `s.replace(c, sub)` for a one-character pattern. */
  function Replace(s: string, c: char, sub: string): string {
    if |s| == 0 then "" else (if s[0] == c then sub else [s[0]]) + Replace(s[1..], c, sub)
  }

  function Quote(s: string): string {
    "\"" + Replace(Replace(s, '\\', "\\\\"), '"', "\\\"") + "\""
  }

  function Str(n: int): string {
    if n < 0 then "-" + Dec(-n) else Dec(n)
  }

  /** `"  " * ind`. */
  function Pad(ind: nat): string {
    if ind == 0 then "" else "  " + Pad(ind - 1)
  }

  /** `int(x / 10**6)`: Python truncates toward zero. */
  function Seconds(micros: int): int {
    if micros < 0 then -(-micros / 1000000) else micros / 1000000
  }

  function Diag(o: Item, ind: nat): string
    decreases o, 1
  {
    match o
    case Sign1(_, _, _, _) => DiagSign1(o, ind)
    case Tag(t, v) => Dec(t) + "(" + Diag(v, ind) + ")"
    case Time(m) => "1(" + Str(Seconds(m)) + ")"
    case Bool(b) => if b then "true" else "false"
    case Null => "null"
    case Int(n) => Str(n)
    case Bstr(b) => "h'" + Hex(b) + "'"
    case Tstr(s) => Quote(s)
    case Array(items) => "[" + DiagList(items, ind) + "]"
    case Map(entries) => "{\n" + DiagEntries(entries, ind) + "\n" + Pad(ind) + "}"
  }

  function DiagSign1(o: Item, ind: nat): string
    requires o.Sign1?
    decreases o, 0
  {
    "18([\n" + (Line(ind, "/ protected / << ", Diag(o.prot, 0), " >>,\n") +
                (Line(ind, "/ unprotected / ", Diag(o.unprot, 0), ",\n") +
                 (Line(ind, "/ payload / << ", Diag(o.payload, ind + 1), " >>,\n") +
                  (Line(ind, "/ signature / h'", Hex(o.sig), "'\n") + (Pad(ind) + "])")))))
  }

  /** One labelled line of a COSE_Sign1. */
  function Line(ind: nat, title: string, text: string, close: string): string {
    Pad(ind) + ("  " + (title + (text + close)))
  }

  /** The elements joined by ", ". */
  function DiagList(items: seq<Item>, ind: nat): string
    decreases items, 0
  {
    if |items| == 0 then ""
    else if |items| == 1 then Diag(items[0], ind)
    else Diag(items[0], ind) + ", " + DiagList(items[1..], ind)
  }

  function DiagEntry(e: Entry, ind: nat): string
    decreases e, 0
  {
    Pad(ind) + ("  " + (Diag(e.key, 0) + (": " + Diag(e.val, ind + 1))))
  }

  /** The entries joined by ",\n". */
  function DiagEntries(es: seq<Entry>, ind: nat): string
    decreases es, 0
  {
    if |es| == 0 then ""
    else if |es| == 1 then DiagEntry(es[0], ind)
    else DiagEntry(es[0], ind) + ",\n" + DiagEntries(es[1..], ind)
  }

  // ---- A parser for the notation ----

  type Parsed<T> = Option<(T, string)>

  function Expect(s: string, lit: string): (r: Option<string>)
    ensures r.Some? ==> |r.value| == |s| - |lit|
  {
    if lit <= s then Some(s[|lit|..]) else None
  }

  function Skip(s: string): (r: string)
    ensures |r| <= |s|
  {
    if s != "" && (s[0] == ' ' || s[0] == '\n') then Skip(s[1..]) else s
  }

  /** Hex pairs up to the closing quote. */
  function ParseHex(s: string): (r: Parsed<Bytes>)
    ensures r.Some? ==> |r.value.1| < |s|
  {
    if |s| == 0 then None
    else if s[0] == '\'' then Some(([], s[1..]))
    else if |s| < 2 then None
    else
      var hi :- HexValue(s[0]);
      var lo :- HexValue(s[1]);
      var (bs, rest) :- ParseHex(s[2..]);
      Some(([16 * hi + lo] + bs, rest))
  }

  /** Characters up to the closing double quote; a backslash protects the next character. */
  function ParseChars(s: string): (r: Parsed<string>)
    ensures r.Some? ==> |r.value.1| < |s|
  {
    if |s| == 0 then None
    else if s[0] == '"' then Some(("", s[1..]))
    else if s[0] == '\\' then
      if |s| < 2 then None else
        var (cs, rest) :- ParseChars(s[2..]);
        Some(([s[1]] + cs, rest))
    else
      var (cs, rest) :- ParseChars(s[1..]);
      Some(([s[0]] + cs, rest))
  }

  function ParseNat(s: string): (r: Parsed<nat>)
    ensures r.Some? ==> |r.value.1| < |s|
  {
    var k := DigitSpan(s);
    if k == 0 then None else Some((NatOf(s[..k]), s[k..]))
  }

  function ParseInt(s: string): (r: Parsed<int>)
    ensures r.Some? ==> |r.value.1| < |s|
  {
    if "-" <= s then
      var (n, rest) :- ParseNat(s[1..]);
      var m: int := -(n as int);
      Some((m, rest))
    else
      var (n, rest) :- ParseNat(s);
      var m: int := n;
      Some((m, rest))
  }

  function ParseItem(s: string): (r: Parsed<Item>)
    ensures r.Some? ==> |r.value.1| < |s|
    decreases |s|, 1
  {
    if |s| == 0 then None
    else if s[0] == '"' then
      var (cs, rest) :- ParseChars(s[1..]);
      Some((Tstr(cs), rest))
    else if "h'" <= s then
      var (bs, rest) :- ParseHex(s[2..]);
      Some((Bstr(bs), rest))
    else if "true" <= s then Some((Bool(true), s[4..]))
    else if "false" <= s then Some((Bool(false), s[5..]))
    else if "null" <= s then Some((Null, s[4..]))
    else if s[0] == '[' then
      if "]" <= s[1..] then Some((Array([]), s[2..])) else
        var (items, rest) :- ParseElements(s[1..]);
        Some((Array(items), rest))
    else if s[0] == '{' then
      var t := Skip(s[1..]);
      if "}" <= t then Some((Map([]), t[1..])) else
        var (entries, rest) :- ParseEntries(t);
        Some((Map(entries), rest))
    else
      var (n, rest) :- ParseInt(s);
      if n >= 0 && "(" <= rest then ParseTagged(n, rest[1..]) else Some((Int(n), rest))
  }

  /** What follows `n(`. */
  function ParseTagged(n: nat, s: string): (r: Parsed<Item>)
    ensures r.Some? ==> |r.value.1| < |s|
    decreases |s|, 2
  {
    if n == 1 then
      var (secs, rest) :- ParseInt(s);
      var rest :- Expect(rest, ")");
      Some((Time(1000000 * secs), rest))
    else if n == 18 && "[\n" <= s then ParseSign1(s[2..])
    else
      var (v, rest) :- ParseItem(s);
      var rest :- Expect(rest, ")");
      Some((Tag(n, v), rest))
  }

  /** What follows `18([` and a line break. */
  function ParseSign1(s: string): (r: Parsed<Item>)
    ensures r.Some? ==> |r.value.1| < |s|
    decreases |s|, 3
  {
    var (prot, s) :- ParseLine(s, "/ protected / << ", " >>,\n");
    var (unp, s) :- ParseLine(s, "/ unprotected / ", ",\n");
    var (payload, s) :- ParseLine(s, "/ payload / << ", " >>,\n");
    var (sig, s) :- ParseSignature(s);
    Some((Sign1(prot, unp, payload, sig), s))
  }

  function ParseSignature(s: string): (r: Parsed<Bytes>)
    ensures r.Some? ==> |r.value.1| < |s|
  {
    var s :- Expect(Skip(s), "/ signature / h'");
    var (sig, s) :- ParseHex(s);
    var s :- Expect(Skip(s), "])");
    Some((sig, s))
  }

  function ParseLine(s: string, title: string, close: string): (r: Parsed<Item>)
    ensures r.Some? ==> |r.value.1| < |s|
    decreases |s|, 2
  {
    var s :- Expect(Skip(s), title);
    var (v, s) :- ParseItem(s);
    var s :- Expect(s, close);
    Some((v, s))
  }

  /** One or more elements and the closing bracket. */
  function ParseElements(s: string): (r: Parsed<seq<Item>>)
    ensures r.Some? ==> |r.value.1| < |s|
    decreases |s|, 2
  {
    var (item, rest) :- ParseItem(s);
    if "]" <= rest then Some(([item], rest[1..])) else
      var rest :- Expect(rest, ", ");
      var (items, rest) :- ParseElements(rest);
      Some(([item] + items, rest))
  }

  /** One or more entries and the closing brace. */
  function ParseEntries(s: string): (r: Parsed<seq<Entry>>)
    ensures r.Some? ==> |r.value.1| < |s|
    decreases |s|, 2
  {
    var (key, rest) :- ParseItem(s);
    var rest :- Expect(rest, ": ");
    var (val, rest) :- ParseItem(rest);
    if "," <= rest then
      var (entries, rest) :- ParseEntries(Skip(rest[1..]));
      Some(([Entry(key, val)] + entries, rest))
    else
      var rest :- Expect(Skip(rest), "}");
      Some(([Entry(key, val)], rest))
  }

  // ---- The parser undoes the printer ----

  /** What printing keeps of an item: everything but the sub-second part of a time. */
  function Printed(o: Item): Item
    decreases o, 1
  {
    match o
    case Time(m) => Time(1000000 * Seconds(m))
    case Tag(t, v) => Tag(t, Printed(v))
    case Array(items) => Array(PrintedList(items))
    case Map(entries) => Map(PrintedEntries(entries))
    case Sign1(prot, unp, payload, sig) => Sign1(Printed(prot), Printed(unp), Printed(payload), sig)
    case _ => o
  }

  function PrintedList(items: seq<Item>): (r: seq<Item>)
    ensures |r| == |items|
    decreases items, 0
  {
    if |items| == 0 then [] else [Printed(items[0])] + PrintedList(items[1..])
  }

  function PrintedEntries(es: seq<Entry>): (r: seq<Entry>)
    ensures |r| == |es|
    decreases es, 0
  {
    if |es| == 0 then [] else [PrintedEntry(es[0])] + PrintedEntries(es[1..])
  }

  function PrintedEntry(e: Entry): Entry
    decreases e, 0
  {
    Entry(Printed(e.key), Printed(e.val))
  }

  /** Text that cannot be mistaken for the continuation of a numeral or the start of a tag's content. */
  predicate Closes(rest: string) {
    rest == "" || (!IsDigit(rest[0]) && rest[0] != '(')
  }

  lemma ReplaceAppend(a: string, b: string, c: char, sub: string)
    ensures Replace(a + b, c, sub) == Replace(a, c, sub) + Replace(b, c, sub)
  {
    if a == "" {
      assert a + b == b;
    } else {
      assert (a + b)[1..] == a[1..] + b;
      ReplaceAppend(a[1..], b, c, sub);
    }
  }

  function Escaped(c: char): string {
    if c == '\\' || c == '"' then ['\\', c] else [c]
  }

  lemma EscapedTwice(c: char)
    ensures Replace(if c == '\\' then "\\\\" else [c], '"', "\\\"") == Escaped(c)
  {
    if c == '\\' {
      assert "\\\\"[1..] == "\\" && "\\"[1..] == "";
    }
  }

  /** The two successive replacements escape each character once, on its own. */
  lemma EscapeStep(s: string)
    requires s != ""
    ensures Quote(s) == "\"" + (Escaped(s[0]) + Quote(s[1..])[1..])
  {
    var first := if s[0] == '\\' then "\\\\" else [s[0]];
    var tail := Replace(s[1..], '\\', "\\\\");
    assert Replace(s, '\\', "\\\\") == first + tail;
    hide Replace, Escaped;
    ReplaceAppend(first, tail, '"', "\\\"");
    EscapedTwice(s[0]);
    var rest := Replace(tail, '"', "\\\"");
    Assoc("\"", Escaped(s[0]) + rest, "\"");
    Assoc(Escaped(s[0]), rest, "\"");
    assert Quote(s[1..])[1..] == rest + "\"";
  }

  lemma {:induction false} CharsRoundTrip(s: string, rest: string)
    ensures ParseChars(Quote(s)[1..] + rest) == Some((s, rest))
  {
    if s == "" {
      assert Quote(s)[1..] + rest == "\"" + rest;
    } else {
      EscapeStep(s);
      CharsRoundTrip(s[1..], rest);
      var head := Escaped(s[0]);
      var text := Quote(s)[1..] + rest;
      assert text == head + (Quote(s[1..])[1..] + rest);
      assert text[|head|..] == Quote(s[1..])[1..] + rest;
      assert [s[0]] + s[1..] == s;
    }
  }

  lemma {:induction false} HexRoundTrip(b: Bytes, rest: string)
    ensures ParseHex(Hex(b) + "'" + rest) == Some((b, rest))
  {
    hide HexChar, HexValue;
    var text := Hex(b) + "'" + rest;
    if b == [] {
      assert text == "'" + rest;
    } else {
      HexRoundTrip(b[1..], rest);
      assert text[2..] == Hex(b[1..]) + "'" + rest;
      HexDigit(b[0] / 16);
      HexDigit(b[0] % 16);
      assert [b[0]] + b[1..] == b;
    }
  }

  lemma NatRoundTrip(n: nat, rest: string)
    requires rest == "" || !IsDigit(rest[0])
    ensures ParseNat(Dec(n) + rest) == Some((n, rest))
  {
    SpanOfRun(Dec(n), rest);
    NatOfDec(n);
  }

  lemma StrStarts(n: int)
    ensures Str(n) != "" && (Str(n)[0] == '-' || IsDigit(Str(n)[0]))
  {
  }

  lemma IntRoundTrip(n: int, rest: string)
    requires rest == "" || !IsDigit(rest[0])
    ensures ParseInt(Str(n) + rest) == Some((n, rest))
  {
    hide ParseNat;
    if n < 0 {
      var t := Dec(-n) + rest;
      NatRoundTrip(-n, rest);
      assert Str(n) + rest == "-" + t;
      assert ("-" + t)[1..] == t;
    } else {
      NatRoundTrip(n, rest);
      StrStarts(n);
      assert (Dec(n) + rest)[0] == Dec(n)[0];
    }
  }

  lemma SkipPad(ind: nat, s: string)
    ensures Skip(Pad(ind) + s) == Skip(s)
  {
    if ind == 0 {
      assert Pad(ind) + s == s;
    } else {
      var t := Pad(ind - 1) + s;
      assert Pad(ind) + s == "  " + t;
      assert ("  " + t)[1..][1..] == t;
      SkipPad(ind - 1, s);
    }
  }

  lemma ExpectAppend(lit: string, s: string)
    ensures Expect(lit + s, lit) == Some(s)
  {
  }

  /** No item's text starts with white space or with a closing bracket. */
  lemma Starts(o: Item, ind: nat)
    ensures Diag(o, ind) != ""
    ensures Diag(o, ind)[0] !in {' ', '\n', ']', '}', ','}
  {
    match o
    case Int(n) => StrStarts(n);
    case Tag(t, v) => assert Diag(o, ind)[0] == Dec(t)[0];
    case _ =>
  }

  lemma NumericDispatch(n: int, rest: string)
    requires rest == "" || !IsDigit(rest[0])
    ensures ParseItem(Str(n) + rest) ==
            if n >= 0 && "(" <= rest then ParseTagged(n, rest[1..]) else Some((Int(n), rest))
  {
    hide ParseElements, ParseEntries, ParseChars, ParseHex, ParseInt, ParseTagged, Skip;
    var s := Str(n) + rest;
    IntRoundTrip(n, rest);
    StrStarts(n);
    assert s[0] == Str(n)[0];
  }

  lemma QuotedRoundTrip(text: string, ind: nat, rest: string)
    ensures ParseItem(Diag(Tstr(text), ind) + rest) == Some((Tstr(text), rest))
  {
    CharsRoundTrip(text, rest);
    assert (Quote(text) + rest)[1..] == Quote(text)[1..] + rest;
  }

  lemma BytesRoundTrip(b: Bytes, ind: nat, rest: string)
    ensures ParseItem(Diag(Bstr(b), ind) + rest) == Some((Bstr(b), rest))
  {
    HexRoundTrip(b, rest);
    var t := Hex(b) + "'" + rest;
    var s := Diag(Bstr(b), ind) + rest;
    assert s == "h'" + t;
    assert s[0] == 'h' && s[2..] == t;
  }

  lemma TimeRoundTrip(m: int, ind: nat, rest: string)
    ensures ParseItem(Diag(Time(m), ind) + rest) == Some((Time(1000000 * Seconds(m)), rest))
  {
    var inner := Str(Seconds(m)) + (")" + rest);
    assert Diag(Time(m), ind) + rest == Str(1) + ("(" + inner);
    NumericDispatch(1, "(" + inner);
    assert ("(" + inner)[1..] == inner;
    IntRoundTrip(Seconds(m), ")" + rest);
    ExpectAppend(")", rest);
  }

  lemma SkipStop(ind: nat, s: string)
    requires s != "" && s[0] != ' ' && s[0] != '\n'
    ensures Skip(s) == s
    ensures Skip(Pad(ind) + ("  " + s)) == s
    ensures Skip(Pad(ind) + s) == s
  {
    SkipPad(ind, "  " + s);
    SkipPad(ind, s);
    SkipPad(1, s);
    assert Pad(1) + s == "  " + s;
  }

  lemma SkipLineBreak(s: string)
    ensures Skip("\n" + s) == Skip(s)
  {
    assert ("\n" + s)[1..] == s;
  }

  lemma LineAppend(ind: nat, title: string, text: string, close: string, t: string)
    ensures Line(ind, title, text, close) + t == Pad(ind) + ("  " + (title + (text + (close + t))))
  {
    Assoc(Pad(ind), "  " + (title + (text + close)), t);
    Assoc("  ", title + (text + close), t);
    Assoc(title, text + close, t);
    Assoc(text, close, t);
  }

  lemma LabelFound(ind: nat, title: string, t: string)
    requires title != "" && title[0] == '/'
    ensures Expect(Skip(Pad(ind) + ("  " + (title + t))), title) == Some(t)
  {
    var s := title + t;
    assert s[0] == '/';
    SkipStop(ind, s);
    ExpectAppend(title, t);
  }

  lemma {:induction false} RoundTrip(o: Item, ind: nat, rest: string)
    requires Wf(o) && Closes(rest)
    ensures ParseItem(Diag(o, ind) + rest) == Some((Printed(o), rest))
    decreases o, 3
  {
    match o
    case Int(n) => NumericDispatch(n, rest);
    case Bstr(b) => BytesRoundTrip(b, ind, rest);
    case Tstr(text) => QuotedRoundTrip(text, ind, rest);
    case Bool(b) => WordsRoundTrip(rest);
    case Null => WordsRoundTrip(rest);
    case Time(m) => TimeRoundTrip(m, ind, rest);
    case Tag(t, v) => TagRoundTrip(t, v, ind, rest);
    case Array(items) => ArrayRoundTrip(items, ind, rest);
    case Map(entries) => MapRoundTrip(entries, ind, rest);
    case Sign1(prot, unp, payload, sig) => Sign1RoundTrip(prot, unp, payload, sig, ind, rest);
  }

  lemma WordsRoundTrip(rest: string)
    ensures ParseItem("true" + rest) == Some((Bool(true), rest))
    ensures ParseItem("false" + rest) == Some((Bool(false), rest))
    ensures ParseItem("null" + rest) == Some((Null, rest))
  {
    assert ("true" + rest)[0] == 't' && ("true" + rest)[4..] == rest;
    assert ("false" + rest)[0] == 'f' && ("false" + rest)[5..] == rest;
    assert ("null" + rest)[0] == 'n' && ("null" + rest)[4..] == rest;
  }

  lemma {:induction false} TagRoundTrip(t: nat, v: Item, ind: nat, rest: string)
    requires Wf(Tag(t, v)) && Closes(rest)
    ensures ParseItem(Diag(Tag(t, v), ind) + rest) == Some((Printed(Tag(t, v)), rest))
    decreases Tag(t, v), 2
  {
    var d := Diag(v, ind);
    var inner := d + (")" + rest);
    TagText(t, d, rest);
    NumericDispatch(t, "(" + inner);
    assert ("(" + inner)[1..] == inner;
    NotSign1(v, ind, ")" + rest);
    RoundTrip(v, ind, ")" + rest);
    ExpectAppend(")", rest);
  }

  lemma TagText(t: nat, d: string, rest: string)
    ensures Dec(t) + "(" + d + ")" + rest == Str(t) + ("(" + (d + (")" + rest)))
  {
    Assoc(Dec(t) + "(" + d, ")", rest);
    Assoc(Dec(t) + "(", d, ")" + rest);
    Assoc(Dec(t), "(", d + (")" + rest));
  }

  /** A plain array never opens with a line break, so tag 18 over one is not read as a COSE_Sign1. */
  lemma NotSign1(v: Item, ind: nat, rest: string)
    ensures !("[\n" <= Diag(v, ind) + rest)
  {
    Starts(v, ind);
    var s := Diag(v, ind) + rest;
    assert s[0] == Diag(v, ind)[0];
    match v
    case Array(items) =>
      if items != [] {
        Starts(items[0], ind);
        assert s[1] == DiagList(items, ind)[0] == Diag(items[0], ind)[0];
      } else {
        assert s[1] == ']';
      }
    case Int(n) => StrStarts(n);
    case Tag(t, _) =>
    case _ =>
  }

  lemma {:induction false} ArrayRoundTrip(items: seq<Item>, ind: nat, rest: string)
    requires Wf(Array(items)) && Closes(rest)
    ensures ParseItem(Diag(Array(items), ind) + rest) == Some((Printed(Array(items)), rest))
    decreases Array(items), 2
  {
    hide ParseElements, ParseEntries, ParseChars, ParseHex, ParseInt;
    var t := DiagList(items, ind) + ("]" + rest);
    Assoc("[" + DiagList(items, ind), "]", rest);
    Assoc("[", DiagList(items, ind), "]" + rest);
    var s := "[" + t;
    assert s[0] == '[' && s[1..] == t;
    if items == [] {
      assert s[2..] == rest;
    } else {
      ListRoundTrip(items, ind, rest);
    }
  }

  /** One element read off the front of `s`. */
  lemma ElementStep(s: string, item: Item, items: seq<Item>, t: string, rest: string)
    requires ParseItem(s) == Some((item, ", " + t))
    requires ParseElements(t) == Some((items, rest))
    ensures ParseElements(s) == Some(([item] + items, rest))
  {
    hide ParseItem, Expect;
    ExpectAppend(", ", t);
    assert (", " + t)[0] == ',';
  }

  lemma LastElement(s: string, item: Item, rest: string)
    requires ParseItem(s) == Some((item, "]" + rest))
    ensures ParseElements(s) == Some(([item], rest))
  {
    hide ParseItem;
    assert ("]" + rest)[1..] == rest;
  }

  lemma ListText(items: seq<Item>, ind: nat, close: string)
    requires items != []
    ensures DiagList(items, ind) + close ==
            Diag(items[0], ind) + (if |items| == 1 then close else ", " + (DiagList(items[1..], ind) + close))
    ensures Diag(items[0], ind) != "" && Diag(items[0], ind)[0] != ']'
    ensures !("]" <= DiagList(items, ind) + close)
  {
    Starts(items[0], ind);
    var first := Diag(items[0], ind);
    assert (DiagList(items, ind) + close)[0] == first[0];
    if |items| > 1 {
      var more := DiagList(items[1..], ind);
      Assoc(first + ", ", more, close);
      Assoc(first, ", ", more + close);
    }
  }

  lemma {:induction false} ListRoundTrip(items: seq<Item>, ind: nat, rest: string)
    requires items != [] && forall i :: 0 <= i < |items| ==> Wf(items[i])
    requires Closes(rest)
    ensures ParseElements(DiagList(items, ind) + ("]" + rest)) == Some((PrintedList(items), rest))
    ensures !("]" <= DiagList(items, ind) + ("]" + rest))
    decreases items, 4
  {
    hide ParseItem, ParseElements;
    ListText(items, ind, "]" + rest);
    if |items| == 1 {
      RoundTrip(items[0], ind, "]" + rest);
      assert PrintedList(items) == [Printed(items[0])];
      LastElement(Diag(items[0], ind) + ("]" + rest), Printed(items[0]), rest);
    } else {
      var t := DiagList(items[1..], ind) + ("]" + rest);
      RoundTrip(items[0], ind, ", " + t);
      ListRoundTrip(items[1..], ind, rest);
      ElementStep(Diag(items[0], ind) + (", " + t), Printed(items[0]), PrintedList(items[1..]), t, rest);
    }
  }

  lemma {:induction false} MapRoundTrip(entries: seq<Entry>, ind: nat, rest: string)
    requires Wf(Map(entries)) && Closes(rest)
    ensures ParseItem(Diag(Map(entries), ind) + rest) == Some((Printed(Map(entries)), rest))
    decreases Map(entries), 2
  {
    hide ParseElements, ParseEntries, ParseChars, ParseHex, ParseInt, Closing, Skip;
    var close := Closing(ind, rest);
    var t := DiagEntries(entries, ind) + close;
    MapText(entries, ind, rest);
    var s := "{" + ("\n" + t);
    assert s[0] == '{' && s[1..] == "\n" + t;
    SkipLineBreak(t);
    if entries == [] {
      assert t == close;
      ClosingFound(ind, rest);
    } else {
      EntriesRoundTrip(entries, ind, rest);
    }
  }

  /** What follows the last entry of a map. */
  function Closing(ind: nat, rest: string): string {
    "\n" + (Pad(ind) + ("}" + rest))
  }

  lemma MapText(entries: seq<Entry>, ind: nat, rest: string)
    ensures Diag(Map(entries), ind) + rest == "{" + ("\n" + (DiagEntries(entries, ind) + Closing(ind, rest)))
  {
    var d := DiagEntries(entries, ind);
    assert "{\n" == "{" + "\n";
    Assoc("{", "\n", d);
    Assoc("{" + ("\n" + d) + "\n" + Pad(ind), "}", rest);
    Assoc("{" + ("\n" + d) + "\n", Pad(ind), "}" + rest);
    Assoc("{" + ("\n" + d), "\n", Pad(ind) + ("}" + rest));
    Assoc("{", "\n" + d, Closing(ind, rest));
    Assoc("\n", d, Closing(ind, rest));
  }

  lemma ClosingFound(ind: nat, rest: string)
    ensures Skip(Closing(ind, rest)) == "}" + rest
    ensures Expect("}" + rest, "}") == Some(rest) && ("}" + rest)[1..] == rest
  {
    SkipLineBreak(Pad(ind) + ("}" + rest));
    SkipStop(ind, "}" + rest);
    ExpectAppend("}", rest);
  }

  /** One entry read off the front of `s`, the text of its key first; `more` is what follows its value. */
  ghost predicate EntryRead(s: string, e: Entry, more: string) {
    && !("}" <= s)
    && ParseItem(s).Some?
    && var (key, s1) := ParseItem(s).value;
    && key == e.key
    && Expect(s1, ": ").Some?
    && ParseItem(Expect(s1, ": ").value) == Some((e.val, more))
  }

  lemma EntryStep(s: string, e: Entry, es: seq<Entry>, t: string, rest: string)
    requires EntryRead(s, e, ",\n" + t)
    requires ParseEntries(Skip(t)) == Some((es, rest))
    ensures ParseEntries(s) == Some(([e] + es, rest))
  {
    hide ParseItem, Expect;
    CommaBreak(t);
    SkipLineBreak(t);
  }

  lemma CommaBreak(t: string)
    ensures "," <= ",\n" + t && (",\n" + t)[1..] == "\n" + t
  {
  }

  lemma LastEntry(s: string, e: Entry, ind: nat, rest: string)
    requires EntryRead(s, e, Closing(ind, rest))
    ensures ParseEntries(s) == Some(([e], rest))
  {
    hide ParseItem;
    ClosingFound(ind, rest);
  }

  lemma {:induction false} EntriesRoundTrip(es: seq<Entry>, ind: nat, rest: string)
    requires es != [] && forall i :: 0 <= i < |es| ==> Wf(es[i].key) && Wf(es[i].val)
    requires Closes(rest)
    ensures var s := Skip(DiagEntries(es, ind) + Closing(ind, rest));
            !("}" <= s) && ParseEntries(s) == Some((PrintedEntries(es), rest))
    decreases es, 4
  {
    var close := Closing(ind, rest);
    var e := DiagEntry(es[0], ind);
    if |es| == 1 {
      EntryRoundTrip(es[0], ind, close);
      assert PrintedEntries(es) == [PrintedEntry(es[0])];
      LastEntry(Skip(e + close), PrintedEntry(es[0]), ind, rest);
    } else {
      var t := DiagEntries(es[1..], ind) + close;
      Assoc(e + ",\n", DiagEntries(es[1..], ind), close);
      Assoc(e, ",\n", t);
      EntryRoundTrip(es[0], ind, ",\n" + t);
      EntriesRoundTrip(es[1..], ind, rest);
      EntryStep(Skip(e + (",\n" + t)), PrintedEntry(es[0]), PrintedEntries(es[1..]), t, rest);
    }
  }

  lemma EntryText(key: string, val: string, ind: nat, more: string)
    requires key != "" && key[0] !in {' ', '\n'}
    ensures Skip(Pad(ind) + ("  " + (key + (": " + val))) + more) == key + (": " + (val + more))
  {
    Assoc(Pad(ind), "  " + (key + (": " + val)), more);
    Assoc("  ", key + (": " + val), more);
    Assoc(key, ": " + val, more);
    Assoc(": ", val, more);
    assert (key + (": " + (val + more)))[0] == key[0];
    SkipStop(ind, key + (": " + (val + more)));
  }

  lemma {:induction false} EntryRoundTrip(e: Entry, ind: nat, more: string)
    requires Wf(e.key) && Wf(e.val) && Closes(more)
    ensures EntryRead(Skip(DiagEntry(e, ind) + more), PrintedEntry(e), more)
    decreases e, 0
  {
    var t := Diag(e.val, ind + 1) + more;
    Starts(e.key, 0);
    EntryText(Diag(e.key, 0), Diag(e.val, ind + 1), ind, more);
    RoundTrip(e.key, 0, ": " + t);
    RoundTrip(e.val, ind + 1, more);
    ExpectAppend(": ", t);
  }

  lemma {:induction false} LineRoundTrip(o: Item, deep: nat, ind: nat, title: string, close: string, t: string)
    requires Wf(o) && title != "" && title[0] == '/'
    requires close != "" && (close[0] == ' ' || close[0] == ',')
    ensures ParseLine(Line(ind, title, Diag(o, deep), close) + t, title, close) == Some((Printed(o), t))
    decreases o, 4
  {
    LineAppend(ind, title, Diag(o, deep), close, t);
    LabelFound(ind, title, Diag(o, deep) + (close + t));
    assert (close + t)[0] == close[0];
    RoundTrip(o, deep, close + t);
    ExpectAppend(close, t);
  }

  lemma SignatureFound(sig: Bytes, ind: nat, rest: string)
    ensures ParseSignature(Line(ind, "/ signature / h'", Hex(sig), "'\n") + (Pad(ind) + ("])" + rest)))
            == Some((sig, rest))
  {
    var end := Pad(ind) + ("])" + rest);
    LineAppend(ind, "/ signature / h'", Hex(sig), "'\n", end);
    LabelFound(ind, "/ signature / h'", Hex(sig) + ("'\n" + end));
    SignatureClosed(sig, ind, rest);
  }

  lemma SignatureClosed(sig: Bytes, ind: nat, rest: string)
    ensures ParseHex(Hex(sig) + ("'\n" + (Pad(ind) + ("])" + rest)))) == Some((sig, "\n" + (Pad(ind) + ("])" + rest))))
    ensures Expect(Skip("\n" + (Pad(ind) + ("])" + rest))), "])") == Some(rest)
  {
    var end := Pad(ind) + ("])" + rest);
    assert "'\n" == "'" + "\n";
    Assoc("'", "\n", end);
    Assoc(Hex(sig), "'", "\n" + end);
    HexRoundTrip(sig, "\n" + end);
    SkipLineBreak(end);
    SkipStop(ind, "])" + rest);
    ExpectAppend("])", rest);
  }

  /** The text of a COSE_Sign1 with what follows it pushed inside. */
  lemma Sign1Text(l1: string, l2: string, l3: string, l4: string, pad: string, rest: string)
    ensures ("18([\n" + (l1 + (l2 + (l3 + (l4 + (pad + "])")))))) + rest
         == "18" + ("(" + ("[\n" + (l1 + (l2 + (l3 + (l4 + (pad + ("])" + rest))))))))
  {
    var t4 := l4 + (pad + "])");
    var t3 := l3 + t4;
    var t2 := l2 + t3;
    var t1 := l1 + t2;
    Assoc("18([\n", t1, rest);
    Assoc(l1, t2, rest);
    Assoc(l2, t3, rest);
    Assoc(l3, t4, rest);
    Assoc(l4, pad + "])", rest);
    Assoc(pad, "])", rest);
    assert "18([\n" == "18" + ("(" + "[\n");
    Assoc("18", "(" + "[\n", t1 + rest);
    Assoc("(", "[\n", t1 + rest);
  }

  /** The four lines read off one after the other. */
  lemma Sign1Lines(t1: string, t2: string, t3: string, t4: string, prot: Item, unp: Item, payload: Item, sig: Bytes,
                   rest: string)
    requires ParseLine(t1, "/ protected / << ", " >>,\n") == Some((prot, t2))
    requires ParseLine(t2, "/ unprotected / ", ",\n") == Some((unp, t3))
    requires ParseLine(t3, "/ payload / << ", " >>,\n") == Some((payload, t4))
    requires ParseSignature(t4) == Some((sig, rest))
    ensures ParseSign1(t1) == Some((Sign1(prot, unp, payload, sig), rest))
  {
  }

  lemma {:induction false} Sign1RoundTrip(prot: Item, unp: Item, payload: Item, sig: Bytes, ind: nat, rest: string)
    requires Wf(prot) && Wf(unp) && Wf(payload)
    ensures ParseItem(DiagSign1(Sign1(prot, unp, payload, sig), ind) + rest)
         == Some((Sign1(Printed(prot), Printed(unp), Printed(payload), sig), rest))
    decreases Sign1(prot, unp, payload, sig), 1
  {
    var l1 := Line(ind, "/ protected / << ", Diag(prot, 0), " >>,\n");
    var l2 := Line(ind, "/ unprotected / ", Diag(unp, 0), ",\n");
    var l3 := Line(ind, "/ payload / << ", Diag(payload, ind + 1), " >>,\n");
    var l4 := Line(ind, "/ signature / h'", Hex(sig), "'\n");
    var t4 := l4 + (Pad(ind) + ("])" + rest));
    Sign1Body(prot, unp, payload, sig, ind, rest, l2 + (l3 + t4), l3 + t4, t4);
    Sign1Text(l1, l2, l3, l4, Pad(ind), rest);
    Sign1Dispatch(l1 + (l2 + (l3 + t4)));
  }

  lemma {:induction false} Sign1Body(prot: Item, unp: Item, payload: Item, sig: Bytes, ind: nat, rest: string,
                                     t2: string, t3: string, t4: string)
    requires Wf(prot) && Wf(unp) && Wf(payload)
    requires t2 == Line(ind, "/ unprotected / ", Diag(unp, 0), ",\n") + t3
    requires t3 == Line(ind, "/ payload / << ", Diag(payload, ind + 1), " >>,\n") + t4
    requires t4 == Line(ind, "/ signature / h'", Hex(sig), "'\n") + (Pad(ind) + ("])" + rest))
    ensures ParseSign1(Line(ind, "/ protected / << ", Diag(prot, 0), " >>,\n") + t2)
         == Some((Sign1(Printed(prot), Printed(unp), Printed(payload), sig), rest))
    decreases Sign1(prot, unp, payload, sig), 0
  {
    hide ParseLine, ParseSign1, ParseSignature, Line, Hex;
    LineRoundTrip(prot, 0, ind, "/ protected / << ", " >>,\n", t2);
    LineRoundTrip(unp, 0, ind, "/ unprotected / ", ",\n", t3);
    LineRoundTrip(payload, ind + 1, ind, "/ payload / << ", " >>,\n", t4);
    SignatureFound(sig, ind, rest);
    var t1 := Line(ind, "/ protected / << ", Diag(prot, 0), " >>,\n") + t2;
    Sign1Lines(t1, t2, t3, t4, Printed(prot), Printed(unp), Printed(payload), sig, rest);
  }

  lemma Sign1Dispatch(t: string)
    ensures ParseItem("18" + ("(" + ("[\n" + t))) == ParseSign1(t)
  {
    var body := "[\n" + t;
    assert Str(18) == "18";
    NumericDispatch(18, "(" + body);
    assert ("(" + body)[1..] == body;
    assert body[2..] == t;
  }

  // ---- Main results ----

  /** The notation has one reading: the whole text of an item parses back to the item it prints. */
  lemma DiagRoundTrip(o: Item, ind: nat)
    requires Wf(o)
    ensures ParseItem(Diag(o, ind)) == Some((Printed(o), ""))
  {
    RoundTrip(o, ind, "");
    assert Diag(o, ind) + "" == Diag(o, ind);
  }

  /** The time lies in whole second `s`, counted toward zero: fractions after the epoch round down, before it up. */
  predicate InSecond(micros: int, s: int) {
    if s > 0 then 1000000 * s <= micros < 1000000 * s + 1000000
    else if s < 0 then 1000000 * s - 1000000 < micros <= 1000000 * s
    else -1000000 < micros < 1000000
  }

  ghost predicate SameSecond(m: int, n: int) {
    exists s :: InSecond(m, s) && InSecond(n, s)
  }

  /** The same items throughout, times in the same second. */
  ghost predicate Alike(o: Item, p: Item)
    decreases o, 1
  {
    match o
    case Time(m) => p.Time? && SameSecond(m, p.micros)
    case Tag(t, v) => p.Tag? && p.tag == t && Alike(v, p.inner)
    case Array(items) => p.Array? && AlikeList(items, p.items)
    case Map(entries) => p.Map? && AlikeEntries(entries, p.entries)
    case Sign1(prot, unp, payload, sig) =>
      p.Sign1? && Alike(prot, p.prot) && Alike(unp, p.unprot) && Alike(payload, p.payload) && sig == p.sig
    case _ => o == p
  }

  ghost predicate AlikeList(xs: seq<Item>, ys: seq<Item>)
    decreases xs, 0
  {
    |xs| == |ys| && (|xs| == 0 || (Alike(xs[0], ys[0]) && AlikeList(xs[1..], ys[1..])))
  }

  ghost predicate AlikeEntries(xs: seq<Entry>, ys: seq<Entry>)
    decreases xs, 0
  {
    |xs| == |ys| && (|xs| == 0 || (AlikeEntry(xs[0], ys[0]) && AlikeEntries(xs[1..], ys[1..])))
  }

  ghost predicate AlikeEntry(x: Entry, y: Entry)
    decreases x, 0
  {
    Alike(x.key, y.key) && Alike(x.val, y.val)
  }

  lemma SecondOf(m: int, s: int)
    ensures InSecond(m, s) <==> Seconds(m) == s
  {
  }

  lemma SameSecondIff(m: int, n: int)
    ensures SameSecond(m, n) <==> Seconds(m) == Seconds(n)
  {
    SecondOf(m, Seconds(m));
    SecondOf(n, Seconds(m));
    if s :| InSecond(m, s) && InSecond(n, s) {
      SecondOf(m, s);
      SecondOf(n, s);
    }
  }

  lemma {:induction false} AlikeIffPrinted(o: Item, p: Item)
    ensures Alike(o, p) <==> Printed(o) == Printed(p)
    decreases o, 1
  {
    match o
    case Time(m) =>
      if p.Time? {
        SameSecondIff(m, p.micros);
      }
    case Tag(t, v) =>
      if p.Tag? {
        AlikeIffPrinted(v, p.inner);
      }
    case Array(items) =>
      if p.Array? {
        AlikeListIffPrinted(items, p.items);
      }
    case Map(entries) =>
      if p.Map? {
        AlikeEntriesIffPrinted(entries, p.entries);
      }
    case Sign1(prot, unp, payload, sig) =>
      if p.Sign1? {
        AlikeIffPrinted(prot, p.prot);
        AlikeIffPrinted(unp, p.unprot);
        AlikeIffPrinted(payload, p.payload);
      }
    case _ =>
  }

  lemma {:induction false} AlikeListIffPrinted(xs: seq<Item>, ys: seq<Item>)
    ensures AlikeList(xs, ys) <==> PrintedList(xs) == PrintedList(ys)
    decreases xs, 0
  {
    if |xs| == 0 || |xs| != |ys| {
    } else {
      AlikeIffPrinted(xs[0], ys[0]);
      AlikeListIffPrinted(xs[1..], ys[1..]);
      hide Printed, Alike;
      ConsEqual(Printed(xs[0]), PrintedList(xs[1..]), Printed(ys[0]), PrintedList(ys[1..]));
    }
  }

  lemma {:induction false} AlikeEntriesIffPrinted(xs: seq<Entry>, ys: seq<Entry>)
    ensures AlikeEntries(xs, ys) <==> PrintedEntries(xs) == PrintedEntries(ys)
    decreases xs, 0
  {
    if |xs| == 0 || |xs| != |ys| {
    } else {
      AlikeEntryIffPrinted(xs[0], ys[0]);
      AlikeEntriesIffPrinted(xs[1..], ys[1..]);
      hide PrintedEntry, AlikeEntry;
      ConsEqual(PrintedEntry(xs[0]), PrintedEntries(xs[1..]), PrintedEntry(ys[0]), PrintedEntries(ys[1..]));
    }
  }

  lemma {:induction false} AlikeEntryIffPrinted(x: Entry, y: Entry)
    ensures AlikeEntry(x, y) <==> PrintedEntry(x) == PrintedEntry(y)
    decreases x, 0
  {
    AlikeIffPrinted(x.key, y.key);
    AlikeIffPrinted(x.val, y.val);
  }

  lemma ConsEqual<T>(x: T, xs: seq<T>, y: T, ys: seq<T>)
    ensures [x] + xs == [y] + ys <==> x == y && xs == ys
  {
    if [x] + xs == [y] + ys {
      assert ([x] + xs)[0] == x && ([y] + ys)[0] == y;
      assert ([x] + xs)[1..] == xs && ([y] + ys)[1..] == ys;
    }
  }

  /** Two items print alike exactly when they are the same throughout, times in the same second. */
  lemma PrintAlike(o: Item, p: Item, ind: nat)
    requires Wf(o) && Wf(p)
    ensures Diag(o, ind) == Diag(p, ind) <==> Alike(o, p)
  {
    AlikeIffPrinted(o, p);
    DiagRoundTrip(o, ind);
    DiagRoundTrip(p, ind);
    PrintedPrints(o, ind);
    PrintedPrints(p, ind);
  }

  /** What is read back is alike what was printed, and it is the item itself where no time in it has a fraction. */
  lemma ReadBackAlike(o: Item, ind: nat)
    requires Wf(o)
    ensures ParseItem(Diag(o, ind)).Some?
    ensures var (back, rest) := ParseItem(Diag(o, ind)).value;
            rest == "" && Alike(o, back) && (WholeTimes(o) ==> back == o)
  {
    DiagRoundTrip(o, ind);
    PrintedTwice(o);
    AlikeIffPrinted(o, Printed(o));
    if WholeTimes(o) {
      WholeIsPrinted(o);
    }
  }

  /** No time has a fraction of a second. */
  predicate WholeTimes(o: Item)
    decreases o, 1
  {
    match o
    case Time(m) => m % 1000000 == 0
    case Tag(_, v) => WholeTimes(v)
    case Array(items) => forall i :: 0 <= i < |items| ==> WholeTimes(items[i])
    case Map(entries) => forall i :: 0 <= i < |entries| ==> WholeTimes(entries[i].key) && WholeTimes(entries[i].val)
    case Sign1(prot, unp, payload, _) => WholeTimes(prot) && WholeTimes(unp) && WholeTimes(payload)
    case _ => true
  }

  lemma {:induction false} WholeIsPrinted(o: Item)
    requires WholeTimes(o)
    ensures Printed(o) == o
    decreases o, 1
  {
    match o
    case Time(m) => assert m == 1000000 * (m / 1000000);
    case Tag(_, v) => WholeIsPrinted(v);
    case Array(items) => WholeListIsPrinted(items);
    case Map(entries) => WholeEntriesArePrinted(entries);
    case Sign1(prot, unp, payload, _) =>
      WholeIsPrinted(prot);
      WholeIsPrinted(unp);
      WholeIsPrinted(payload);
    case _ =>
  }

  lemma {:induction false} WholeListIsPrinted(items: seq<Item>)
    requires forall i :: 0 <= i < |items| ==> WholeTimes(items[i])
    ensures PrintedList(items) == items
    decreases items, 0
  {
    if items == [] {
    } else {
      WholeIsPrinted(items[0]);
      WholeListIsPrinted(items[1..]);
    }
  }

  lemma {:induction false} WholeEntriesArePrinted(es: seq<Entry>)
    requires forall i :: 0 <= i < |es| ==> WholeTimes(es[i].key) && WholeTimes(es[i].val)
    ensures PrintedEntries(es) == es
    decreases es, 0
  {
    if es == [] {
    } else {
      WholeEntryIsPrinted(es[0]);
      WholeEntriesArePrinted(es[1..]);
    }
  }

  lemma {:induction false} WholeEntryIsPrinted(e: Entry)
    requires WholeTimes(e.key) && WholeTimes(e.val)
    ensures PrintedEntry(e) == e
    decreases e, 0
  {
    WholeIsPrinted(e.key);
    WholeIsPrinted(e.val);
  }

  lemma PrintedTwice(o: Item)
    ensures Printed(Printed(o)) == Printed(o)
  {
    PrintedIsWhole(o);
    WholeIsPrinted(Printed(o));
  }

  lemma {:induction false} PrintedIsWhole(o: Item)
    ensures WholeTimes(Printed(o))
    decreases o, 1
  {
    match o
    case Tag(_, v) => PrintedIsWhole(v);
    case Array(items) => PrintedListIsWhole(items);
    case Map(entries) => PrintedEntriesAreWhole(entries);
    case Sign1(prot, unp, payload, _) =>
      PrintedIsWhole(prot);
      PrintedIsWhole(unp);
      PrintedIsWhole(payload);
    case _ =>
  }

  lemma {:induction false} PrintedListIsWhole(items: seq<Item>)
    ensures forall i :: 0 <= i < |items| ==> WholeTimes(PrintedList(items)[i])
    decreases items, 0
  {
    if items == [] {
    } else {
      PrintedIsWhole(items[0]);
      PrintedListIsWhole(items[1..]);
    }
  }

  lemma {:induction false} PrintedEntriesAreWhole(es: seq<Entry>)
    ensures forall i :: 0 <= i < |es| ==> WholeTimes(PrintedEntries(es)[i].key) && WholeTimes(PrintedEntries(es)[i].val)
    decreases es, 0
  {
    if es == [] {
    } else {
      PrintedEntryIsWhole(es[0]);
      PrintedEntriesAreWhole(es[1..]);
    }
  }

  lemma {:induction false} PrintedEntryIsWhole(e: Entry)
    ensures WholeTimes(PrintedEntry(e).key) && WholeTimes(PrintedEntry(e).val)
    decreases e, 0
  {
    PrintedIsWhole(e.key);
    PrintedIsWhole(e.val);
  }

  /** The second that is printed. */
  lemma TimeText(s: nat, f: nat, ind: nat)
    requires f < 1000000
    ensures Diag(Time(1000000 * s + f), ind) == "1(" + Str(s) + ")"
    ensures Diag(Time(-(1000000 * s + f)), ind) == "1(" + Str(0 - s) + ")"
  {
    assert (1000000 * s + f) / 1000000 == s;
  }

  /** Times a second or more apart print differently, unless both lie within a second of the epoch. */
  lemma FarTimesDiffer(m: int, n: int, ind: nat)
    requires m - n >= 1000000 && !(-1000000 < n && m < 1000000)
    ensures Diag(Time(m), ind) != Diag(Time(n), ind)
  {
    PrintAlike(Time(m), Time(n), ind);
  }

  /** There rounding toward zero folds two seconds into one. */
  lemma EpochPrintsAlike()
    ensures Diag(Time(900000), 0) == Diag(Time(-900000), 0) == "1(0)"
  {
    TimeText(0, 900000, 0);
  }

  lemma {:induction false} PrintedPrints(o: Item, ind: nat)
    ensures Diag(Printed(o), ind) == Diag(o, ind)
    decreases o, 1
  {
    match o
    case Tag(_, v) => PrintedPrints(v, ind);
    case Array(items) => PrintedListPrints(items, ind);
    case Map(entries) => PrintedEntriesPrint(entries, ind);
    case Sign1(prot, unp, payload, _) =>
      PrintedPrints(prot, 0);
      PrintedPrints(unp, 0);
      PrintedPrints(payload, ind + 1);
    case _ =>
  }

  lemma {:induction false} PrintedListPrints(items: seq<Item>, ind: nat)
    ensures DiagList(PrintedList(items), ind) == DiagList(items, ind)
    decreases items, 0
  {
    if items == [] {
    } else {
      PrintedPrints(items[0], ind);
      PrintedListPrints(items[1..], ind);
      assert PrintedList(items)[1..] == PrintedList(items[1..]);
    }
  }

  lemma {:induction false} PrintedEntriesPrint(es: seq<Entry>, ind: nat)
    ensures DiagEntries(PrintedEntries(es), ind) == DiagEntries(es, ind)
    decreases es, 0
  {
    if es == [] {
    } else {
      var e := es[0];
      PrintedEntryPrints(e, ind);
      PrintedEntriesPrint(es[1..], ind);
      assert PrintedEntries(es)[1..] == PrintedEntries(es[1..]);
    }
  }

  lemma {:induction false} PrintedEntryPrints(e: Entry, ind: nat)
    ensures DiagEntry(PrintedEntry(e), ind) == DiagEntry(e, ind)
    decreases e, 0
  {
    PrintedPrints(e.key, 0);
    PrintedPrints(e.val, ind + 1);
  }

  /** Fractional seconds are the one thing printing loses. */
  lemma FractionsPrintAlike()
    ensures Time(1200000) != Time(1900000) && Diag(Time(1200000), 0) == Diag(Time(1900000), 0)
  {
  }

  // ---- Layout ----

  function Blanks(n: nat): (s: string)
    ensures |s| == n && forall i :: 0 <= i < n ==> s[i] == ' '
  {
    seq(n, _ => ' ')
  }

  lemma {:induction false} PadIsBlanks(ind: nat)
    ensures Pad(ind) == Blanks(2 * ind)
  {
    if ind == 0 {
    } else {
      PadIsBlanks(ind - 1);
      assert "  " + Blanks(2 * ind - 2) == Blanks(2 * ind);
    }
  }

  lemma DeeperBlanks(ind: nat, rest: string)
    ensures Pad(ind) + ("  " + rest) == Blanks(2 * ind + 2) + rest
  {
    PadIsBlanks(ind);
    Assoc(Blanks(2 * ind), "  ", rest);
    assert Blanks(2 * ind) + "  " == Blanks(2 * ind + 2);
  }

  /** An entry stands two blanks deeper than its map, its value one level deeper, its key at none. */
  lemma EntryLayout(e: Entry, ind: nat)
    ensures DiagEntry(e, ind) == Blanks(2 * ind + 2) + (Diag(e.key, 0) + (": " + Diag(e.val, ind + 1)))
  {
    DeeperBlanks(ind, Diag(e.key, 0) + (": " + Diag(e.val, ind + 1)));
  }

  /** `sep.join(texts)`. */
  function Join(texts: seq<string>, sep: string): string {
    if |texts| == 0 then "" else if |texts| == 1 then texts[0] else texts[0] + (sep + Join(texts[1..], sep))
  }

  ghost function ItemTexts(items: seq<Item>, ind: nat): seq<string> {
    seq(|items|, i requires 0 <= i < |items| => Diag(items[i], ind))
  }

  ghost function EntryTexts(es: seq<Entry>, ind: nat): seq<string> {
    seq(|es|, i requires 0 <= i < |es| =>
      Blanks(2 * ind + 2) + (Diag(es[i].key, 0) + (": " + Diag(es[i].val, ind + 1))))
  }

  lemma {:induction false} ListIsJoined(items: seq<Item>, ind: nat)
    ensures DiagList(items, ind) == Join(ItemTexts(items, ind), ", ")
  {
    hide Diag;
    var texts := ItemTexts(items, ind);
    if |items| <= 1 {
    } else {
      ListIsJoined(items[1..], ind);
      assert texts[1..] == ItemTexts(items[1..], ind);
      Assoc(Diag(items[0], ind), ", ", DiagList(items[1..], ind));
    }
  }

  lemma {:induction false} EntriesAreJoined(es: seq<Entry>, ind: nat)
    ensures DiagEntries(es, ind) == Join(EntryTexts(es, ind), ",\n")
  {
    hide Diag, DiagEntry;
    var texts := EntryTexts(es, ind);
    if |es| == 0 {
    } else {
      EntryLayout(es[0], ind);
      assert texts[0] == DiagEntry(es[0], ind);
      if |es| > 1 {
        EntriesAreJoined(es[1..], ind);
        assert texts[1..] == EntryTexts(es[1..], ind);
        Assoc(DiagEntry(es[0], ind), ",\n", DiagEntries(es[1..], ind));
      }
    }
  }

  /** An array on one line, its elements at its own level; a map with one entry to a line, two blanks deeper, and its
      brace at its own level. */
  lemma Layout(items: seq<Item>, es: seq<Entry>, ind: nat)
    ensures Diag(Array(items), ind) == "[" + Join(ItemTexts(items, ind), ", ") + "]"
    ensures Diag(Map(es), ind) == "{\n" + Join(EntryTexts(es, ind), ",\n") + "\n" + Blanks(2 * ind) + "}"
  {
    ListIsJoined(items, ind);
    EntriesAreJoined(es, ind);
    PadIsBlanks(ind);
    hide Join, ItemTexts, EntryTexts, Blanks, DiagList, DiagEntries, Pad;
  }

  /** A COSE_Sign1: four labelled lines two blanks deeper than it, the protected header printed at no level. */
  lemma Sign1Layout(o: Item, ind: nat)
    requires o.Sign1?
    ensures var b := Blanks(2 * ind + 2);
            Diag(o, ind) == "18([\n" + (b + ("/ protected / << " + (Diag(o.prot, 0) + " >>,\n")) +
                             (b + ("/ unprotected / " + (Diag(o.unprot, 0) + ",\n")) +
                              (b + ("/ payload / << " + (Diag(o.payload, ind + 1) + " >>,\n")) +
                               (b + ("/ signature / h'" + (Hex(o.sig) + "'\n")) + (Blanks(2 * ind) + "])")))))
  {
    PadIsBlanks(ind);
    DeeperBlanks(ind, "/ protected / << " + (Diag(o.prot, 0) + " >>,\n"));
    DeeperBlanks(ind, "/ unprotected / " + (Diag(o.unprot, 0) + ",\n"));
    DeeperBlanks(ind, "/ payload / << " + (Diag(o.payload, ind + 1) + " >>,\n"));
    DeeperBlanks(ind, "/ signature / h'" + (Hex(o.sig) + "'\n"));
  }
}
