/** Reassembly of a probe archive from a serial-console capture (tools/decode_console.py). The regular expressions are
    left-to-right scanners over the text that is still to be read. */
module DecodeConsole {
  import opened Octets
  import opened Decimal

  const BEGIN := "===PROBE-BEGIN=== "
  const END := "===PROBE-END==="
  const WIDTH := 76

  // ---- Scanners ----

  predicate IsB64(c: char) {
    'A' <= c <= 'Z' || 'a' <= c <= 'z' || '0' <= c <= '9' || c == '+' || c == '/' || c == '='
  }

  /** How many characters `[A-Za-z0-9+/=]*` takes at the front. */
  function B64Span(s: string): (n: nat)
    ensures n <= |s|
  {
    if |s| == 0 || !IsB64(s[0]) then 0 else 1 + B64Span(s[1..])
  }

  /** How many characters `[^\n]*` takes at the front. */
  function LineSpan(s: string): (n: nat)
    ensures n <= |s|
  {
    if |s| == 0 || s[0] == '\n' then 0 else 1 + LineSpan(s[1..])
  }

  /** What precedes the first occurrence of `pat`, or everything. */
  function Before(s: string, pat: string): (t: string)
    ensures |t| <= |s|
  {
    if |s| == 0 || pat <= s then "" else [s[0]] + Before(s[1..], pat)
  }

  function Marker(stamp: string): string {
    BEGIN + stamp + " "
  }

  /** The text between each BEGIN line of this stamp and the next END. */
  function Blocks(text: string, stamp: string): seq<string>
    decreases |text|
  {
    if |text| == 0 then []
    else if Marker(stamp) <= text then
      var t := text[|Marker(stamp)|..];
      var k := LineSpan(t);
      if k == |t| then Blocks(text[1..], stamp)
      else [Before(t[k + 1..], END)] + Blocks(t[k + 1..], stamp)
    else Blocks(text[1..], stamp)
  }

  /** A match of `@@(\d{4}) ([A-Za-z0-9+/=]+)`. */
  datatype Cand = Cand(index: nat, body: string)

  predicate LineHere(s: string) {
    && |s| >= 8 && s[0] == '@' && s[1] == '@'
    && IsDigit(s[2]) && IsDigit(s[3]) && IsDigit(s[4]) && IsDigit(s[5])
    && s[6] == ' ' && IsB64(s[7])
  }

  /** A match at the front, and the text behind it. */
  function MatchHere(s: string): (r: Option<(Cand, string)>)
    ensures r.Some? ==> |r.value.1| < |s|
  {
    if !LineHere(s) then None else
      var k := B64Span(s[7..]);
      Some((Cand(NatOf(s[2..6]), s[7..7 + k]), s[7 + k..]))
  }

  function Lines(s: string): seq<Cand>
    decreases |s|
  {
    if |s| == 0 then [] else
      var m := MatchHere(s);
      if m.Some? then [m.value.0] + Lines(m.value.1) else Lines(s[1..])
  }

  /** All indexed lines in the blocks, in order. */
  function AllLines(blocks: seq<string>): seq<Cand> {
    if |blocks| == 0 then [] else Lines(blocks[0]) + AllLines(blocks[1..])
  }

  /** A match of the BEGIN line; `lines` and the hash are there only in the indexed format. */
  datatype Head = Head(words: string, size: nat, indexed: Option<(string, nat)>)

  predicate SizeHere(s: string) {
    "size=" <= s && |s| > 5 && IsDigit(s[5])
  }

  /** The shortest run without a line break before a `size=` with a digit behind it. */
  function FindSize(s: string): (k: Option<nat>)
    ensures k.Some? ==> k.value <= |s| && SizeHere(s[k.value..])
  {
    if SizeHere(s) then Some(0)
    else if |s| == 0 || s[0] == '\n' then None
    else
      var k :- FindSize(s[1..]);
      Some(k + 1)
  }

  predicate AllHex(s: string) {
    forall i :: 0 <= i < |s| ==> IsDigit(s[i]) || 'a' <= s[i] <= 'f'
  }

  /** A number behind a fixed word, and what follows. */
  function Numbered(s: string, word: string): (r: Option<(nat, string)>)
    ensures r.Some? ==> |r.value.1| <= |s|
  {
    if !(word <= s) then None else
      var t := s[|word|..];
      var k := DigitSpan(t);
      if k == 0 then None else Some((NatOf(t[..k]), t[k..]))
  }

  const SHA256 := " sha256="

  /** The optional ` sha256=... lines=... copy=...`, and what follows it. */
  function Indexed(s: string): (r: Option<((string, nat), string)>)
    ensures r.Some? ==> |r.value.1| <= |s|
  {
    if !(SHA256 <= s) then None else
      var t := s[|SHA256|..];
      if |t| < 64 || !AllHex(t[..64]) then None else
        var (lines, u) :- Numbered(t[64..], " lines=");
        var (copy, v) :- Numbered(u, " copy=");
        Some(((t[..64], lines), v))
  }

  /** A BEGIN line at the front, and the text behind the match. */
  function HeadHere(s: string): (r: Option<(Head, string)>)
    ensures r.Some? ==> |r.value.1| < |s|
  {
    if BEGIN <= s then HeadRest(s[|BEGIN|..]) else None
  }

  function HeadRest(t: string): (r: Option<(Head, string)>)
    ensures r.Some? ==> |r.value.1| <= |t|
  {
    var k :- FindSize(t);
    HeadSized(t[..k], t[k..])
  }

  /** From `size=` on. */
  function HeadSized(words: string, s: string): (r: Option<(Head, string)>)
    ensures r.Some? ==> |r.value.1| <= |s|
  {
    var (size, u) :- Numbered(s, "size=");
    var x := Indexed(u);
    if x.None? then Some((Head(words, size, None), u))
    else Some((Head(words, size, Some(x.value.0)), x.value.1))
  }

  /** The BEGIN lines of the text in order, each with the text behind it. */
  function Heads(text: string): seq<(Head, string)>
    decreases |text|
  {
    if |text| == 0 then [] else
      var h := HeadHere(text);
      if h.Some? then [h.value] + Heads(h.value.1) else Heads(text[1..])
  }

  /** Python's white space. */
  predicate IsSpace(c: char) {
    var n := c as int;
    9 <= n <= 13 || 28 <= n <= 32 || n == 0x85 || n == 0xA0 || n == 0x1680 || 0x2000 <= n <= 0x200A
    || n == 0x2028 || n == 0x2029 || n == 0x202F || n == 0x205F || n == 0x3000
  }

  function WordSpan(s: string): (n: nat)
    ensures n <= |s|
  {
    if |s| == 0 || IsSpace(s[0]) then 0 else 1 + WordSpan(s[1..])
  }

  /** `words.split()[0]`; `None` where there is no word. */
  function FirstWord(s: string): Option<string> {
    if |s| == 0 then None
    else if IsSpace(s[0]) then FirstWord(s[1..])
    else Some(s[..WordSpan(s)])
  }

  // ---- Timestamps of the EC2 serial console ----

  predicate DateHere(s: string) {
    && |s| >= 12 && s[0] == '['
    && IsDigit(s[1]) && IsDigit(s[2]) && IsDigit(s[3]) && IsDigit(s[4]) && s[5] == '-'
    && IsDigit(s[6]) && IsDigit(s[7]) && s[8] == '-'
    && IsDigit(s[9]) && IsDigit(s[10]) && s[11] == 'T'
  }

  /** How many characters `[\d:.]*` takes at the front. */
  function ClockSpan(s: string): (n: nat)
    ensures n <= |s|
  {
    if |s| == 0 || !(IsDigit(s[0]) || s[0] == ':' || s[0] == '.') then 0 else 1 + ClockSpan(s[1..])
  }

  /** The length of a bracketed date and time at the front. */
  function TimestampHere(s: string): (n: Option<nat>)
    ensures n.Some? ==> 0 < n.value <= |s|
  {
    if !DateHere(s) then None else
      var k := ClockSpan(s[12..]);
      if k > 0 && 12 + k < |s| && s[12 + k] == ']' then Some(13 + k) else None
  }

  /** The text without its timestamps. */
  function Strip(s: string): string
    decreases |s|
  {
    if |s| == 0 then ""
    else if TimestampHere(s).Some? then Strip(s[TimestampHere(s).value..])
    else [s[0]] + Strip(s[1..])
  }

  /** Text as the console stamps it: timestamps anywhere, each followed by some of the text. */
  datatype Stamped = Stamped(timestamp: string, text: string)

  predicate IsTimestamp(t: string) {
    TimestampHere(t) == Some(|t|)
  }

  function StampedText(parts: seq<Stamped>): string {
    if |parts| == 0 then "" else parts[0].timestamp + (parts[0].text + StampedText(parts[1..]))
  }

  function PlainText(parts: seq<Stamped>): string {
    if |parts| == 0 then "" else parts[0].text + PlainText(parts[1..])
  }

  lemma {:induction false} ClockLocal(s: string, rest: string)
    requires ClockSpan(s) < |s|
    ensures ClockSpan(s + rest) == ClockSpan(s)
  {
    if IsDigit(s[0]) || s[0] == ':' || s[0] == '.' {
      assert (s + rest)[1..] == s[1..] + rest;
      ClockLocal(s[1..], rest);
    } else {
    }
  }

  lemma StripTimestamp(t: string, rest: string)
    requires IsTimestamp(t)
    ensures Strip(t + rest) == Strip(rest)
  {
    var s := t + rest;
    ClockLocal(t[12..], rest);
    assert s[12..] == t[12..] + rest;
    assert forall i :: 0 <= i < |t| ==> s[i] == t[i];
    assert TimestampHere(s) == Some(|t|);
    assert s[|t|..] == rest;
  }

  lemma {:induction false} StripPlain(text: string, rest: string)
    requires '[' !in text
    ensures Strip(text + rest) == text + Strip(rest)
  {
    if text == "" {
      assert text + rest == rest;
    } else {
      assert (text + rest)[1..] == text[1..] + rest;
      StripPlain(text[1..], rest);
      Assoc([text[0]], text[1..], Strip(rest));
      assert text == [text[0]] + text[1..];
    }
  }

  /** Wherever timestamps are put into text without a bracket, exactly they are taken out again. */
  lemma {:induction false} StripStamped(parts: seq<Stamped>)
    requires forall k :: 0 <= k < |parts| ==> IsTimestamp(parts[k].timestamp) && '[' !in parts[k].text
    ensures Strip(StampedText(parts)) == PlainText(parts)
  {
    if parts == [] {
    } else {
      StripStamped(parts[1..]);
      StripTimestamp(parts[0].timestamp, parts[0].text + StampedText(parts[1..]));
      StripPlain(parts[0].text, StampedText(parts[1..]));
    }
  }

  // ---- Reassembly ----

  /** SHA-256 as hex text, and base64; decoding may raise. */
  datatype Codec = Codec(sha256: string -> string, encode: Bytes -> string, decode: string -> Option<Bytes>)

  datatype Outcome =
    | Data(data: Bytes)
    | Missing(indices: seq<nat>)
    | WrongLength
    | WrongHash
    | LegacyMismatch
    | Raised

  /** The length line `i` must have. */
  function Want(i: nat, size: nat, nlines: nat): int {
    if i < nlines - 1 then WIDTH else size - WIDTH * (nlines - 1)
  }

  predicate Fits(c: Cand, size: nat, nlines: nat) {
    |c.body| == Want(c.index, size, nlines)
  }

  /** The body of the first candidate for line `i` of the right length. */
  function FirstFit(cands: seq<Cand>, i: nat, size: nat, nlines: nat): Option<string> {
    if |cands| == 0 then None
    else if cands[0].index == i && Fits(cands[0], size, nlines) then Some(cands[0].body)
    else FirstFit(cands[1..], i, size, nlines)
  }

  predicate Complete(cands: seq<Cand>, size: nat, nlines: nat) {
    forall i :: 0 <= i < nlines ==> FirstFit(cands, i, size, nlines).Some?
  }

  /** The indices below `n` for which no line has been found. */
  function Gaps(cands: seq<Cand>, size: nat, nlines: nat, n: nat): seq<nat> {
    if n == 0 then [] else
      Gaps(cands, size, nlines, n - 1) + if FirstFit(cands, n - 1, size, nlines).None? then [n - 1] else []
  }

  /** The first `n` lines, joined. */
  function Joined(cands: seq<Cand>, size: nat, nlines: nat, n: nat): string
    requires n <= nlines && Complete(cands, size, nlines)
  {
    if n == 0 then "" else Joined(cands, size, nlines, n - 1) + FirstFit(cands, n - 1, size, nlines).value
  }

  function Decoded(codec: Codec, b64: string): Outcome {
    match codec.decode(b64)
    case Some(data) => Data(data)
    case None => Raised
  }

  function Reassembled(codec: Codec, cands: seq<Cand>, size: nat, sha: string, nlines: nat): Outcome {
    if !Complete(cands, size, nlines) then Missing(Gaps(cands, size, nlines, nlines)) else
      var b64 := Joined(cands, size, nlines, nlines);
      if |b64| != size then WrongLength
      else if codec.sha256(b64) != sha then WrongHash
      else Decoded(codec, b64)
  }

  function OnlyB64(s: string): string {
    if |s| == 0 then "" else (if IsB64(s[0]) then [s[0]] else "") + OnlyB64(s[1..])
  }

  /** The outcome of `decode_one` for one BEGIN line, its stamp already split off. */
  function Outcome1(codec: Codec, text: string, stamp: string, h: Head, after: string): Outcome {
    match h.indexed
    case Some((sha, nlines)) => Reassembled(codec, AllLines(Blocks(text, stamp)), h.size, sha, nlines)
    case None =>
      var body := OnlyB64(Before(after, END));
      if |body| == h.size then Decoded(codec, body) else LegacyMismatch
  }

  method DecodeOne(codec: Codec, text: string, stamp: string, h: Head, after: string) returns (r: Outcome)
    ensures r == Outcome1(codec, text, stamp, h, after)
  {
    if h.indexed.Some? {
      var (sha, nlines) := h.indexed.value;
      var cand := Collect(Blocks(text, stamp), h.size, nlines);
      ghost var cands := AllLines(Blocks(text, stamp));
      var missing: seq<nat> := [];
      for i := 0 to nlines
        invariant missing == Gaps(cands, h.size, nlines, i)
      {
        if i !in cand {
          missing := missing + [i];
        }
      }
      NoGaps(cands, h.size, nlines);
      if missing != [] {
        return Missing(missing);
      }
      var b64 := "";
      for i := 0 to nlines
        invariant b64 == Joined(cands, h.size, nlines, i)
      {
        assert FirstFit(cands, i, h.size, nlines).Some?;
        b64 := b64 + cand[i];
      }
      if |b64| != h.size {
        return WrongLength;
      }
      if codec.sha256(b64) != sha {
        return WrongHash;
      }
      return Decoded(codec, b64);
    }
    var body := OnlyB64(Before(after, END));
    return if |body| == h.size then Decoded(codec, body) else LegacyMismatch;
  }

  /** `cand` holds the first fitting line for every index. */
  ghost predicate Holds(cand: map<nat, string>, cands: seq<Cand>, size: nat, nlines: nat) {
    forall i: nat :: FirstFit(cands, i, size, nlines) == if i in cand then Some(cand[i]) else None
  }

  /** The nested loops over blocks and lines that fill the `cand` dictionary. */
  method Collect(blocks: seq<string>, size: nat, nlines: nat) returns (cand: map<nat, string>)
    ensures Holds(cand, AllLines(blocks), size, nlines)
  {
    cand := map[];
    ghost var seen: seq<Cand> := [];
    for b := 0 to |blocks|
      invariant Holds(cand, seen, size, nlines)
      invariant seen + AllLines(blocks[b..]) == AllLines(blocks)
    {
      var lines := Lines(blocks[b]);
      ghost var before := seen;
      for k := 0 to |lines|
        invariant Holds(cand, seen, size, nlines)
        invariant seen == before + lines[..k]
      {
        var m := lines[k];
        SetDefault(cand, seen, m, size, nlines);
        if Fits(m, size, nlines) && m.index !in cand {
          cand := cand[m.index := m.body];
        }
        seen := seen + [m];
      }
      assert blocks[b..][1..] == blocks[b + 1..] && lines[..|lines|] == lines;
      Assoc(before, lines, AllLines(blocks[b + 1..]));
    }
    assert seen + [] == seen;
  }

  lemma {:induction false} FitAppend(cands: seq<Cand>, m: Cand, i: nat, size: nat, nlines: nat)
    ensures FirstFit(cands + [m], i, size, nlines) ==
            if FirstFit(cands, i, size, nlines).Some? then FirstFit(cands, i, size, nlines)
            else if m.index == i && Fits(m, size, nlines) then Some(m.body) else None
  {
    if cands == [] {
      assert cands + [m] == [m];
    } else {
      assert (cands + [m])[1..] == cands[1..] + [m];
      FitAppend(cands[1..], m, i, size, nlines);
    }
  }

  lemma SetDefault(cand: map<nat, string>, seen: seq<Cand>, m: Cand, size: nat, nlines: nat)
    requires Holds(cand, seen, size, nlines)
    ensures var cand' := if Fits(m, size, nlines) && m.index !in cand then cand[m.index := m.body] else cand;
            Holds(cand', seen + [m], size, nlines)
  {
    forall i: nat
      ensures FirstFit(seen + [m], i, size, nlines) ==
              var c := if Fits(m, size, nlines) && m.index !in cand then cand[m.index := m.body] else cand;
              if i in c then Some(c[i]) else None
    {
      FitAppend(seen, m, i, size, nlines);
    }
  }

  // ---- The table of stamps ----

  type Table = map<string, Outcome>

  /** One turn of the loop over BEGIN lines; `None` where it raises. */
  function Entered(codec: Codec, text: string, out: Table, h: (Head, string)): Option<Table> {
    var stamp :- FirstWord(h.0.words);
    if stamp in out && out[stamp].Data? then Some(out) else
      var r := Outcome1(codec, text, stamp, h.0, h.1);
      if r == Raised then None else Some(out[stamp := r])
  }

  function Entries(codec: Codec, text: string, out: Table, heads: seq<(Head, string)>): Option<Table>
    decreases heads
  {
    if |heads| == 0 then Some(out) else
      var out' :- Entered(codec, text, out, heads[0]);
      Entries(codec, text, out', heads[1..])
  }

  /** The table of a raw capture. */
  function Tabled(codec: Codec, raw: string): Option<Table> {
    Entries(codec, Strip(raw), map[], Heads(Strip(raw)))
  }

  method Decode(codec: Codec, raw: string) returns (r: Option<Table>)
    ensures r == Tabled(codec, raw)
  {
    var text := Strip(raw);
    var heads := Heads(text);
    var out: Table := map[];
    for i := 0 to |heads|
      invariant Entries(codec, text, out, heads[i..]) == Entries(codec, text, map[], heads)
    {
      var h := heads[i];
      assert heads[i..][0] == h && heads[i..][1..] == heads[i + 1..];
      var stamp := FirstWord(h.0.words);
      if stamp.None? {
        return None;
      }
      if stamp.value in out && out[stamp.value].Data? {
        continue;
      }
      var one := DecodeOne(codec, text, stamp.value, h.0, h.1);
      if one == Raised {
        return None;
      }
      out := out[stamp.value := one];
    }
    return Some(out);
  }

  // ---- Properties of reassembly ----

  lemma {:induction false} FitIsCandidate(cands: seq<Cand>, i: nat, size: nat, nlines: nat)
    requires FirstFit(cands, i, size, nlines).Some?
    ensures Cand(i, FirstFit(cands, i, size, nlines).value) in cands
    ensures |FirstFit(cands, i, size, nlines).value| == Want(i, size, nlines)
  {
    if cands[0].index == i && Fits(cands[0], size, nlines) {
    } else {
      FitIsCandidate(cands[1..], i, size, nlines);
    }
  }

  lemma {:induction false} JoinedLength(cands: seq<Cand>, size: nat, nlines: nat, n: nat)
    requires n <= nlines && Complete(cands, size, nlines)
    ensures |Joined(cands, size, nlines, n)| == if n < nlines || n == 0 then 76 * n else size
  {
    if n == 0 {
    } else {
      JoinedLength(cands, size, nlines, n - 1);
      FitIsCandidate(cands, n - 1, size, nlines);
    }
  }

  /** Once every line is there the lengths add up: the later length check can reject only an archive of no lines. */
  lemma LengthCheckRedundant(codec: Codec, cands: seq<Cand>, size: nat, sha: string, nlines: nat)
    ensures Reassembled(codec, cands, size, sha, nlines) == WrongLength <==> nlines == 0 && size != 0
  {
    if Complete(cands, size, nlines) {
      JoinedLength(cands, size, nlines, nlines);
      if nlines == 0 {
        assert Joined(cands, size, nlines, 0) == "";
      }
    }
  }

  /** The report of missing lines is exact. */
  lemma {:induction false} GapsExact(cands: seq<Cand>, size: nat, nlines: nat, n: nat, i: nat)
    ensures i in Gaps(cands, size, nlines, n) <==> i < n && FirstFit(cands, i, size, nlines).None?
  {
    if n == 0 {
    } else {
      GapsExact(cands, size, nlines, n - 1, i);
    }
  }

  lemma NoGaps(cands: seq<Cand>, size: nat, nlines: nat)
    ensures Gaps(cands, size, nlines, nlines) == [] <==> Complete(cands, size, nlines)
  {
    var gaps := Gaps(cands, size, nlines, nlines);
    forall i | 0 <= i < nlines
      ensures i in gaps <==> FirstFit(cands, i, size, nlines).None?
    {
      GapsExact(cands, size, nlines, nlines, i);
    }
    if gaps != [] {
      GapsExact(cands, size, nlines, nlines, gaps[0]);
    }
  }

  /** Whatever is returned has the announced hash and size and is made of one candidate per index, taken from the blocks
      of this stamp. */
  lemma ReassemblySound(codec: Codec, text: string, stamp: string, h: Head, after: string)
    requires h.indexed.Some? && Outcome1(codec, text, stamp, h, after).Data?
    ensures var (sha, nlines) := h.indexed.value;
            var cands := AllLines(Blocks(text, stamp));
            && Complete(cands, h.size, nlines)
            && var b64 := Joined(cands, h.size, nlines, nlines);
            && |b64| == h.size && codec.sha256(b64) == sha
            && codec.decode(b64) == Some(Outcome1(codec, text, stamp, h, after).data)
            && forall i :: 0 <= i < nlines ==> Cand(i, FirstFit(cands, i, h.size, nlines).value) in cands
  {
    var (sha, nlines) := h.indexed.value;
    var cands := AllLines(Blocks(text, stamp));
    forall i | 0 <= i < nlines
      ensures Cand(i, FirstFit(cands, i, h.size, nlines).value) in cands
    {
      FitIsCandidate(cands, i, h.size, nlines);
    }
  }

  lemma NatOfFour(s: string)
    requires |s| == 4 && AllDigits(s)
    ensures NatOf(s) == 1000 * DigitValue(s[0]) + 100 * DigitValue(s[1]) + 10 * DigitValue(s[2]) + DigitValue(s[3])
  {
    assert s[..3][..2] == s[..2] && s[..2][..1] == s[..1] && s[..1][..0] == "";
    assert NatOf(s[..1]) == DigitValue(s[0]);
    assert NatOf(s[..2]) == 10 * DigitValue(s[0]) + DigitValue(s[1]);
    assert NatOf(s[..3]) == 100 * DigitValue(s[0]) + 10 * DigitValue(s[1]) + DigitValue(s[2]);
  }

  lemma {:induction false} LineIndexBound(s: string, c: Cand)
    requires c in Lines(s)
    ensures c.index < 10000
    decreases |s|
  {
    var m := MatchHere(s);
    if m.Some? {
      NatOfFour(s[2..6]);
      if c in Lines(m.value.1) {
        LineIndexBound(m.value.1, c);
      }
    } else {
      LineIndexBound(s[1..], c);
    }
  }

  lemma {:induction false} AllIndexBound(blocks: seq<string>, c: Cand)
    requires c in AllLines(blocks)
    ensures c.index < 10000
  {
    if c in Lines(blocks[0]) {
      LineIndexBound(blocks[0], c);
    } else {
      AllIndexBound(blocks[1..], c);
    }
  }

  /** Four digits cannot name line 10000: an archive announced with more lines is never reassembled. */
  lemma TooManyLines(codec: Codec, text: string, stamp: string, h: Head, after: string)
    requires h.indexed.Some? && h.indexed.value.1 > 10000
    ensures Outcome1(codec, text, stamp, h, after).Missing?
  {
    var nlines := h.indexed.value.1;
    var cands := AllLines(Blocks(text, stamp));
    if FirstFit(cands, 10000, h.size, nlines).Some? {
      FitIsCandidate(cands, 10000, h.size, nlines);
      AllIndexBound(Blocks(text, stamp), Cand(10000, FirstFit(cands, 10000, h.size, nlines).value));
    }
  }

  /** Python's white space, character by character. */
  lemma Whitespace(c: char)
    ensures IsSpace(c) <==>
            || c in "\t\n\r "
            || c as int in {0x0B, 0x0C, 0x1C, 0x1D, 0x1E, 0x1F, 0x85, 0xA0}
            || c as int in {0x1680, 0x2028, 0x2029, 0x202F, 0x205F, 0x3000}
            || c as int in {0x2000, 0x2001, 0x2002, 0x2003, 0x2004, 0x2005, 0x2006, 0x2007, 0x2008, 0x2009, 0x200A}
  {
  }

  // ---- Properties of the table ----

  predicate About(h: (Head, string), stamp: string) {
    FirstWord(h.0.words) == Some(stamp)
  }

  /** The BEGIN line yields an archive for the stamp. */
  predicate Yields(codec: Codec, text: string, h: (Head, string), stamp: string) {
    About(h, stamp) && Outcome1(codec, text, stamp, h.0, h.1).Data?
  }

  /** The BEGIN line raises: it has no stamp, or its base64 does not decode and its stamp has no archive yet. */
  predicate Fatal(codec: Codec, text: string, out: Table, heads: seq<(Head, string)>, i: nat)
    requires i < |heads|
  {
    match FirstWord(heads[i].0.words)
    case None => true
    case Some(stamp) =>
      && Outcome1(codec, text, stamp, heads[i].0, heads[i].1) == Raised
      && !(stamp in out && out[stamp].Data?)
      && forall j :: 0 <= j < i ==> !Yields(codec, text, heads[j], stamp)
  }

  predicate AnyFatal(codec: Codec, text: string, out: Table, heads: seq<(Head, string)>) {
    exists i :: 0 <= i < |heads| && Fatal(codec, text, out, heads, i)
  }

  /** One turn later, the same lines are fatal. */
  lemma FatalShift(codec: Codec, text: string, out: Table, heads: seq<(Head, string)>, i: nat)
    requires i + 1 < |heads| && Entered(codec, text, out, heads[0]).Some?
    ensures Fatal(codec, text, out, heads, i + 1)
       <==> Fatal(codec, text, Entered(codec, text, out, heads[0]).value, heads[1..], i)
  {
    hide Outcome1, FirstWord;
    var out', rest := Entered(codec, text, out, heads[0]).value, heads[1..];
    var word := FirstWord(heads[i + 1].0.words);
    if word.Some? {
      var stamp := word.value;
      assert stamp in out' && out'[stamp].Data?
        <==> (stamp in out && out[stamp].Data?) || Yields(codec, text, heads[0], stamp);
      assert (forall j :: 0 <= j < i + 1 ==> !Yields(codec, text, heads[j], stamp))
        <==> (!Yields(codec, text, heads[0], stamp)
              && forall j :: 0 <= j < i ==> !Yields(codec, text, rest[j], stamp)) by {
        assert forall j :: 0 < j < i + 1 ==> heads[j] == rest[j - 1];
        assert forall j :: 0 <= j < i ==> rest[j] == heads[j + 1];
      }
    }
  }

  /** `decode` raises exactly when some BEGIN line is fatal; one of them loses every archive on the console. */
  lemma {:induction false} RaisesIffFatal(codec: Codec, text: string, out: Table, heads: seq<(Head, string)>)
    ensures Entries(codec, text, out, heads).None? <==> AnyFatal(codec, text, out, heads)
    decreases heads
  {
    hide Outcome1, FirstWord;
    if heads == [] {
    } else {
      assert Entered(codec, text, out, heads[0]).None? <==> Fatal(codec, text, out, heads, 0);
      if Entered(codec, text, out, heads[0]).Some? {
        var out', rest := Entered(codec, text, out, heads[0]).value, heads[1..];
        hide Fatal, Entered;
        RaisesIffFatal(codec, text, out', rest);
        if i :| 0 <= i < |heads| && Fatal(codec, text, out, heads, i) {
          FatalShift(codec, text, out, heads, i - 1);
        }
        if i :| 0 <= i < |rest| && Fatal(codec, text, out', rest, i) {
          FatalShift(codec, text, out, heads, i);
        }
      }
    }
  }

  /** An archive found for a stamp stays; otherwise the first archive among its BEGIN lines is found. */
  lemma {:induction false} FirstArchiveWins(codec: Codec, text: string, out: Table, heads: seq<(Head, string)>,
                                            stamp: string, i: nat)
    requires Entries(codec, text, out, heads).Some?
    requires i < |heads| && About(heads[i], stamp) && Outcome1(codec, text, stamp, heads[i].0, heads[i].1).Data?
    requires forall j :: 0 <= j < i && About(heads[j], stamp) ==>
               !Outcome1(codec, text, stamp, heads[j].0, heads[j].1).Data?
    requires stamp in out ==> !out[stamp].Data?
    ensures stamp in Entries(codec, text, out, heads).value
    ensures Entries(codec, text, out, heads).value[stamp] == Outcome1(codec, text, stamp, heads[i].0, heads[i].1)
    decreases heads
  {
    var out' := Entered(codec, text, out, heads[0]).value;
    if i == 0 {
      ArchiveStays(codec, text, out', heads[1..], stamp);
    } else {
      FirstArchiveWins(codec, text, out', heads[1..], stamp, i - 1);
    }
  }

  lemma {:induction false} ArchiveStays(codec: Codec, text: string, out: Table, heads: seq<(Head, string)>,
                                        stamp: string)
    requires Entries(codec, text, out, heads).Some? && stamp in out && out[stamp].Data?
    ensures stamp in Entries(codec, text, out, heads).value
    ensures Entries(codec, text, out, heads).value[stamp] == out[stamp]
    decreases heads
  {
    if heads == [] {
    } else {
      ArchiveStays(codec, text, Entered(codec, text, out, heads[0]).value, heads[1..], stamp);
    }
  }

  /** The table has an entry for exactly the stamps announced. */
  lemma {:induction false} TableKeys(codec: Codec, text: string, out: Table, heads: seq<(Head, string)>, stamp: string)
    requires Entries(codec, text, out, heads).Some?
    ensures stamp in Entries(codec, text, out, heads).value
       <==> stamp in out || exists i :: 0 <= i < |heads| && About(heads[i], stamp)
    decreases heads
  {
    if heads == [] {
    } else {
      TableKeys(codec, text, Entered(codec, text, out, heads[0]).value, heads[1..], stamp);
      assert forall i :: 0 < i < |heads| ==> heads[i] == heads[1..][i - 1];
      if stamp in out || exists i :: 0 <= i < |heads| && About(heads[i], stamp) {
        if !(stamp in Entered(codec, text, out, heads[0]).value) {
          var i :| 0 <= i < |heads| && About(heads[i], stamp);
          assert About(heads[1..][i - 1], stamp);
        }
      }
    }
  }
}
