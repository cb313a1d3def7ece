/** The whole console: the probe's header lines and copies as `decode` finds them among everything else. */
module ConsoleText {
  import opened Octets
  import opened Decimal
  import opened DecodeConsole
  import opened ConsoleChannel

  /** Text made of whole lines; it stops every match that cannot cross a line break. */
  predicate WholeLines(s: string) {
    s == "" || s[|s| - 1] == '\n'
  }

  predicate OneLine(s: string) {
    '\n' !in s
  }

  // ---- Matches do not cross a line break ----

  /** A pattern without a line break is found in whole lines whatever follows them. */
  lemma PrefixLocal(s: string, rest: string, pat: string)
    requires WholeLines(s) && s != "" && OneLine(pat)
    ensures pat <= s + rest <==> pat <= s
    ensures pat <= s ==> |pat| < |s| && (s + rest)[|pat|..] == s[|pat|..] + rest && WholeLines(s[|pat|..])
  {
    if pat <= s + rest && |pat| >= |s| {
      BreakInside(s, s + rest, pat);
    }
    if pat <= s && |pat| >= |s| {
      BreakInside(s, s, pat);
    }
    if |pat| < |s| {
      assert (s + rest)[..|pat|] == s[..|pat|];
    }
  }

  lemma BreakInside(s: string, text: string, pat: string)
    requires WholeLines(s) && s != "" && s <= text && pat <= text && |s| <= |pat|
    ensures '\n' in pat
  {
    assert pat[|s| - 1] == text[|s| - 1] == s[|s| - 1];
  }

  lemma {:induction false} LineSpanLocal(s: string, rest: string)
    requires WholeLines(s) && s != ""
    ensures LineSpan(s + rest) == LineSpan(s) < |s|
  {
    if s[0] == '\n' {
    } else {
      assert (s + rest)[1..] == s[1..] + rest;
      LineSpanLocal(s[1..], rest);
    }
  }

  lemma {:induction false} DigitSpanLocal(s: string, rest: string)
    requires WholeLines(s) && s != ""
    ensures DigitSpan(s + rest) == DigitSpan(s) < |s|
  {
    if IsDigit(s[0]) {
      assert (s + rest)[1..] == s[1..] + rest;
      DigitSpanLocal(s[1..], rest);
    }
  }

  lemma SizeHereLocal(s: string, rest: string)
    requires WholeLines(s) && s != ""
    ensures SizeHere(s + rest) == SizeHere(s)
  {
    PrefixLocal(s, rest, "size=");
    if "size=" <= s {
      assert (s + rest)[5] == s[5];
    }
  }

  lemma {:induction false} FindSizeLocal(s: string, rest: string)
    requires WholeLines(s) && s != ""
    ensures FindSize(s + rest) == FindSize(s)
    ensures FindSize(s).Some? ==> FindSize(s).value < |s|
  {
    SizeHereLocal(s, rest);
    if !SizeHere(s) && s[0] != '\n' {
      assert (s + rest)[1..] == s[1..] + rest;
      FindSizeLocal(s[1..], rest);
    }
  }

  lemma NumberedLocal(s: string, rest: string, word: string)
    requires WholeLines(s) && s != "" && OneLine(word)
    ensures var r := Numbered(s, word);
            Numbered(s + rest, word) == if r.None? then None else Some((r.value.0, r.value.1 + rest))
    ensures Numbered(s, word).Some? ==> WholeLines(Numbered(s, word).value.1) && Numbered(s, word).value.1 != ""
  {
    PrefixLocal(s, rest, word);
    if word <= s {
      var t := s[|word|..];
      DigitSpanLocal(t, rest);
      var k := DigitSpan(t);
      assert (t + rest)[..k] == t[..k] && (t + rest)[k..] == t[k..] + rest;
    }
  }

  lemma IndexedLocal(s: string, rest: string)
    requires WholeLines(s) && s != ""
    ensures var r := Indexed(s);
            Indexed(s + rest) == if r.None? then None else Some((r.value.0, r.value.1 + rest))
    ensures Indexed(s).Some? ==> WholeLines(Indexed(s).value.1) && Indexed(s).value.1 != ""
  {
    PrefixLocal(s, rest, SHA256);
    if SHA256 <= s {
      var t := s[|SHA256|..];
      HashLocal(t, rest);
      if |t| >= 64 && AllHex(t[..64]) {
        NumberedLocal(t[64..], rest, " lines=");
        var n := Numbered(t[64..], " lines=");
        if n.Some? {
          NumberedLocal(n.value.1, rest, " copy=");
        }
      }
    }
  }

  lemma HashLocal(t: string, rest: string)
    requires WholeLines(t) && t != ""
    ensures |t + rest| >= 64 && AllHex((t + rest)[..64]) <==> |t| >= 64 && AllHex(t[..64])
    ensures |t| >= 64 && AllHex(t[..64]) ==>
              |t| > 64 && (t + rest)[..64] == t[..64] && (t + rest)[64..] == t[64..] + rest && WholeLines(t[64..])
  {
    if |t| <= 64 <= |t + rest| {
      BreakIsNotHex(t, t + rest, 64);
    }
    if |t| == 64 {
      BreakIsNotHex(t, t, 64);
    }
    if |t| > 64 {
      assert (t + rest)[..64] == t[..64];
    }
  }

  lemma BreakIsNotHex(t: string, u: string, k: nat)
    requires WholeLines(t) && t != "" && t <= u && |t| <= k <= |u|
    ensures !AllHex(u[..k])
  {
    assert u[..k][|t| - 1] == '\n';
  }

  /** A match that stays as it is when more text follows. */
  ghost predicate Local(short: Option<(Head, string)>, long: Option<(Head, string)>, rest: string) {
    && long == (if short.None? then None else Some((short.value.0, short.value.1 + rest)))
    && (short.Some? ==> WholeLines(short.value.1))
  }

  lemma HeadSizedLocal(words: string, s: string, rest: string)
    requires WholeLines(s) && s != ""
    ensures Local(HeadSized(words, s), HeadSized(words, s + rest), rest)
  {
    NumberedLocal(s, rest, "size=");
    var u := Numbered(s, "size=");
    if u.Some? {
      IndexedLocal(u.value.1, rest);
    }
  }

  lemma HeadRestLocal(t: string, rest: string)
    requires WholeLines(t) && t != ""
    ensures Local(HeadRest(t), HeadRest(t + rest), rest)
  {
    FindSizeLocal(t, rest);
    if FindSize(t).Some? {
      var k := FindSize(t).value;
      assert (t + rest)[..k] == t[..k] && (t + rest)[k..] == t[k..] + rest;
      HeadSizedLocal(t[..k], t[k..], rest);
    }
  }

  lemma HeadHereLocal(s: string, rest: string)
    requires WholeLines(s) && s != ""
    ensures Local(HeadHere(s), HeadHere(s + rest), rest)
  {
    PrefixLocal(s, rest, BEGIN);
    if BEGIN <= s {
      HeadRestLocal(s[|BEGIN|..], rest);
    }
  }

  /** The BEGIN lines of whole lines followed by anything. */
  function Behind(heads: seq<(Head, string)>, rest: string): seq<(Head, string)> {
    if |heads| == 0 then [] else [(heads[0].0, heads[0].1 + rest)] + Behind(heads[1..], rest)
  }

  lemma HeadFirst(h: (Head, string), heads: seq<(Head, string)>, rest: string)
    ensures [(h.0, h.1 + rest)] + (Behind(heads, rest) + Heads(rest)) == Behind([h] + heads, rest) + Heads(rest)
  {
    assert ([h] + heads)[1..] == heads;
    Assoc([(h.0, h.1 + rest)], Behind(heads, rest), Heads(rest));
  }

  lemma {:induction false} HeadsSplit(s: string, rest: string)
    requires WholeLines(s)
    ensures Heads(s + rest) == Behind(Heads(s), rest) + Heads(rest)
    decreases |s|
  {
    hide HeadHere;
    if s == "" {
      assert s + rest == rest;
    } else {
      HeadHereLocal(s, rest);
      if HeadHere(s).Some? {
        var h := HeadHere(s).value;
        HeadsSplit(h.1, rest);
        HeadFirst(h, Heads(h.1), rest);
      } else {
        assert (s + rest)[1..] == s[1..] + rest;
        HeadsSplit(s[1..], rest);
      }
    }
  }

  // ---- Blocks among other text ----

  /** No BEGIN line of this stamp starts in the text. */
  predicate Quiet(s: string, stamp: string)
  {
    s == "" || (!(Marker(stamp) <= s) && Quiet(s[1..], stamp))
  }

  lemma {:induction false} BlocksSkip(s: string, rest: string, stamp: string)
    requires WholeLines(s) && Quiet(s, stamp) && OneLine(stamp)
    ensures Blocks(s + rest, stamp) == Blocks(rest, stamp)
  {
    if s == "" {
      assert s + rest == rest;
    } else {
      PrefixLocal(s, rest, Marker(stamp));
      assert (s + rest)[1..] == s[1..] + rest;
      BlocksSkip(s[1..], rest, stamp);
    }
  }

  // ---- The probe's header line ----

  /** `stamp` and what else the probe prints before `size=`. */
  predicate IsLabel(stamp: string, info: string) {
    && stamp != "" && (forall i :: 0 <= i < |stamp| ==> !IsSpace(stamp[i]))
    && OneLine(info) && NoSize(stamp + " " + info + " ")
  }

  /** `size=` does not start in the text. */
  predicate NoSize(s: string) {
    s == "" || (!("size=" <= s) && NoSize(s[1..]))
  }

  function HeaderEnd(size: nat, sha: string, nlines: nat, copy: nat): string {
    "size=" + (Dec(size) + (" sha256=" + (sha + (" lines=" + (Dec(nlines) + (" copy=" + (Dec(copy) + "\n")))))))
  }

  function HeaderLine(stamp: string, info: string, size: nat, sha: string, nlines: nat, copy: nat): string {
    "===PROBE-BEGIN=== " + (stamp + " " + info + " " + HeaderEnd(size, sha, nlines, copy))
  }

  lemma NoStraddle(s: string, rest: string)
    requires s != "" && s[|s| - 1] == ' ' && !("size=" <= s)
    ensures !("size=" <= s + rest)
  {
    assert forall i :: 0 <= i < |s| ==> (s + rest)[i] == s[i];
  }

  lemma {:induction false} FindSizeSkips(s: string, rest: string)
    requires OneLine(s) && NoSize(s) && (s != "" ==> s[|s| - 1] == ' ') && SizeHere(rest)
    ensures FindSize(s + rest) == Some(|s|)
  {
    if s == "" {
      assert s + rest == rest;
    } else {
      NoStraddle(s, rest);
      assert (s + rest)[1..] == s[1..] + rest;
      FindSizeSkips(s[1..], rest);
    }
  }

  lemma NumberedRead(word: string, n: nat, rest: string)
    requires rest != "" && !IsDigit(rest[0])
    ensures Numbered(word + (Dec(n) + rest), word) == Some((n, rest))
  {
    var s := word + (Dec(n) + rest);
    assert s[|word|..] == Dec(n) + rest;
    SpanOfRun(Dec(n), rest);
    NatOfDec(n);
  }

  lemma IndexedRead(sha: string, nlines: nat, copy: nat)
    requires |sha| == 64 && AllHex(sha)
    ensures Indexed(SHA256 + (sha + (" lines=" + (Dec(nlines) + (" copy=" + (Dec(copy) + "\n"))))))
         == Some(((sha, nlines), "\n"))
  {
    var u := " copy=" + (Dec(copy) + "\n");
    var t := " lines=" + (Dec(nlines) + u);
    var s := SHA256 + (sha + t);
    assert s[|SHA256|..] == sha + t;
    TakeAppend(sha, t);
    NumberedRead(" lines=", nlines, u);
    NumberedRead(" copy=", copy, "\n");
  }

  lemma {:induction false} FirstWordRead(stamp: string, rest: string)
    requires stamp != "" && (forall i :: 0 <= i < |stamp| ==> !IsSpace(stamp[i]))
    requires rest != "" && IsSpace(rest[0])
    ensures FirstWord(stamp + rest) == Some(stamp)
  {
    WordSpanRead(stamp, rest);
    assert (stamp + rest)[..|stamp|] == stamp;
  }

  lemma {:induction false} WordSpanRead(stamp: string, rest: string)
    requires forall i :: 0 <= i < |stamp| ==> !IsSpace(stamp[i])
    requires rest != "" && IsSpace(rest[0])
    ensures WordSpan(stamp + rest) == |stamp|
  {
    if stamp == "" {
      assert stamp + rest == rest;
    } else {
      assert (stamp + rest)[1..] == stamp[1..] + rest;
      WordSpanRead(stamp[1..], rest);
    }
  }

  /** The header the probe prints is read as what it announces. */
  lemma HeaderRead(stamp: string, info: string, size: nat, sha: string, nlines: nat, copy: nat)
    requires IsLabel(stamp, info) && |sha| == 64 && AllHex(sha)
    ensures HeadHere(HeaderLine(stamp, info, size, sha, nlines, copy))
         == Some((Head(stamp + " " + info + " ", size, Some((sha, nlines))), "\n"))
    ensures FirstWord(stamp + " " + info + " ") == Some(stamp)
  {
    var words := stamp + " " + info + " ";
    var end := HeaderEnd(size, sha, nlines, copy);
    var s := BEGIN + (words + end);
    assert s[|BEGIN|..] == words + end;
    EndRead(words, size, sha, nlines, copy);
    WordsOneLine(stamp, info);
    FindSizeSkips(words, end);
    TakeAppend(words, end);
    Assoc(stamp, " " + info, " ");
    Assoc(stamp, " ", info);
    FirstWordRead(stamp, " " + info + " ");
  }

  lemma EndRead(words: string, size: nat, sha: string, nlines: nat, copy: nat)
    requires |sha| == 64 && AllHex(sha)
    ensures var end := HeaderEnd(size, sha, nlines, copy);
            SizeHere(end) && HeadSized(words, end) == Some((Head(words, size, Some((sha, nlines))), "\n"))
  {
    var tail := SHA256 + (sha + (" lines=" + (Dec(nlines) + (" copy=" + (Dec(copy) + "\n")))));
    assert HeaderEnd(size, sha, nlines, copy)[5] == Dec(size)[0];
    NumberedRead("size=", size, tail);
    IndexedRead(sha, nlines, copy);
  }

  lemma WordsOneLine(stamp: string, info: string)
    requires (forall i :: 0 <= i < |stamp| ==> !IsSpace(stamp[i])) && OneLine(info)
    ensures OneLine(stamp) && OneLine(stamp + " " + info + " ")
  {
  }

  // ---- The whole console ----

  /** What the probe announces about its archive. */
  datatype Announced = Announced(stamp: string, info: string, size: nat, sha: string, nlines: nat)

  /** One header on the console: all that is written between the last header and it, and the number it carries. */
  datatype Shown = Shown(gap: string, number: nat)

  function Header(a: Announced, number: nat): string {
    HeaderLine(a.stamp, a.info, a.size, a.sha, a.nlines, number)
  }

  function Console(a: Announced, shown: seq<Shown>, tail: string): string {
    if |shown| == 0 then tail else
      shown[0].gap + (Header(a, shown[0].number) + Console(a, shown[1..], tail))
  }

  /** Other text keeps clear of this stamp: it starts no BEGIN line that counts for it. Other stamps are welcome. */
  predicate Clear(s: string, stamp: string) {
    Quiet(s, stamp) && forall i :: 0 <= i < |Heads(s)| ==> !About(Heads(s)[i], stamp)
  }

  predicate IsConsole(a: Announced, shown: seq<Shown>, tail: string) {
    && IsLabel(a.stamp, a.info) && |a.sha| == 64 && AllHex(a.sha)
    && Clear(tail, a.stamp)
    && forall k :: 0 <= k < |shown| ==> WholeLines(shown[k].gap) && Clear(shown[k].gap, a.stamp)
  }

  /** The text behind each header up to the next END, wherever that is: where a copy has lost its END line, the next
      header and the lines of the next copy belong to it too. */
  function BlocksOf(a: Announced, shown: seq<Shown>, tail: string): seq<string> {
    if |shown| == 0 then [] else
      [Before(Console(a, shown[1..], tail), END)] + BlocksOf(a, shown[1..], tail)
  }

  /** The header as the marker and the rest of its line. */
  function HeaderRest(a: Announced, number: nat): string {
    a.info + (" " + HeaderEnd(a.size, a.sha, a.nlines, number))
  }

  lemma HeaderText(a: Announced, number: nat, after: string)
    ensures Header(a, number) + after == Marker(a.stamp) + (HeaderRest(a, number) + after)
  {
    var end := HeaderEnd(a.size, a.sha, a.nlines, number);
    Assoc(a.stamp + " " + a.info, " ", end);
    Assoc(a.stamp + " ", a.info, " " + end);
    Assoc(BEGIN, a.stamp, " ");
    Assoc(BEGIN, a.stamp + " ", HeaderRest(a, number));
    Assoc(Marker(a.stamp), HeaderRest(a, number), after);
  }

  lemma {:induction false} LineSpanPrepend(x: string, s: string)
    requires OneLine(x)
    ensures LineSpan(x + s) == |x| + LineSpan(s)
  {
    if x == "" {
      assert x + s == s;
    } else {
      assert (x + s)[1..] == x[1..] + s;
      LineSpanPrepend(x[1..], s);
    }
  }

  /** The header's line break is its last character. */
  lemma HeaderBreak(a: Announced, number: nat)
    requires OneLine(a.info) && AllHex(a.sha)
    ensures var s := HeaderRest(a, number); s != "" && WholeLines(s) && LineSpan(s) == |s| - 1
  {
    var s8 := "\n";
    var s7 := Dec(number) + s8;
    var s6 := " copy=" + s7;
    var s5 := Dec(a.nlines) + s6;
    var s4 := " lines=" + s5;
    var s3 := a.sha + s4;
    var s2 := SHA256 + s3;
    var s1 := Dec(a.size) + s2;
    var s0 := "size=" + s1;
    LineSpanPrepend(Dec(number), s8);
    LineSpanPrepend(" copy=", s7);
    LineSpanPrepend(Dec(a.nlines), s6);
    LineSpanPrepend(" lines=", s5);
    LineSpanPrepend(a.sha, s4);
    LineSpanPrepend(SHA256, s3);
    LineSpanPrepend(Dec(a.size), s2);
    LineSpanPrepend("size=", s1);
    LineSpanPrepend(" ", s0);
    LineSpanPrepend(a.info, " " + s0);
    LineSpanAtBreak(HeaderRest(a, number));
  }

  lemma {:induction false} LineSpanAtBreak(s: string)
    requires LineSpan(s) < |s|
    ensures s[LineSpan(s)] == '\n'
  {
    if s[0] == '\n' {
    } else {
      LineSpanAtBreak(s[1..]);
    }
  }

  /** A BEGIN line of this stamp opens a block that runs to the next END. */
  lemma HeaderOpensBlock(a: Announced, number: nat, after: string)
    requires OneLine(a.info) && AllHex(a.sha)
    ensures Blocks(Header(a, number) + after, a.stamp) == [Before(after, END)] + Blocks(after, a.stamp)
  {
    var line := HeaderRest(a, number);
    HeaderText(a, number, after);
    HeaderBreak(a, number);
    LineSpanLocal(line, after);
    OpenBlock(Marker(a.stamp), line, after, a.stamp);
  }

  lemma OpenBlock(marker: string, line: string, after: string, stamp: string)
    requires marker == Marker(stamp) && line != "" && LineSpan(line + after) == |line| - 1
    ensures Blocks(marker + (line + after), stamp) == [Before(after, END)] + Blocks(after, stamp)
  {
    var text := marker + (line + after);
    assert text[|marker|..] == line + after;
    assert (line + after)[|line|..] == after;
  }

  lemma {:induction false} ConsoleBlocks(a: Announced, shown: seq<Shown>, tail: string)
    requires IsConsole(a, shown, tail)
    ensures Blocks(Console(a, shown, tail), a.stamp) == BlocksOf(a, shown, tail)
  {
    if shown == [] {
      QuietHasNoBlocks(tail, a.stamp);
    } else {
      var rest := Console(a, shown[1..], tail);
      WordsOneLine(a.stamp, a.info);
      ConsoleBlocks(a, shown[1..], tail);
      BlocksSkip(shown[0].gap, Header(a, shown[0].number) + rest, a.stamp);
      HeaderOpensBlock(a, shown[0].number, rest);
    }
  }

  lemma {:induction false} QuietHasNoBlocks(s: string, stamp: string)
    requires Quiet(s, stamp)
    ensures Blocks(s, stamp) == []
  {
    if s == "" {
    } else {
      QuietHasNoBlocks(s[1..], stamp);
    }
  }

  /** Every BEGIN line read for this stamp says what was announced. */
  predicate AllTrue(a: Announced, heads: seq<(Head, string)>) {
    forall i :: 0 <= i < |heads| && About(heads[i], a.stamp) ==>
      heads[i].0.size == a.size && heads[i].0.indexed == Some((a.sha, a.nlines))
  }

  lemma {:induction false} BehindKeepsHeads(heads: seq<(Head, string)>, rest: string, i: nat)
    requires i < |heads|
    ensures |Behind(heads, rest)| == |heads| && Behind(heads, rest)[i].0 == heads[i].0
  {
    if i > 0 {
      BehindKeepsHeads(heads[1..], rest, i - 1);
    } else if |heads| > 1 {
      BehindKeepsHeads(heads[1..], rest, 0);
    }
  }

  lemma ClearIsTrue(a: Announced, s: string, rest: string)
    requires Clear(s, a.stamp)
    ensures AllTrue(a, Behind(Heads(s), rest))
  {
    var heads := Heads(s);
    BehindLength(heads, rest);
    forall i | 0 <= i < |Behind(heads, rest)|
      ensures !About(Behind(heads, rest)[i], a.stamp)
    {
      BehindKeepsHeads(heads, rest, i);
      assert !About(heads[i], a.stamp);
    }
  }

  lemma {:induction false} BehindLength(heads: seq<(Head, string)>, rest: string)
    ensures |Behind(heads, rest)| == |heads|
  {
    if heads == [] {
    } else {
      BehindLength(heads[1..], rest);
    }
  }

  /** A BEGIN line that is true. */
  predicate TrueHead(a: Announced, h: (Head, string)) {
    About(h, a.stamp) && h.0.size == a.size && h.0.indexed == Some((a.sha, a.nlines))
  }

  /** The header line among the heads: itself, and nothing else. */
  lemma HeaderHeads(a: Announced, number: nat, rest: string) returns (h: (Head, string))
    requires IsLabel(a.stamp, a.info) && |a.sha| == 64 && AllHex(a.sha)
    ensures TrueHead(a, h) && Heads(Header(a, number) + rest) == [h] + Heads(rest)
  {
    HeaderRead(a.stamp, a.info, a.size, a.sha, a.nlines, number);
    HeaderIsLine(a, number);
    HeadHereLocal(Header(a, number), rest);
    h := (HeadHere(Header(a, number)).value.0, "\n" + rest);
    HeadsFrom(Header(a, number) + rest, h, rest);
  }

  lemma HeadsFrom(text: string, h: (Head, string), rest: string)
    requires HeadHere(text) == Some(h) && h.1 == "\n" + rest
    ensures Heads(text) == [h] + Heads(rest)
  {
    BreakHasNoHead(rest);
  }

  lemma NoHeadHere(text: string)
    requires text != "" && text[0] != '='
    ensures HeadHere(text).None?
  {
  }

  lemma HeadsSkip(text: string)
    requires text != "" && HeadHere(text).None?
    ensures Heads(text) == Heads(text[1..])
  {
  }

  lemma BreakHasNoHead(rest: string)
    ensures Heads("\n" + rest) == Heads(rest)
  {
    var text := "\n" + rest;
    NoHeadHere(text);
    HeadsSkip(text);
    assert text[1..] == rest;
  }

  lemma HeaderIsLine(a: Announced, number: nat)
    requires OneLine(a.info) && AllHex(a.sha)
    ensures Header(a, number) != "" && WholeLines(Header(a, number))
  {
    HeaderText(a, number, "");
    HeaderBreak(a, number);
    var line := HeaderRest(a, number);
    assert Header(a, number) + "" == Header(a, number) && line + "" == line;
    assert (Marker(a.stamp) + line)[|Marker(a.stamp) + line| - 1] == line[|line| - 1];
  }

  lemma TrueAppend(a: Announced, x: seq<(Head, string)>, y: seq<(Head, string)>)
    requires AllTrue(a, x) && AllTrue(a, y)
    ensures AllTrue(a, x + y)
  {
  }

  /** The heads of one gap, its header and what follows. */
  lemma ShownHeads(a: Announced, s: Shown, rest: string) returns (k: nat)
    requires IsLabel(a.stamp, a.info) && |a.sha| == 64 && AllHex(a.sha)
    requires WholeLines(s.gap) && Clear(s.gap, a.stamp)
    requires AllTrue(a, Heads(rest))
    ensures AllTrue(a, Heads(s.gap + (Header(a, s.number) + rest)))
    ensures k < |Heads(s.gap + (Header(a, s.number) + rest))|
    ensures About(Heads(s.gap + (Header(a, s.number) + rest))[k], a.stamp)
  {
    var after := Header(a, s.number) + rest;
    var h := HeaderHeads(a, s.number, rest);
    TrueAppend(a, [h], Heads(rest));
    HeadsSplit(s.gap, after);
    ClearIsTrue(a, s.gap, after);
    TrueAppend(a, Behind(Heads(s.gap), after), Heads(after));
    k := |Behind(Heads(s.gap), after)|;
  }

  lemma ClearTail(a: Announced, tail: string)
    requires Clear(tail, a.stamp)
    ensures AllTrue(a, Heads(tail))
  {
    hide Heads, About, Quiet;
  }

  lemma {:induction false} ConsoleHeads(a: Announced, shown: seq<Shown>, tail: string)
    requires IsConsole(a, shown, tail)
    ensures AllTrue(a, Heads(Console(a, shown, tail)))
    ensures var heads := Heads(Console(a, shown, tail));
            shown != [] ==> exists i :: 0 <= i < |heads| && About(heads[i], a.stamp)
  {
    if shown == [] {
      ClearTail(a, tail);
    } else {
      hide Header, Heads, AllTrue, Clear, WholeLines, AllHex, IsLabel, About;
      ConsoleHeads(a, shown[1..], tail);
      var k := ShownHeads(a, shown[0], Console(a, shown[1..], tail));
    }
  }

  /** End to end: on a console with the probe's headers intact, shared with other writers and other stamps, whose
      blocks hold each line somewhere and no stray text of the right length for the line it imitates. Blocks end at the
      next END, so END lines may be lost or written over. The table `decode` returns holds the archive, unless a BEGIN
      line that is not the probe's is fatal, and then there is no table. `raw` is the capture before the EC2 timestamps
      are taken out. */
  lemma ConsoleRoundTrip(codec: Codec, archive: Bytes, stamp: string, info: string, shown: seq<Shown>,
                         copies: seq<Copy>, tail: string, raw: string)
    requires codec.decode(codec.encode(archive)) == Some(archive) && AllB64(codec.encode(archive))
    requires shown != [] && |Fold(codec.encode(archive))| <= 10000
    requires var b64 := codec.encode(archive);
             var a := Announced(stamp, info, |b64|, codec.sha256(b64), |Fold(b64)|);
             && IsConsole(a, shown, tail) && Strip(raw) == Console(a, shown, tail)
             && Covered(BlocksOf(a, shown, tail), copies, Fold(b64), |b64|)
    ensures var heads := Heads(Strip(raw));
            && (forall i :: 0 <= i < |heads| && Fatal(codec, Strip(raw), map[], heads, i) ==> !About(heads[i], stamp))
            && if AnyFatal(codec, Strip(raw), map[], heads) then Tabled(codec, raw).None?
               else Tabled(codec, raw).Some? && stamp in Tabled(codec, raw).value
                    && Tabled(codec, raw).value[stamp] == Data(archive)
  {
    var b64 := codec.encode(archive);
    var a := Announced(stamp, info, |b64|, codec.sha256(b64), |Fold(b64)|);
    var text := Strip(raw);
    ConsoleBlocks(a, shown, tail);
    ConsoleHeads(a, shown, tail);
    var heads := Heads(text);
    forall i | 0 <= i < |heads| && About(heads[i], stamp)
      ensures Outcome1(codec, text, stamp, heads[i].0, heads[i].1) == Data(archive)
    {
      NoisyBlocksRoundTrip(codec, archive, text, stamp, heads[i].0, heads[i].1, copies);
    }
    TableHolds(codec, text, heads, stamp, archive);
  }

  /** If every BEGIN line of a stamp yields the archive and there is one, the table holds it, or a line of some other
      stamp or of none is fatal. */
  lemma TableHolds(codec: Codec, text: string, heads: seq<(Head, string)>, stamp: string, archive: Bytes)
    requires exists k :: 0 <= k < |heads| && About(heads[k], stamp)
    requires forall i :: 0 <= i < |heads| && About(heads[i], stamp) ==>
               Outcome1(codec, text, stamp, heads[i].0, heads[i].1) == Data(archive)
    ensures forall i :: 0 <= i < |heads| && Fatal(codec, text, map[], heads, i) ==> !About(heads[i], stamp)
    ensures var table := Entries(codec, text, map[], heads);
            if AnyFatal(codec, text, map[], heads) then table.None?
            else table.Some? && stamp in table.value && table.value[stamp] == Data(archive)
  {
    hide Outcome1, FirstWord;
    RaisesIffFatal(codec, text, map[], heads);
    var i := FirstAbout(heads, stamp);
    if Entries(codec, text, map[], heads).Some? {
      hide Entries, Fatal;
      FirstArchiveWins(codec, text, map[], heads, stamp, i);
    }
  }

  lemma {:induction false} FirstAbout(heads: seq<(Head, string)>, stamp: string) returns (i: nat)
    requires exists k :: 0 <= k < |heads| && About(heads[k], stamp)
    ensures i < |heads| && About(heads[i], stamp)
    ensures forall j :: 0 <= j < i ==> !About(heads[j], stamp)
  {
    i := 0;
    while !About(heads[i], stamp)
      invariant i < |heads| && forall j :: 0 <= j < i ==> !About(heads[j], stamp)
      decreases |heads| - i
    {
      i := i + 1;
    }
  }

  // ---- A line that loses every archive ----

  /** A BEGIN line without a stamp. */
  const STAMPLESS := "===PROBE-BEGIN=== " + "size=1\n"

  lemma StamplessHead()
    ensures HeadHere(STAMPLESS) == Some((Head("", 1, None), "\n"))
  {
    assert STAMPLESS[|BEGIN|..] == "size=1\n";
    assert Dec(1) == "1" && "size=" + ("1" + "\n") == "size=1\n";
    NumberedRead("size=", 1, "\n");
    assert "size=1\n"[0..] == "size=1\n" && "size=1\n"[..0] == "";
    assert FindSize("size=1\n") == Some(0);
  }

  /** It is an ordinary line to every stamp, and to the reader a fatal one: a console that opens with it has no table,
      whoever else has written on it. */
  lemma StamplessIsFatal(codec: Codec, stamp: string, rest: string, raw: string)
    requires Strip(raw) == STAMPLESS + rest
    ensures WholeLines(STAMPLESS) && Clear(STAMPLESS, stamp)
    ensures Fatal(codec, Strip(raw), map[], Heads(Strip(raw)), 0)
    ensures Tabled(codec, raw).None?
  {
    var text := STAMPLESS + rest;
    var h := (Head("", 1, None), "\n" + rest);
    StamplessHead();
    HeadHereLocal(STAMPLESS, rest);
    HeadsFrom(text, h, rest);
    StamplessIsClear(stamp);
    RaisesIffFatal(codec, text, map[], Heads(text));
    assert Fatal(codec, text, map[], Heads(text), 0);
  }

  lemma StamplessIsClear(stamp: string)
    ensures WholeLines(STAMPLESS) && Clear(STAMPLESS, stamp)
  {
    StamplessHeads();
    StamplessText();
    if Marker(stamp) <= STAMPLESS {
      MarkerHasBlank(STAMPLESS, stamp);
    }
    assert STAMPLESS[1..][8..] == STAMPLESS[9..];
    LateDashIsQuiet(STAMPLESS[1..], stamp);
  }

  lemma StamplessHeads()
    ensures Heads(STAMPLESS) == [(Head("", 1, None), "\n")]
  {
    StamplessHead();
    HeadsFrom(STAMPLESS, (Head("", 1, None), "\n"), "");
  }

  lemma StamplessText()
    ensures ' ' !in STAMPLESS[|BEGIN|..] && '-' !in STAMPLESS[9..] && WholeLines(STAMPLESS)
  {
    assert STAMPLESS[|BEGIN|..] == "size=1\n";
    assert STAMPLESS[9..] == "BEGIN=== size=1\n";
  }

  lemma MarkerHasBlank(s: string, stamp: string)
    requires Marker(stamp) <= s
    ensures ' ' in s[|BEGIN|..]
  {
    assert s[|BEGIN|..][|stamp|] == Marker(stamp)[|BEGIN| + |stamp|] == ' ';
  }

  lemma {:induction false} LateDashIsQuiet(s: string, stamp: string)
    requires |s| > 8 ==> '-' !in s[8..]
    ensures Quiet(s, stamp)
  {
    if s == "" {
    } else {
      assert Marker(stamp)[8] == BEGIN[8] == '-';
      if |s| > 8 {
        assert s[8] == s[8..][0];
        assert s[1..][8..] == s[8..][1..];
      }
      LateDashIsQuiet(s[1..], stamp);
    }
  }
}
