/** The console as the probe leaves it when nobody else writes: the text of aws-vlek/probe-dual.sh, and what
    tools/decode_console.py makes of it. */
module ConsoleProbe {
  import opened Octets
  import opened DecodeConsole
  import opened ConsoleChannel
  import opened ConsoleText

  /** The output of `awk` from line `i` on. */
  function Written(lines: seq<string>, i: nat): string
    requires i <= |lines|
    decreases |lines| - i
  {
    if i == |lines| then "" else IndexedLine(i, lines[i]) + Written(lines, i + 1)
  }

  /** The lines and the END line of one copy. */
  function Body(lines: seq<string>): string {
    Written(lines, 0) + ("===PROBE-END===" + "\n")
  }

  /** Copies `number`, `number + 1`, ..., `count` as the loop prints them: a blank line, the header and the body. */
  function Printed(a: Announced, lines: seq<string>, number: nat, count: nat): string
    requires number <= count + 1
    decreases count + 1 - number
  {
    if number == count + 1 then "" else
      "\n" + (Header(a, number) + (Body(lines) + Printed(a, lines, number + 1, count)))
  }

  /** The headers of copies `number` to `count`, with what stands before each. */
  function Headers(lines: seq<string>, number: nat, count: nat): (shown: seq<Shown>)
    requires number <= count + 1
    ensures |shown| == count + 1 - number
    ensures forall k :: 0 <= k < |shown| ==> shown[k].gap == Body(lines) + "\n"
    decreases count + 1 - number
  {
    if number == count + 1 then [] else [Shown(Body(lines) + "\n", number)] + Headers(lines, number + 1, count)
  }

  /** All of them; the first has no copy before it. */
  function AllHeaders(lines: seq<string>, count: nat): seq<Shown>
    requires count > 0
  {
    [Shown("\n", 1)] + Headers(lines, 2, count)
  }

  lemma {:induction false} BodyIsConsole(a: Announced, lines: seq<string>, number: nat, count: nat)
    requires number <= count + 1
    ensures Body(lines) + Printed(a, lines, number, count) == Console(a, Headers(lines, number, count), Body(lines))
    decreases count + 1 - number
  {
    var body := Body(lines);
    hide Body;
    if number == count + 1 {
      assert body + "" == body;
    } else {
      BodyIsConsole(a, lines, number + 1, count);
      assert Headers(lines, number, count)[1..] == Headers(lines, number + 1, count);
      Assoc(body, "\n", Header(a, number) + (body + Printed(a, lines, number + 1, count)));
    }
  }

  lemma PrintedIsConsole(a: Announced, lines: seq<string>, count: nat)
    requires count > 0
    ensures Printed(a, lines, 1, count) == Console(a, AllHeaders(lines, count), Body(lines))
  {
    BodyIsConsole(a, lines, 2, count);
    assert AllHeaders(lines, count)[1..] == Headers(lines, 2, count);
  }

  // ---- The probe's lines contain no dash, and both markers do ----

  lemma {:induction false} NoDash(s: string, stamp: string)
    requires '-' !in s
    ensures Quiet(s, stamp) && NoEnd(s) && Heads(s) == []
  {
    if s == "" {
    } else {
      MarkersHaveDash(s, stamp);
      NoDash(s[1..], stamp);
    }
  }

  lemma MarkersHaveDash(s: string, stamp: string)
    requires '-' !in s
    ensures !(BEGIN <= s) && !(END <= s) && !(Marker(stamp) <= s)
  {
    assert BEGIN[8] == '-' && END[8] == '-' && Marker(stamp)[8] == BEGIN[8];
    if |s| > 8 {
      assert s[8] != '-';
    }
  }

  predicate Chunks(lines: seq<string>) {
    forall i :: 0 <= i < |lines| ==> AllB64(lines[i])
  }

  lemma {:induction false} WrittenShape(lines: seq<string>, i: nat)
    requires i <= |lines| <= 10000 && Chunks(lines)
    ensures '-' !in Written(lines, i) && WholeLines(Written(lines, i))
    decreases |lines| - i
  {
    if i >= |lines| {
    } else {
      WrittenShape(lines, i + 1);
      LineShape(i, lines[i]);
      var line, rest := IndexedLine(i, lines[i]), Written(lines, i + 1);
      if rest == "" {
        assert line + rest == line;
      } else {
        assert (line + rest)[|line + rest| - 1] == rest[|rest| - 1];
      }
    }
  }

  lemma LineShape(i: nat, chunk: string)
    requires i < 10000 && AllB64(chunk)
    ensures '-' !in IndexedLine(i, chunk)
    ensures IndexedLine(i, chunk) != "" && WholeLines(IndexedLine(i, chunk))
  {
    Pad4Reads(i);
    var pad := Pad4(i);
    hide Pad4;
    assert '-' !in pad && '-' !in chunk;
    assert '-' !in chunk + "\n" && '-' !in " " + (chunk + "\n");
    assert '-' !in pad + (" " + (chunk + "\n"));
    assert IndexedLine(i, chunk)[|IndexedLine(i, chunk)| - 1] == '\n';
  }

  // ---- Each block ends at its own END ----

  /** END does not start in the text. */
  predicate NoEnd(s: string) {
    s == "" || (!(END <= s) && NoEnd(s[1..]))
  }

  lemma {:induction false} BeforeEnd(s: string, rest: string)
    requires WholeLines(s) && NoEnd(s)
    ensures Before(s + (END + rest), END) == s
  {
    if s == "" {
      assert s + (END + rest) == END + rest;
    } else {
      PrefixLocal(s, END + rest, END);
      assert (s + (END + rest))[1..] == s[1..] + (END + rest);
      BeforeEnd(s[1..], rest);
      assert [s[0]] + s[1..] == s;
    }
  }

  /** The END line is too short to hold a BEGIN line. */
  lemma {:induction false} ShortIsQuiet(s: string, stamp: string)
    requires |s| <= 17
    ensures Quiet(s, stamp) && Heads(s) == []
  {
    if s == "" {
    } else {
      ShortIsQuiet(s[1..], stamp);
    }
  }

  lemma {:induction false} QuietAppend(s: string, rest: string, stamp: string)
    requires WholeLines(s) && Quiet(s, stamp) && Quiet(rest, stamp) && OneLine(stamp)
    ensures Quiet(s + rest, stamp)
  {
    if s == "" {
      assert s + rest == rest;
    } else {
      PrefixLocal(s, rest, Marker(stamp));
      assert (s + rest)[1..] == s[1..] + rest;
      QuietAppend(s[1..], rest, stamp);
    }
  }

  /** The body of a copy holds no BEGIN line. */
  lemma BodyIsClear(lines: seq<string>, stamp: string, rest: string)
    requires |lines| <= 10000 && Chunks(lines) && OneLine(stamp) && (rest == "" || rest == "\n")
    ensures WholeLines(Body(lines) + rest) && Quiet(Body(lines) + rest, stamp) && Heads(Body(lines) + rest) == []
  {
    var w, end := Written(lines, 0), (END + "\n") + rest;
    WrittenShape(lines, 0);
    NoDash(w, stamp);
    hide Written;
    Assoc(w, END + "\n", rest);
    ShortIsQuiet(end, stamp);
    QuietAppend(w, end, stamp);
    HeadsSplit(w, end);
    assert Behind(Heads(w), end) == [];
    assert (w + end)[|w + end| - 1] == end[|end| - 1] == '\n';
  }

  lemma {:induction false} BlocksWritten(a: Announced, lines: seq<string>, number: nat, count: nat)
    requires |lines| <= 10000 && Chunks(lines) && number <= count + 1
    ensures var blocks := BlocksOf(a, Headers(lines, number, count), Body(lines));
            |blocks| == count + 1 - number && forall k :: 0 <= k < |blocks| ==> blocks[k] == Written(lines, 0)
    decreases count + 1 - number
  {
    hide Written, Body, Console, Before, Chunks;
    if number == count + 1 {
    } else {
      BlocksWritten(a, lines, number + 1, count);
      BlockWritten(a, lines, number + 1, count);
      assert Headers(lines, number, count)[1..] == Headers(lines, number + 1, count);
    }
  }

  lemma BlockWritten(a: Announced, lines: seq<string>, number: nat, count: nat)
    requires |lines| <= 10000 && Chunks(lines) && number <= count + 1
    ensures Before(Console(a, Headers(lines, number, count), Body(lines)), END) == Written(lines, 0)
  {
    var w, rest := Written(lines, 0), Printed(a, lines, number, count);
    BodyIsConsole(a, lines, number, count);
    WrittenShape(lines, 0);
    NoDash(w, a.stamp);
    hide Written, Printed, Console, Headers;
    Assoc(w, END + "\n", rest);
    Assoc(END, "\n", rest);
    BeforeEnd(w, "\n" + rest);
  }

  // ---- A clean block is a copy in which every line survives ----

  function CleanParts(n: nat, i: nat): (parts: seq<Noisy>)
    requires i <= n
    ensures |parts| == n - i && forall k :: 0 <= k < |parts| ==> parts[k] == Noisy("", i + k)
    decreases n - i
  {
    if i == n then [] else [Noisy("", i)] + CleanParts(n, i + 1)
  }

  lemma {:induction false} WrittenIsNoisy(lines: seq<string>, i: nat)
    requires i <= |lines|
    ensures NoisyText(CleanParts(|lines|, i), lines, "") == Written(lines, i)
    decreases |lines| - i
  {
    if i >= |lines| {
    } else {
      WrittenIsNoisy(lines, i + 1);
      var parts := CleanParts(|lines|, i);
      assert parts[1..] == CleanParts(|lines|, i + 1) && parts[0] == Noisy("", i);
      assert "" + (IndexedLine(i, lines[i]) + Written(lines, i + 1)) == Written(lines, i);
    }
  }

  function CleanCopies(nlines: nat, count: nat): (copies: seq<Copy>)
    ensures |copies| == count && forall b :: 0 <= b < count ==> copies[b] == Copy(CleanParts(nlines, 0), "")
  {
    seq(count, _ => Copy(CleanParts(nlines, 0), ""))
  }

  lemma CleanSurvives(lines: seq<string>, count: nat, i: nat)
    requires count > 0 && i < |lines|
    ensures SurvivesSomewhere(CleanCopies(|lines|, count), i)
  {
    var copies := CleanCopies(|lines|, count);
    assert copies[0].parts[i].index == i;
    assert Survives(copies[0], i);
  }

  lemma CleanIsCopy(lines: seq<string>, size: nat)
    ensures var copy := Copy(CleanParts(|lines|, 0), "");
            IsCopy(copy, size, |lines|) && CopyText(copy, lines, size) == Written(lines, 0)
  {
    assert Lines("") == [];
    WrittenIsNoisy(lines, 0);
  }

  lemma CleanCovers(blocks: seq<string>, lines: seq<string>, size: nat)
    requires blocks != [] && forall k :: 0 <= k < |blocks| ==> blocks[k] == Written(lines, 0)
    ensures Covered(blocks, CleanCopies(|lines|, |blocks|), lines, size)
  {
    hide CleanCopies, CleanParts, NoisyText, Written, IsCopy, CopyText, SurvivesSomewhere;
    CleanIsCopy(lines, size);
    forall i | 0 <= i < |lines|
      ensures SurvivesSomewhere(CleanCopies(|lines|, |blocks|), i)
    {
      CleanSurvives(lines, |blocks|, i);
    }
  }

  // ---- Nothing but the probe's own BEGIN lines ----

  predicate OnlyAbout(heads: seq<(Head, string)>, stamp: string) {
    forall i :: 0 <= i < |heads| ==> About(heads[i], stamp)
  }

  lemma BodyHeads(lines: seq<string>, stamp: string, rest: string)
    requires |lines| <= 10000 && Chunks(lines) && OneLine(stamp)
    ensures Heads(Body(lines) + rest) == Heads(rest)
  {
    BodyIsClear(lines, stamp, "");
    hide Body, Heads;
    assert Body(lines) + "" == Body(lines);
    HeadsSplit(Body(lines), rest);
    assert Behind([], rest) == [] && [] + Heads(rest) == Heads(rest);
  }

  lemma PrintedHead(a: Announced, number: nat, after: string)
    requires IsLabel(a.stamp, a.info) && |a.sha| == 64 && AllHex(a.sha)
    requires OnlyAbout(Heads(after), a.stamp)
    ensures OnlyAbout(Heads("\n" + (Header(a, number) + after)), a.stamp)
  {
    hide IsLabel, AllHex, Header, Heads, About;
    var h := HeaderHeads(a, number, after);
    BreakHasNoHead(Header(a, number) + after);
  }

  lemma {:induction false} PrintedHeads(a: Announced, lines: seq<string>, number: nat, count: nat)
    requires IsLabel(a.stamp, a.info) && |a.sha| == 64 && AllHex(a.sha)
    requires |lines| <= 10000 && Chunks(lines) && number <= count + 1
    ensures OnlyAbout(Heads(Printed(a, lines, number, count)), a.stamp)
    decreases count + 1 - number
  {
    if number == count + 1 {
    } else {
      WordsOneLine(a.stamp, a.info);
      PrintedHeads(a, lines, number + 1, count);
      BodyHeads(lines, a.stamp, Printed(a, lines, number + 1, count));
      PrintedHead(a, number, Body(lines) + Printed(a, lines, number + 1, count));
    }
  }

  /** Every BEGIN line of one stamp, each yielding the same archive: one entry. */
  lemma {:induction false} OneEntry(codec: Codec, text: string, out: Table, heads: seq<(Head, string)>, stamp: string,
                                    data: Bytes)
    requires OnlyAbout(heads, stamp)
    requires forall i :: 0 <= i < |heads| ==> Outcome1(codec, text, stamp, heads[i].0, heads[i].1) == Data(data)
    requires out == map[] || out == map[stamp := Data(data)]
    ensures Entries(codec, text, out, heads) == Some(if heads == [] then out else map[stamp := Data(data)])
    decreases heads
  {
    if heads == [] {
    } else {
      var out' := Entered(codec, text, out, heads[0]);
      assert out' == Some(map[stamp := Data(data)]);
      OneEntry(codec, text, out'.value, heads[1..], stamp, data);
    }
  }

  /** The probe's own output, read back: the table holds the stamp with the archive and nothing else, for any archive of
      at most 10000 lines, any number of copies and any timestamps the console adds. */
  lemma ProbeRoundTrip(codec: Codec, archive: Bytes, stamp: string, info: string, count: nat, raw: string)
    requires codec.decode(codec.encode(archive)) == Some(archive) && AllB64(codec.encode(archive))
    requires |Fold(codec.encode(archive))| <= 10000 && count > 0
    requires IsLabel(stamp, info)
    requires var sha := codec.sha256(codec.encode(archive)); |sha| == 64 && AllHex(sha)
    requires var b64 := codec.encode(archive);
             Strip(raw) == Printed(Announced(stamp, info, |b64|, codec.sha256(b64), |Fold(b64)|), Fold(b64), 1, count)
    ensures Tabled(codec, raw) == Some(map[stamp := Data(archive)])
  {
    var b64 := codec.encode(archive);
    var lines := Fold(b64);
    var a := Announced(stamp, info, |b64|, codec.sha256(b64), |lines|);
    var shown := AllHeaders(lines, count);
    var text := Strip(raw);
    var heads := Heads(text);
    FoldIsChunks(b64);
    HeadersAreConsole(a, lines, count);
    ConsoleBlocks(a, shown, Body(lines));
    ConsoleHeads(a, shown, Body(lines));
    PrintedHeads(a, lines, 1, count);
    AllWritten(a, lines, count);
    var blocks := Blocks(text, stamp);
    CleanCovers(blocks, lines, |b64|);
    forall i | 0 <= i < |heads|
      ensures Outcome1(codec, text, stamp, heads[i].0, heads[i].1) == Data(archive)
    {
      assert About(heads[i], stamp);
      NoisyBlocksRoundTrip(codec, archive, text, stamp, heads[i].0, heads[i].1, CleanCopies(|lines|, |blocks|));
    }
    OneEntry(codec, text, map[], heads, stamp, archive);
  }

  lemma FoldIsChunks(b64: string)
    requires AllB64(b64)
    ensures Chunks(Fold(b64))
  {
    forall i | 0 <= i < |Fold(b64)|
      ensures AllB64(Fold(b64)[i])
    {
      FoldShape(b64, i);
    }
  }

  lemma HeadersAreConsole(a: Announced, lines: seq<string>, count: nat)
    requires IsLabel(a.stamp, a.info) && |a.sha| == 64 && AllHex(a.sha)
    requires |lines| <= 10000 && Chunks(lines) && count > 0
    ensures IsConsole(a, AllHeaders(lines, count), Body(lines))
    ensures Printed(a, lines, 1, count) == Console(a, AllHeaders(lines, count), Body(lines))
  {
    WordsOneLine(a.stamp, a.info);
    PrintedIsConsole(a, lines, count);
    BodyIsClear(lines, a.stamp, "");
    BodyIsClear(lines, a.stamp, "\n");
    NoDash("\n", a.stamp);
    assert Body(lines) + "" == Body(lines);
    QuietIsClear(Body(lines), a.stamp);
    QuietIsClear(Body(lines) + "\n", a.stamp);
    QuietIsClear("\n", a.stamp);
    hide *;
    GapsAreClear(a, lines, count);
  }

  lemma QuietIsClear(s: string, stamp: string)
    requires Quiet(s, stamp) && Heads(s) == []
    ensures Clear(s, stamp)
  {
  }

  lemma GapsAreClear(a: Announced, lines: seq<string>, count: nat)
    requires IsLabel(a.stamp, a.info) && |a.sha| == 64 && AllHex(a.sha) && count > 0
    requires Clear(Body(lines), a.stamp) && Clear("\n", a.stamp)
    requires WholeLines(Body(lines) + "\n") && Clear(Body(lines) + "\n", a.stamp)
    ensures IsConsole(a, AllHeaders(lines, count), Body(lines))
  {
    hide Body, Clear, IsLabel, AllHex;
    assert WholeLines("\n");
  }

  lemma AllWritten(a: Announced, lines: seq<string>, count: nat)
    requires |lines| <= 10000 && Chunks(lines) && count > 0
    ensures var blocks := BlocksOf(a, AllHeaders(lines, count), Body(lines));
            blocks != [] && forall k :: 0 <= k < |blocks| ==> blocks[k] == Written(lines, 0)
  {
    hide Written, Body, Console, Before, Headers, Chunks;
    BlocksWritten(a, lines, 2, count);
    BlockWritten(a, lines, 2, count);
    assert AllHeaders(lines, count)[1..] == Headers(lines, 2, count);
  }
}
