/** The probe's writer (aws-vlek/probe-dual.sh) and the console in between: what noise the reassembly of
    tools/decode_console.py survives. */
module ConsoleChannel {
  import opened Octets
  import opened Decimal
  import opened DecodeConsole

  // ---- The writer ----

  /** `fold -w 76`. */
  function Fold(s: string): (lines: seq<string>)
    ensures s == "" <==> lines == []
  {
    if |s| == 0 then [] else if |s| <= WIDTH then [s] else [s[..WIDTH]] + Fold(s[WIDTH..])
  }

  /** `printf "%04d"`. */
  function Pad4(i: nat): string {
    var tens := i / 10;
    var hundreds := tens / 10;
    var thousands := hundreds / 10;
    if thousands < 10 then [DigitChar(thousands), DigitChar(hundreds % 10), DigitChar(tens % 10), DigitChar(i % 10)]
    else Dec(i)
  }

  /** `printf "@@%04d %s\n"`. */
  function IndexedLine(i: nat, chunk: string): string {
    "@@" + (Pad4(i) + (" " + (chunk + "\n")))
  }

  predicate AllB64(s: string) {
    forall i :: 0 <= i < |s| ==> IsB64(s[i])
  }

  lemma {:induction false} FoldShape(s: string, i: nat)
    requires i < |Fold(s)|
    ensures |Fold(s)[i]| == Want(i, |s|, |Fold(s)|)
    ensures Fold(s)[i] != "" && (AllB64(s) ==> AllB64(Fold(s)[i]))
  {
    if |s| <= WIDTH {
    } else {
      var rest := Fold(s[WIDTH..]);
      if i > 0 {
        FoldShape(s[WIDTH..], i - 1);
        assert Fold(s)[i] == rest[i - 1];
      }
    }
  }

  /** Every line but the last has 76 characters, and the last has the rest, between 1 and 76. */
  lemma FoldedLengths(s: string, i: nat)
    requires i < |Fold(s)|
    ensures i + 1 < |Fold(s)| ==> |Fold(s)[i]| == 76
    ensures i + 1 == |Fold(s)| ==> |Fold(s)[i]| == |s| - 76 * (|Fold(s)| - 1) && 1 <= |Fold(s)[i]| <= 76
  {
    FoldShape(s, i);
    if i + 1 == |Fold(s)| {
      LastLine(s);
    }
  }

  lemma {:induction false} LastLine(s: string)
    requires s != ""
    ensures |Fold(s)[|Fold(s)| - 1]| <= 76
  {
    if |s| <= WIDTH {
    } else {
      LastLine(s[WIDTH..]);
      var rest := Fold(s[WIDTH..]);
      assert Fold(s)[|Fold(s)| - 1] == rest[|rest| - 1];
    }
  }

  /** The first `n` lines joined. */
  function Unfolded(lines: seq<string>, n: nat): string
    requires n <= |lines|
  {
    if n == 0 then "" else Unfolded(lines, n - 1) + lines[n - 1]
  }

  lemma {:induction false} UnfoldedSplit(lines: seq<string>, n: nat)
    requires 0 < n <= |lines|
    ensures Unfolded(lines, n) == lines[0] + Unfolded(lines[1..], n - 1)
  {
    if n > 1 {
      UnfoldedSplit(lines, n - 1);
      Assoc(lines[0], Unfolded(lines[1..], n - 2), lines[n - 1]);
    }
  }

  lemma {:induction false} FoldUnfolds(s: string)
    ensures Unfolded(Fold(s), |Fold(s)|) == s
  {
    if s == "" {
    } else {
      UnfoldedSplit(Fold(s), |Fold(s)|);
      if |s| > WIDTH {
        FoldUnfolds(s[WIDTH..]);
        assert Fold(s)[1..] == Fold(s[WIDTH..]);
        assert s[..WIDTH] + s[WIDTH..] == s;
      } else {
        assert Fold(s)[1..] == [];
      }
    }
  }

  // ---- Any candidates whose fitting ones are true ----

  /** Every candidate of the right length is the true line, and every line has one. */
  predicate Faithful(cands: seq<Cand>, lines: seq<string>, size: nat) {
    && (forall c :: c in cands && c.index < |lines| && Fits(c, size, |lines|) ==> c.body == lines[c.index])
    && (forall i :: 0 <= i < |lines| ==> Cand(i, lines[i]) in cands)
  }

  /** The weaker condition of the round trip: the first candidate of the right length for each index is true. */
  predicate FirstIsTrue(cands: seq<Cand>, lines: seq<string>, size: nat) {
    forall i :: 0 <= i < |lines| ==> FirstFit(cands, i, size, |lines|) == Some(lines[i])
  }

  lemma {:induction false} FirstOfFaithful(cands: seq<Cand>, i: nat, line: string, size: nat, nlines: nat)
    requires forall c :: c in cands && c.index == i && Fits(c, size, nlines) ==> c.body == line
    requires Cand(i, line) in cands && |line| == Want(i, size, nlines)
    ensures FirstFit(cands, i, size, nlines) == Some(line)
  {
    if !(cands[0].index == i && Fits(cands[0], size, nlines)) {
      FirstOfFaithful(cands[1..], i, line, size, nlines);
    } else {
      assert cands[0] in cands;
    }
  }

  lemma {:induction false} JoinedIsUnfolded(cands: seq<Cand>, lines: seq<string>, size: nat, n: nat)
    requires FirstIsTrue(cands, lines, size) && n <= |lines|
    ensures Complete(cands, size, |lines|) && Joined(cands, size, |lines|, n) == Unfolded(lines, n)
  {
    if n == 0 {
    } else {
      JoinedIsUnfolded(cands, lines, size, n - 1);
    }
  }

  /** The noisy round trip: with an intact header, if the first right-length line of each index is the true one, exactly
      the archive comes back. */
  lemma NoisyRoundTrip(codec: Codec, archive: Bytes, text: string, stamp: string, h: Head, after: string)
    requires codec.decode(codec.encode(archive)) == Some(archive)
    requires var b64 := codec.encode(archive);
             h.size == |b64| && h.indexed == Some((codec.sha256(b64), |Fold(b64)|))
             && FirstIsTrue(AllLines(Blocks(text, stamp)), Fold(b64), |b64|)
    ensures Outcome1(codec, text, stamp, h, after) == Data(archive)
  {
    var b64 := codec.encode(archive);
    JoinedIsUnfolded(AllLines(Blocks(text, stamp)), Fold(b64), |b64|, |Fold(b64)|);
    FoldUnfolds(b64);
  }

  lemma {:induction false} JoinedDetermines(cands: seq<Cand>, lines: seq<string>, size: nat, n: nat, i: nat)
    requires Complete(cands, size, |lines|) && i < n <= |lines|
    requires forall k :: 0 <= k < |lines| ==> |lines[k]| == Want(k, size, |lines|)
    requires Joined(cands, size, |lines|, n) == Unfolded(lines, n)
    ensures FirstFit(cands, i, size, |lines|) == Some(lines[i])
  {
    hide Fold, Want;
    FitIsCandidate(cands, n - 1, size, |lines|);
    var a, b := Joined(cands, size, |lines|, n - 1), FirstFit(cands, n - 1, size, |lines|).value;
    var c, d := Unfolded(lines, n - 1), lines[n - 1];
    assert |a| == |c|;
    TakeAppend(a, b);
    TakeAppend(c, d);
    if i < n - 1 {
      JoinedDetermines(cands, lines, size, n - 1, i);
    }
  }

  /** Conversely, under an intact header anything returned is the archive and every first right-length line is true, or
      a SHA-256 collision is at hand. */
  lemma OnlyTheArchive(codec: Codec, archive: Bytes, text: string, stamp: string, h: Head, after: string)
    returns (other: string)
    requires codec.decode(codec.encode(archive)) == Some(archive)
    requires var b64 := codec.encode(archive);
             h.size == |b64| && h.indexed == Some((codec.sha256(b64), |Fold(b64)|))
    requires Outcome1(codec, text, stamp, h, after).Data?
    ensures var b64 := codec.encode(archive);
            || (other != b64 && codec.sha256(other) == codec.sha256(b64))
            || (Outcome1(codec, text, stamp, h, after) == Data(archive)
                && FirstIsTrue(AllLines(Blocks(text, stamp)), Fold(b64), |b64|))
  {
    ReassemblySound(codec, text, stamp, h, after);
    var b64 := codec.encode(archive);
    var lines, cands := Fold(b64), AllLines(Blocks(text, stamp));
    other := Joined(cands, |b64|, |lines|, |lines|);
    if other == b64 {
      FoldUnfolds(b64);
      forall k | 0 <= k < |lines|
        ensures |lines[k]| == Want(k, |b64|, |lines|)
      {
        FoldShape(b64, k);
      }
      forall i | 0 <= i < |lines|
        ensures FirstFit(cands, i, |b64|, |lines|) == Some(lines[i])
      {
        JoinedDetermines(cands, lines, |b64|, |lines|, i);
      }
    }
  }

  // ---- A block with noise between, before and after its lines ----

  /** Other writers' output, then an intact line. */
  datatype Noisy = Noisy(noise: string, index: nat)

  function NoisyText(parts: seq<Noisy>, lines: seq<string>, tail: string): string
    requires forall k :: 0 <= k < |parts| ==> parts[k].index < |lines|
  {
    if |parts| == 0 then tail
    else parts[0].noise + (IndexedLine(parts[0].index, lines[parts[0].index]) + NoisyText(parts[1..], lines, tail))
  }

  /** The candidates of such a block: those inside the noise, and the true lines. */
  function NoisyLines(parts: seq<Noisy>, lines: seq<string>, tail: string): seq<Cand>
    requires forall k :: 0 <= k < |parts| ==> parts[k].index < |lines|
  {
    if |parts| == 0 then Lines(tail)
    else Lines(parts[0].noise) + ([Cand(parts[0].index, lines[parts[0].index])] + NoisyLines(parts[1..], lines, tail))
  }

  lemma {:induction false} B64SpanAppend(s: string, rest: string)
    requires rest == "" || !IsB64(rest[0])
    ensures B64Span(s + rest) == B64Span(s)
  {
    if s == "" {
      assert s + rest == rest;
    } else {
      assert (s + rest)[1..] == s[1..] + rest;
      B64SpanAppend(s[1..], rest);
    }
  }

  lemma {:induction false} B64SpanAll(s: string)
    requires AllB64(s)
    ensures B64Span(s) == |s|
  {
    if s == "" {
    } else {
      B64SpanAll(s[1..]);
    }
  }

  /** No match runs from noise into a line: a line starts with `@@`, which no match can contain further on. */
  lemma LineHereLocal(s: string, rest: string)
    requires s != "" && (rest == "" || "@@" <= rest)
    ensures LineHere(s + rest) == LineHere(s)
  {
    var t := s + rest;
    assert forall i :: 0 <= i < |s| ==> t[i] == s[i];
    if rest != "" {
      assert t[|s|] == '@' && t[|s| + 1] == '@';
    }
  }

  /** So a match in the noise stays what it is. */
  lemma MatchLocal(s: string, rest: string)
    requires s != "" && (rest == "" || "@@" <= rest)
    ensures var m := MatchHere(s);
            MatchHere(s + rest) == if m.None? then None else Some((m.value.0, m.value.1 + rest))
  {
    LineHereLocal(s, rest);
    if LineHere(s) {
      var t := s + rest;
      B64SpanAppend(s[7..], rest);
      var k := B64Span(s[7..]);
      assert t[7..] == s[7..] + rest && t[2..6] == s[2..6];
      assert t[7..7 + k] == s[7..7 + k] && t[7 + k..] == s[7 + k..] + rest;
    }
  }

  lemma {:induction false} LinesSplit(s: string, rest: string)
    requires rest == "" || "@@" <= rest
    ensures Lines(s + rest) == Lines(s) + Lines(rest)
    decreases |s|
  {
    hide MatchHere;
    var t := s + rest;
    if s == "" {
      assert t == rest;
    } else {
      MatchLocal(s, rest);
      if MatchHere(s).Some? {
        var (c, more) := MatchHere(s).value;
        LinesSplit(more, rest);
        Assoc([c], Lines(more), Lines(rest));
      } else {
        assert t[1..] == s[1..] + rest;
        LinesSplit(s[1..], rest);
      }
    }
  }

  lemma Pad4Reads(i: nat)
    requires i < 10000
    ensures |Pad4(i)| == 4 && AllDigits(Pad4(i)) && NatOf(Pad4(i)) == i
  {
    NatOfFour(Pad4(i));
  }

  /** An intact line with an index of four digits is read as what it is. */
  lemma LineRead(i: nat, chunk: string, rest: string)
    requires i < 10000 && chunk != "" && AllB64(chunk)
    ensures Lines(IndexedLine(i, chunk) + rest) == [Cand(i, chunk)] + Lines(rest)
  {
    Pad4Reads(i);
    LineText(Pad4(i), chunk, rest);
    var s := IndexedLine(i, chunk) + rest;
    B64SpanAll(chunk);
    B64SpanAppend(chunk, "\n" + rest);
    assert Lines("\n" + rest) == Lines(rest) by {
      assert ("\n" + rest)[1..] == rest;
    }
    TakeAppend(chunk, "\n" + rest);
  }

  lemma LineText(pad: string, chunk: string, rest: string)
    requires |pad| == 4 && AllDigits(pad) && chunk != "" && IsB64(chunk[0])
    ensures var s := "@@" + (pad + (" " + (chunk + "\n"))) + rest;
            LineHere(s) && s[2..6] == pad && s[7..] == chunk + ("\n" + rest)
            && s[7..7 + |chunk|] == chunk && s[7 + |chunk|..] == "\n" + rest
  {
    var s := "@@" + (pad + (" " + (chunk + "\n"))) + rest;
    assert s[2..6] == pad;
    assert s[2] == pad[0] && s[3] == pad[1] && s[4] == pad[2] && s[5] == pad[3];
    assert s[7..] == chunk + ("\n" + rest);
    assert s[7] == chunk[0];
    assert s[7..7 + |chunk|] == chunk;
  }

  lemma {:induction false} NoisyScan(parts: seq<Noisy>, lines: seq<string>, tail: string)
    requires |lines| <= 10000 && forall i :: 0 <= i < |lines| ==> lines[i] != "" && AllB64(lines[i])
    requires forall k :: 0 <= k < |parts| ==> parts[k].index < |lines|
    ensures Lines(NoisyText(parts, lines, tail)) == NoisyLines(parts, lines, tail)
  {
    if parts == [] {
    } else {
      var Noisy(noise, i) := parts[0];
      var rest := NoisyText(parts[1..], lines, tail);
      NoisyScan(parts[1..], lines, tail);
      assert "@@" <= IndexedLine(i, lines[i]) + rest;
      LinesSplit(noise, IndexedLine(i, lines[i]) + rest);
      LineRead(i, lines[i], rest);
    }
  }

  // ---- Noise that cannot mislead ----

  /** No candidate inside the noise has the length of the line it claims to be. */
  predicate Harmless(noise: string, size: nat, nlines: nat) {
    forall c :: c in Lines(noise) && c.index < nlines ==> !Fits(c, size, nlines)
  }

  /** A copy of the block as it shows on the console: which lines survived, and what stands around them. */
  datatype Copy = Copy(parts: seq<Noisy>, tail: string)

  predicate IsCopy(copy: Copy, size: nat, nlines: nat) {
    && Harmless(copy.tail, size, nlines)
    && forall k :: 0 <= k < |copy.parts| ==> copy.parts[k].index < nlines && Harmless(copy.parts[k].noise, size, nlines)
  }

  function CopyText(copy: Copy, lines: seq<string>, size: nat): string
    requires IsCopy(copy, size, |lines|)
  {
    NoisyText(copy.parts, lines, copy.tail)
  }

  lemma {:induction false} NoisyFaithful(parts: seq<Noisy>, lines: seq<string>, tail: string, size: nat, c: Cand)
    requires IsCopy(Copy(parts, tail), size, |lines|)
    requires c in NoisyLines(parts, lines, tail) && c.index < |lines| && Fits(c, size, |lines|)
    ensures c.body == lines[c.index]
  {
    if parts != [] && c !in Lines(parts[0].noise) && c != Cand(parts[0].index, lines[parts[0].index]) {
      NoisyFaithful(parts[1..], lines, tail, size, c);
    }
  }

  lemma {:induction false} NoisyHasLine(parts: seq<Noisy>, lines: seq<string>, tail: string, k: nat)
    requires forall j :: 0 <= j < |parts| ==> parts[j].index < |lines|
    requires k < |parts|
    ensures Cand(parts[k].index, lines[parts[k].index]) in NoisyLines(parts, lines, tail)
  {
    if k == 0 {
    } else {
      NoisyHasLine(parts[1..], lines, tail, k - 1);
    }
  }

  /** Line `i` survived in this copy. */
  predicate Survives(copy: Copy, i: nat) {
    exists k :: 0 <= k < |copy.parts| && copy.parts[k].index == i
  }

  predicate SurvivesSomewhere(copies: seq<Copy>, i: nat) {
    exists b :: 0 <= b < |copies| && Survives(copies[b], i)
  }

  /** The blocks are copies of the folded archive, and every line survived in one of them. */
  predicate Covered(blocks: seq<string>, copies: seq<Copy>, lines: seq<string>, size: nat) {
    && |blocks| == |copies|
    && (forall b :: 0 <= b < |copies| ==>
          IsCopy(copies[b], size, |lines|) && blocks[b] == CopyText(copies[b], lines, size))
    && (forall i :: 0 <= i < |lines| ==> SurvivesSomewhere(copies, i))
  }

  lemma {:induction false} InSomeBlock(blocks: seq<string>, c: Cand) returns (b: nat)
    requires c in AllLines(blocks)
    ensures b < |blocks| && c in Lines(blocks[b])
  {
    if c in Lines(blocks[0]) {
      b := 0;
    } else {
      b := InSomeBlock(blocks[1..], c);
      b := b + 1;
    }
  }

  lemma {:induction false} BlockIncluded(blocks: seq<string>, b: nat, c: Cand)
    requires b < |blocks| && c in Lines(blocks[b])
    ensures c in AllLines(blocks)
  {
    if b == 0 {
    } else {
      BlockIncluded(blocks[1..], b - 1, c);
    }
  }

  lemma CoveredIsFaithful(blocks: seq<string>, copies: seq<Copy>, b64: string)
    requires AllB64(b64) && |Fold(b64)| <= 10000 && Covered(blocks, copies, Fold(b64), |b64|)
    ensures Faithful(AllLines(blocks), Fold(b64), |b64|)
  {
    var lines := Fold(b64);
    forall i | 0 <= i < |lines|
      ensures lines[i] != "" && AllB64(lines[i])
    {
      FoldShape(b64, i);
    }
    forall c | c in AllLines(blocks) && c.index < |lines| && Fits(c, |b64|, |lines|)
      ensures c.body == lines[c.index]
    {
      var b := InSomeBlock(blocks, c);
      NoisyScan(copies[b].parts, lines, copies[b].tail);
      NoisyFaithful(copies[b].parts, lines, copies[b].tail, |b64|, c);
    }
    forall i | 0 <= i < |lines|
      ensures Cand(i, lines[i]) in AllLines(blocks)
    {
      assert SurvivesSomewhere(copies, i);
      var b :| 0 <= b < |copies| && Survives(copies[b], i);
      var k :| 0 <= k < |copies[b].parts| && copies[b].parts[k].index == i;
      NoisyScan(copies[b].parts, lines, copies[b].tail);
      NoisyHasLine(copies[b].parts, lines, copies[b].tail, k);
      BlockIncluded(blocks, b, Cand(i, lines[i]));
    }
  }

  lemma FaithfulIsFirst(cands: seq<Cand>, b64: string)
    requires Faithful(cands, Fold(b64), |b64|)
    ensures FirstIsTrue(cands, Fold(b64), |b64|)
  {
    var lines := Fold(b64);
    forall i | 0 <= i < |lines|
      ensures FirstFit(cands, i, |b64|, |lines|) == Some(lines[i])
    {
      FoldShape(b64, i);
      FirstOfFaithful(cands, i, lines[i], |b64|, |lines|);
    }
  }

  /** Blocks cut up and written over by others still give back the archive, so long as each line survives in some copy
      and no stray text has the length of the line it imitates. */
  lemma NoisyBlocksRoundTrip(codec: Codec, archive: Bytes, text: string, stamp: string, h: Head, after: string,
                             copies: seq<Copy>)
    requires codec.decode(codec.encode(archive)) == Some(archive) && AllB64(codec.encode(archive))
    requires var b64 := codec.encode(archive);
             && |Fold(b64)| <= 10000
             && h.size == |b64| && h.indexed == Some((codec.sha256(b64), |Fold(b64)|))
             && Covered(Blocks(text, stamp), copies, Fold(b64), |b64|)
    ensures Outcome1(codec, text, stamp, h, after) == Data(archive)
  {
    var b64 := codec.encode(archive);
    CoveredIsFaithful(Blocks(text, stamp), copies, b64);
    FaithfulIsFirst(AllLines(Blocks(text, stamp)), b64);
    NoisyRoundTrip(codec, archive, text, stamp, h, after);
  }

  // ---- What is joined, in numbers ----

  /** Lines of 76 characters, closed by one of 1 to 76. */
  predicate AreLines(lines: seq<string>) {
    && (forall i :: 0 <= i < |lines| - 1 ==> |lines[i]| == 76)
    && (lines != [] ==> 1 <= |lines[|lines| - 1]| <= 76)
  }

  /** The first candidate under index `i` with as many characters as `line` is `line`. */
  predicate ComesFirst(cands: seq<Cand>, i: nat, line: string) {
    exists k :: && 0 <= k < |cands| && cands[k] == Cand(i, line)
                && forall j :: 0 <= j < k ==> cands[j].index != i || |cands[j].body| != |line|
  }

  lemma {:induction false} FirstIsFit(cands: seq<Cand>, i: nat, line: string, size: nat, nlines: nat)
    requires ComesFirst(cands, i, line)
    requires |line| == if i < nlines - 1 then 76 else size - 76 * (nlines - 1)
    ensures FirstFit(cands, i, size, nlines) == Some(line)
  {
    var k :| && 0 <= k < |cands| && cands[k] == Cand(i, line)
             && forall j :: 0 <= j < k ==> cands[j].index != i || |cands[j].body| != |line|;
    if k == 0 {
    } else {
      var rest := cands[1..];
      assert rest[k - 1] == Cand(i, line);
      assert forall j :: 0 <= j < k - 1 ==> rest[j] == cands[j + 1];
      assert ComesFirst(rest, i, line);
      FirstIsFit(rest, i, line, size, nlines);
    }
  }

  lemma {:induction false} JoinedSize(lines: seq<string>, n: nat)
    requires n <= |lines| && forall i :: 0 <= i < |lines| - 1 ==> |lines[i]| == 76
    ensures |Unfolded(lines, n)| == if n < |lines| || n == 0 then 76 * n else 76 * (n - 1) + |lines[n - 1]|
  {
    if n == 0 {
    } else {
      JoinedSize(lines, n - 1);
    }
  }

  /** Lines of these lengths, each the first of its length under its index, are joined in order and decoded. */
  lemma LinesAreJoined(codec: Codec, cands: seq<Cand>, lines: seq<string>)
    requires AreLines(lines) && forall i :: 0 <= i < |lines| ==> ComesFirst(cands, i, lines[i])
    ensures var b64 := Unfolded(lines, |lines|);
            Reassembled(codec, cands, |b64|, codec.sha256(b64), |lines|)
            == match codec.decode(b64)
               case Some(data) => Data(data)
               case None => Raised
  {
    var b64 := Unfolded(lines, |lines|);
    JoinedSize(lines, |lines|);
    forall i | 0 <= i < |lines|
      ensures FirstFit(cands, i, |b64|, |lines|) == Some(lines[i])
    {
      FirstIsFit(cands, i, lines[i], |b64|, |lines|);
    }
    JoinedIsUnfolded(cands, lines, |b64|, |lines|);
  }

  /** The candidates of the announced lengths. */
  function OfLength(cands: seq<Cand>, size: nat, nlines: nat): seq<Cand> {
    if |cands| == 0 then [] else
      var c := cands[0];
      (if |c.body| == (if c.index < nlines - 1 then 76 else size - 76 * (nlines - 1)) then [c] else [])
      + OfLength(cands[1..], size, nlines)
  }

  lemma {:induction false} FitOfLength(cands: seq<Cand>, i: nat, size: nat, nlines: nat)
    ensures FirstFit(OfLength(cands, size, nlines), i, size, nlines) == FirstFit(cands, i, size, nlines)
  {
    if cands == [] {
    } else {
      FitOfLength(cands[1..], i, size, nlines);
      var rest := OfLength(cands[1..], size, nlines);
      assert ([cands[0]] + rest)[1..] == rest && [] + rest == rest;
    }
  }

  lemma {:induction false} GapsOfLength(cands: seq<Cand>, size: nat, nlines: nat, n: nat)
    ensures Gaps(OfLength(cands, size, nlines), size, nlines, n) == Gaps(cands, size, nlines, n)
  {
    if n == 0 {
    } else {
      GapsOfLength(cands, size, nlines, n - 1);
      FitOfLength(cands, n - 1, size, nlines);
    }
  }

  lemma {:induction false} JoinedOfLength(cands: seq<Cand>, size: nat, nlines: nat, n: nat)
    requires n <= nlines && Complete(cands, size, nlines) && Complete(OfLength(cands, size, nlines), size, nlines)
    ensures Joined(OfLength(cands, size, nlines), size, nlines, n) == Joined(cands, size, nlines, n)
  {
    if n == 0 {
    } else {
      JoinedOfLength(cands, size, nlines, n - 1);
      FitOfLength(cands, n - 1, size, nlines);
    }
  }

  /** A candidate of any other length plays no part in the outcome. */
  lemma OtherLengthsIgnored(codec: Codec, cands: seq<Cand>, size: nat, sha: string, nlines: nat)
    ensures Reassembled(codec, OfLength(cands, size, nlines), size, sha, nlines)
         == Reassembled(codec, cands, size, sha, nlines)
  {
    forall i: nat
      ensures FirstFit(OfLength(cands, size, nlines), i, size, nlines) == FirstFit(cands, i, size, nlines)
    {
      FitOfLength(cands, i, size, nlines);
    }
    GapsOfLength(cands, size, nlines, nlines);
    if Complete(cands, size, nlines) {
      JoinedOfLength(cands, size, nlines, nlines);
    }
  }

  // ---- The alphabet, and the format of a single line ----

  /** The base64 alphabet with its padding. */
  lemma Alphabet(c: char)
    ensures IsB64(c) <==>
            || c in "ABCDEFGHIJKLMNOPQRSTUVWXYZ"
            || c in "abcdefghijklmnopqrstuvwxyz"
            || c in "0123456789+/="
  {
  }

  /** A payload with anything but base64 between its characters. */
  datatype Scattered = Scattered(noise: string, c: char)

  function ScatteredText(parts: seq<Scattered>, tail: string): string {
    if |parts| == 0 then tail else parts[0].noise + ([parts[0].c] + ScatteredText(parts[1..], tail))
  }

  function Collected(parts: seq<Scattered>): string {
    if |parts| == 0 then "" else [parts[0].c] + Collected(parts[1..])
  }

  predicate NoB64(s: string) {
    forall i :: 0 <= i < |s| ==> !IsB64(s[i])
  }

  lemma {:induction false} NoiseDropped(noise: string, rest: string)
    requires NoB64(noise)
    ensures OnlyB64(noise + rest) == OnlyB64(rest)
  {
    if noise == "" {
      assert noise + rest == rest;
    } else {
      assert (noise + rest)[1..] == noise[1..] + rest;
      NoiseDropped(noise[1..], rest);
    }
  }

  lemma {:induction false} PayloadKept(parts: seq<Scattered>, tail: string)
    requires NoB64(tail) && forall k :: 0 <= k < |parts| ==> NoB64(parts[k].noise) && IsB64(parts[k].c)
    ensures OnlyB64(ScatteredText(parts, tail)) == Collected(parts)
  {
    if parts == [] {
      NoiseDropped(tail, "");
      assert tail + "" == tail;
    } else {
      PayloadKept(parts[1..], tail);
      var rest := [parts[0].c] + ScatteredText(parts[1..], tail);
      NoiseDropped(parts[0].noise, rest);
      assert rest[1..] == ScatteredText(parts[1..], tail);
    }
  }

  /** The format without a hash: the payload before END is decoded exactly when as many base64 characters stand there as
      announced, whatever else stands between them. */
  lemma SingleLine(codec: Codec, text: string, stamp: string, h: Head, after: string, parts: seq<Scattered>,
                   tail: string)
    requires h.indexed.None? && Before(after, END) == ScatteredText(parts, tail)
    requires NoB64(tail) && forall k :: 0 <= k < |parts| ==> NoB64(parts[k].noise) && IsB64(parts[k].c)
    ensures Outcome1(codec, text, stamp, h, after) ==
            if |parts| != h.size then LegacyMismatch
            else match codec.decode(Collected(parts))
                 case Some(data) => Data(data)
                 case None => Raised
  {
    PayloadKept(parts, tail);
    CollectedLength(parts);
  }

  lemma {:induction false} CollectedLength(parts: seq<Scattered>)
    ensures |Collected(parts)| == |parts|
  {
    if parts == [] {
    } else {
      CollectedLength(parts[1..]);
    }
  }
}
