/** The regular expressions of tools/decode_console.py, each as the texts it matches: the scanners find exactly
    those. */
module ConsoleSyntax {
  import opened Octets
  import opened Decimal
  import opened DecodeConsole
  import opened ConsoleChannel

  // ---- Numbers behind a word ----

  /** `s` is `word`, a run of digits that nothing extends, and `rest`. */
  predicate IsNumber(s: string, word: string, digits: string, rest: string) {
    s == word + (digits + rest) && digits != "" && AllDigits(digits) && (rest == "" || !IsDigit(rest[0]))
  }

  lemma NumberedIff(s: string, word: string, n: nat, rest: string)
    ensures Numbered(s, word) == Some((n, rest)) <==> exists d :: IsNumber(s, word, d, rest) && n == NatOf(d)
  {
    if Numbered(s, word) == Some((n, rest)) {
      var t := s[|word|..];
      var d := t[..DigitSpan(t)];
      assert t == d + rest && s == word + t;
      assert IsNumber(s, word, d, rest);
    }
    if d :| IsNumber(s, word, d, rest) && n == NatOf(d) {
      SpanOfRun(d, rest);
      TakeAppend(word, d + rest);
    }
  }

  // ---- Indexed lines ----

  /** `@@`, four digits, a blank, base64 that nothing extends. */
  predicate IsLine(s: string, digits: string, body: string, rest: string) {
    && s == "@@" + (digits + (" " + (body + rest)))
    && |digits| == 4 && AllDigits(digits)
    && body != "" && AllB64(body) && (rest == "" || !IsB64(rest[0]))
  }

  lemma {:induction false} SpanIsB64(s: string)
    ensures AllB64(s[..B64Span(s)])
    ensures B64Span(s) < |s| ==> !IsB64(s[B64Span(s)])
  {
    if s == "" || !IsB64(s[0]) {
    } else {
      SpanIsB64(s[1..]);
      var k := B64Span(s[1..]);
      forall i | 0 <= i < 1 + k
        ensures IsB64(s[i])
      {
        assert i > 0 ==> s[i] == s[1..][..k][i - 1];
      }
    }
  }

  lemma MatchIff(s: string, i: nat, body: string, rest: string)
    ensures MatchHere(s) == Some((Cand(i, body), rest)) <==> exists d :: IsLine(s, d, body, rest) && i == NatOf(d)
  {
    if MatchHere(s) == Some((Cand(i, body), rest)) {
      SpanIsB64(s[7..]);
      var k := B64Span(s[7..]);
      assert body == s[7..][..k] && rest == s[7..][k..];
      LineParts(s, s[2..6], body, rest);
      assert IsLine(s, s[2..6], body, rest);
    }
    if d :| IsLine(s, d, body, rest) && i == NatOf(d) {
      LineMatches(s, d, body, rest);
    }
  }

  lemma LineParts(s: string, digits: string, body: string, rest: string)
    requires LineHere(s) && digits == s[2..6] && s[7..] == body + rest
    ensures s == "@@" + (digits + (" " + (body + rest)))
  {
    assert s == s[..2] + (s[2..6] + (s[6..7] + s[7..]));
    assert s[..2] == "@@" && s[6..7] == " ";
  }

  lemma LineMatches(s: string, digits: string, body: string, rest: string)
    requires IsLine(s, digits, body, rest)
    ensures MatchHere(s) == Some((Cand(NatOf(digits), body), rest))
  {
    assert s[2..6] == digits && s[7..] == body + rest;
    assert s[2] == digits[0] && s[3] == digits[1] && s[4] == digits[2] && s[5] == digits[3];
    assert s[7] == body[0];
    B64SpanAll(body);
    B64SpanAppend(body, rest);
    assert s[7..7 + |body|] == body && s[7 + |body|..] == rest;
  }

  // ---- Timestamps ----

  predicate IsClock(s: string) {
    s != "" && forall i :: 0 <= i < |s| ==> IsDigit(s[i]) || s[i] == ':' || s[i] == '.'
  }

  /** A date and a time in brackets. */
  predicate IsStamp(t: string, year: string, month: string, day: string, clock: string) {
    && t == "[" + year + "-" + month + "-" + day + "T" + clock + "]"
    && |year| == 4 && |month| == |day| == 2 && AllDigits(year) && AllDigits(month) && AllDigits(day)
    && IsClock(clock)
  }

  lemma {:induction false} ClockSpanIs(clock: string, rest: string)
    requires forall i :: 0 <= i < |clock| ==> IsDigit(clock[i]) || clock[i] == ':' || clock[i] == '.'
    requires rest != "" && rest[0] == ']'
    ensures ClockSpan(clock + rest) == |clock|
  {
    if clock == "" {
      assert clock + rest == rest;
    } else {
      assert (clock + rest)[1..] == clock[1..] + rest;
      ClockSpanIs(clock[1..], rest);
    }
  }

  lemma {:induction false} ClockSpanRuns(s: string)
    ensures forall i :: 0 <= i < ClockSpan(s) ==> IsDigit(s[i]) || s[i] == ':' || s[i] == '.'
  {
    if s == "" || !(IsDigit(s[0]) || s[0] == ':' || s[0] == '.') {
    } else {
      ClockSpanRuns(s[1..]);
      assert forall i :: 0 < i < ClockSpan(s) ==> s[i] == s[1..][i - 1];
    }
  }

  lemma TimestampIff(s: string, n: nat)
    ensures TimestampHere(s) == Some(n)
       <==> n <= |s| && exists y, m, d, clock :: IsStamp(s[..n], y, m, d, clock)
  {
    if TimestampHere(s) == Some(n) {
      ClockSpanRuns(s[12..]);
      var clock := s[12..n - 1];
      assert s[..n] == "[" + s[1..5] + "-" + s[6..8] + "-" + s[9..11] + "T" + clock + "]";
      assert IsStamp(s[..n], s[1..5], s[6..8], s[9..11], clock);
    }
    if n <= |s| {
      if y, m, d, clock :| IsStamp(s[..n], y, m, d, clock) {
        StampFound(s, s[..n], y, m, d, clock);
      }
    }
  }

  lemma StampFound(s: string, t: string, year: string, month: string, day: string, clock: string)
    requires IsStamp(t, year, month, day, clock) && t <= s
    ensures TimestampHere(s) == Some(|t|)
  {
    assert |t| == 13 + |clock|;
    assert t[1..5] == year && t[6..8] == month && t[9..11] == day && t[12..|t| - 1] == clock;
    assert s[1] == year[0] && s[2] == year[1] && s[3] == year[2] && s[4] == year[3];
    assert s[6] == month[0] && s[7] == month[1] && s[9] == day[0] && s[10] == day[1];
    var rest := "]" + s[|t|..];
    assert s[12..] == clock + rest;
    ClockSpanIs(clock, rest);
  }

  // ---- BEGIN lines ----

  /** `size=` with a digit behind it at position `k`. */
  predicate SizeAt(s: string, k: nat) {
    k + 6 <= |s| && s[k..k + 5] == "size=" && IsDigit(s[k + 5])
  }

  lemma SizeAtHere(s: string, k: nat)
    requires k <= |s|
    ensures SizeHere(s[k..]) <==> SizeAt(s, k)
  {
    if k + 5 <= |s| {
      assert s[k..][..5] == s[k..k + 5];
    }
  }

  lemma SizeAtShift(s: string, k: nat)
    requires s != ""
    ensures SizeAt(s, k + 1) <==> SizeAt(s[1..], k)
  {
    if k + 7 <= |s| {
      assert s[1..][k..k + 5] == s[k + 1..k + 6];
    }
  }

  /** The first such position, with no line break before it. */
  lemma {:induction false} FindSizeIff(s: string, k: nat)
    ensures FindSize(s) == Some(k) <==> SizeAt(s, k) && '\n' !in s[..k] && forall j :: 0 <= j < k ==> !SizeAt(s, j)
  {
    assert s[0..] == s;
    SizeAtHere(s, 0);
    if SizeHere(s) {
    } else if s == "" || s[0] == '\n' {
      assert k > 0 && k <= |s| ==> s[..k][0] == '\n';
    } else if k > 0 {
      FindSizeIff(s[1..], k - 1);
      forall j: nat
        ensures SizeAt(s, j + 1) <==> SizeAt(s[1..], j)
      {
        SizeAtShift(s, j);
      }
      if k <= |s| {
        assert s[..k] == [s[0]] + s[1..][..k - 1];
      }
      ShiftAll(s, k);
    }
  }

  lemma ShiftAll(s: string, k: nat)
    requires s != "" && !SizeAt(s, 0) && k > 0
    ensures (forall j :: 0 <= j < k ==> !SizeAt(s, j)) <==> (forall j :: 0 <= j < k - 1 ==> !SizeAt(s[1..], j))
  {
    forall j | 0 <= j < k - 1
      ensures SizeAt(s, j + 1) <==> SizeAt(s[1..], j)
    {
      SizeAtShift(s, j);
    }
    hide SizeAt;
    if forall j :: 0 <= j < k - 1 ==> !SizeAt(s[1..], j) {
      forall j | 0 < j < k
        ensures !SizeAt(s, j)
      {
        assert !SizeAt(s[1..], j - 1) && SizeAt(s, j - 1 + 1) == SizeAt(s[1..], j - 1);
      }
    }
  }

  /** The optional part behind the size. */
  predicate IsIndexed(u: string, sha: string, lines: string, copy: string, rest: string) {
    && u == " sha256=" + (sha + (" lines=" + (lines + (" copy=" + (copy + rest)))))
    && |sha| == 64 && (forall i :: 0 <= i < 64 ==> '0' <= sha[i] <= '9' || 'a' <= sha[i] <= 'f')
    && lines != "" && AllDigits(lines)
    && copy != "" && AllDigits(copy) && (rest == "" || !IsDigit(rest[0]))
  }

  lemma IndexedIff(u: string, sha: string, n: nat, rest: string)
    ensures Indexed(u) == Some(((sha, n), rest))
       <==> exists l, c :: IsIndexed(u, sha, l, c, rest) && n == NatOf(l)
  {
    if Indexed(u) == Some(((sha, n), rest)) {
      IndexedParts(u, sha, n, rest);
    }
    if l, c :| IsIndexed(u, sha, l, c, rest) && n == NatOf(l) {
      IndexedFound(u, sha, l, c, rest);
    }
  }

  /** The steps of a successful match. */
  lemma IndexedSteps(u: string, sha: string, n: nat, rest: string) returns (v: string, k: nat)
    requires Indexed(u) == Some(((sha, n), rest))
    ensures |u| >= 72 && u == " sha256=" + (sha + u[72..]) && |sha| == 64
    ensures forall i :: 0 <= i < 64 ==> '0' <= sha[i] <= '9' || 'a' <= sha[i] <= 'f'
    ensures Numbered(u[72..], " lines=") == Some((n, v)) && Numbered(v, " copy=") == Some((k, rest))
  {
    hide Numbered;
    var t := u[|SHA256|..];
    assert |SHA256| == 8;
    assert t[64..] == u[72..];
    v := Numbered(t[64..], " lines=").value.1;
    k := Numbered(v, " copy=").value.0;
    assert u == u[..8] + (u[8..72] + u[72..]) && u[8..72] == t[..64];
  }

  lemma IndexedParts(u: string, sha: string, n: nat, rest: string)
    requires Indexed(u) == Some(((sha, n), rest))
    ensures exists l, c :: IsIndexed(u, sha, l, c, rest) && n == NatOf(l)
  {
    hide NatOf, Numbered, Indexed;
    var v, k := IndexedSteps(u, sha, n, rest);
    NumberedIff(u[72..], " lines=", n, v);
    var l :| IsNumber(u[72..], " lines=", l, v) && n == NatOf(l);
    NumberedIff(v, " copy=", k, rest);
    var c :| IsNumber(v, " copy=", c, rest) && k == NatOf(c);
    assert IsIndexed(u, sha, l, c, rest);
  }

  lemma IndexedFound(u: string, sha: string, lines: string, copy: string, rest: string)
    requires IsIndexed(u, sha, lines, copy, rest)
    ensures Indexed(u) == Some(((sha, NatOf(lines)), rest))
  {
    var v := " copy=" + (copy + rest);
    var t := " lines=" + (lines + v);
    assert v[0] == ' ';
    TakeAppend(" sha256=", sha + t);
    TakeAppend(sha, t);
    assert IsNumber(t, " lines=", lines, v) && IsNumber(v, " copy=", copy, rest);
    NumberedIff(t, " lines=", NatOf(lines), v);
    NumberedIff(v, " copy=", NatOf(copy), rest);
  }

  /** A BEGIN line: the marker, words without a line break, the first `size=` that a digit follows, its number, and
      either the whole optional part or none of it. */
  ghost predicate IsHead(s: string, h: Head, rest: string) {
    exists d, u :: HeadParts(s, h, rest, d, u)
  }

  ghost predicate HeadParts(s: string, h: Head, rest: string, digits: string, u: string) {
    && s == "===PROBE-BEGIN=== " + (h.words + ("size=" + (digits + u)))
    && '\n' !in h.words
    && (forall j :: 0 <= j < |h.words| ==> !SizeAt(h.words + ("size=" + (digits + u)), j))
    && IsNumber("size=" + (digits + u), "size=", digits, u) && h.size == NatOf(digits)
    && IsOptional(u, h.indexed, rest)
  }

  /** The whole optional part and what follows it, or everything where it does not match. */
  ghost predicate IsOptional(u: string, indexed: Option<(string, nat)>, rest: string) {
    match indexed
    case Some((sha, n)) => exists l, c :: IsIndexed(u, sha, l, c, rest) && n == NatOf(l)
    case None => rest == u && forall sha, l, c, v :: !IsIndexed(u, sha, l, c, v)
  }

  lemma HeadIff(s: string, h: Head, rest: string)
    ensures HeadHere(s) == Some((h, rest)) <==> IsHead(s, h, rest)
  {
    if HeadHere(s) == Some((h, rest)) {
      HeadHasParts(s, h, rest);
    }
    if IsHead(s, h, rest) {
      var d, u :| HeadParts(s, h, rest, d, u);
      HeadFound(s, h, rest, d, u);
    }
  }

  lemma HeadHasParts(s: string, h: Head, rest: string)
    requires HeadHere(s) == Some((h, rest))
    ensures IsHead(s, h, rest)
  {
    hide FindSize, Numbered, Indexed, IsOptional, NatOf;
    var t := s[|BEGIN|..];
    var k := FindSize(t).value;
    FindSizeIff(t, k);
    var (n, u) := Numbered(t[k..], "size=").value;
    NumberedIff(t[k..], "size=", n, u);
    var d :| IsNumber(t[k..], "size=", d, u) && n == NatOf(d);
    assert s == "===PROBE-BEGIN=== " + t && t == t[..k] + t[k..];
    OptionalIff(u, h.indexed, rest);
    assert HeadParts(s, h, rest, d, u);
  }

  lemma OptionalIff(u: string, indexed: Option<(string, nat)>, rest: string)
    ensures IsOptional(u, indexed, rest) <==>
            if Indexed(u).None? then indexed == None && rest == u
            else indexed.Some? && Indexed(u) == Some((indexed.value, rest))
  {
    hide Indexed, IsIndexed;
    match indexed
    case Some((sha, n)) => IndexedIff(u, sha, n, rest);
    case None =>
      if Indexed(u).Some? {
        var ((sha, n), v) := Indexed(u).value;
        IndexedParts(u, sha, n, v);
      }
      forall sha, l, c, v | IsIndexed(u, sha, l, c, v)
        ensures Indexed(u).Some?
      {
        IndexedFound(u, sha, l, c, v);
      }
  }

  lemma HeadFound(s: string, h: Head, rest: string, digits: string, u: string)
    requires HeadParts(s, h, rest, digits, u)
    ensures HeadHere(s) == Some((h, rest))
  {
    var number := "size=" + (digits + u);
    var t := h.words + number;
    TakeAppend("===PROBE-BEGIN=== ", t);
    TakeAppend(h.words, number);
    assert number[5] == digits[0] && number[..5] == "size=";
    assert t[|h.words|..|h.words| + 5] == "size=" && t[|h.words| + 5] == digits[0];
    assert t[..|h.words|] == h.words;
    FindSizeIff(t, |h.words|);
    NumberedIff(number, "size=", h.size, u);
    OptionalIff(u, h.indexed, rest);
    hide FindSize, Numbered, Indexed;
  }

  // ---- Words ----

  predicate AllSpace(s: string) {
    forall i :: 0 <= i < |s| ==> IsSpace(s[i])
  }

  predicate IsWord(s: string) {
    s != "" && forall i :: 0 <= i < |s| ==> !IsSpace(s[i])
  }

  /** `split()[0]` is the first run of characters that are not white space; without one it raises. */
  lemma FirstWordIff(s: string, w: string)
    ensures FirstWord(s) == Some(w) <==>
            exists pre, post :: s == pre + (w + post) && AllSpace(pre) && IsWord(w) && (post == "" || IsSpace(post[0]))
  {
    if FirstWord(s) == Some(w) {
      var pre, post := FirstWordParts(s);
    }
    if pre, post :| s == pre + (w + post) && AllSpace(pre) && IsWord(w) && (post == "" || IsSpace(post[0])) {
      FirstWordFound(pre, w, post);
    }
  }

  lemma {:induction false} FirstWordParts(s: string) returns (pre: string, post: string)
    requires FirstWord(s).Some?
    ensures var w := FirstWord(s).value;
            s == pre + (w + post) && AllSpace(pre) && IsWord(w) && (post == "" || IsSpace(post[0]))
  {
    if IsSpace(s[0]) {
      var more;
      more, post := FirstWordParts(s[1..]);
      pre := [s[0]] + more;
      Assoc([s[0]], more, FirstWord(s).value + post);
      assert s == [s[0]] + s[1..];
    } else {
      pre, post := "", s[WordSpan(s)..];
      WordSpanRuns(s);
      assert s == "" + (s[..WordSpan(s)] + post);
    }
  }

  lemma {:induction false} WordSpanRuns(s: string)
    ensures forall i :: 0 <= i < WordSpan(s) ==> !IsSpace(s[i])
    ensures WordSpan(s) < |s| ==> IsSpace(s[WordSpan(s)])
  {
    if s == "" || IsSpace(s[0]) {
    } else {
      WordSpanRuns(s[1..]);
      assert forall i :: 0 < i <= |s[1..]| && i < |s| ==> s[i] == s[1..][i - 1];
    }
  }

  lemma {:induction false} WordSpanIs(w: string, post: string)
    requires forall i :: 0 <= i < |w| ==> !IsSpace(w[i])
    requires post == "" || IsSpace(post[0])
    ensures WordSpan(w + post) == |w|
  {
    if w == "" {
      assert w + post == post;
    } else {
      assert (w + post)[1..] == w[1..] + post;
      WordSpanIs(w[1..], post);
    }
  }

  lemma {:induction false} FirstWordFound(pre: string, w: string, post: string)
    requires AllSpace(pre) && IsWord(w) && (post == "" || IsSpace(post[0]))
    ensures FirstWord(pre + (w + post)) == Some(w)
  {
    if pre == "" {
      assert pre + (w + post) == w + post;
      WordSpanIs(w, post);
      assert (w + post)[..|w|] == w;
    } else {
      assert (pre + (w + post))[1..] == pre[1..] + (w + post);
      FirstWordFound(pre[1..], w, post);
    }
  }

  // ---- Blocks ----

  /** A BEGIN line of the stamp: the marker, anything but a line break, and a line break. */
  predicate IsOpening(text: string, stamp: string, line: string, rest: string) {
    text == "===PROBE-BEGIN=== " + stamp + " " + (line + ("\n" + rest)) && '\n' !in line
  }

  /** At a BEGIN line a block opens, and reading goes on behind that line. */
  lemma BlockOpens(text: string, stamp: string, line: string, rest: string)
    requires IsOpening(text, stamp, line, rest)
    ensures Blocks(text, stamp) == [Before(rest, "===PROBE-END===")] + Blocks(rest, stamp)
  {
    var marker, t := Marker(stamp), line + ("\n" + rest);
    TakeAppend(marker, t);
    LineSpanIs(line, rest);
    assert t[|line| + 1..] == rest;
    hide Marker, Before, LineSpan;
  }

  /** Anywhere else none does. */
  lemma NoBlockOpens(text: string, stamp: string)
    requires text != "" && forall line, rest :: !IsOpening(text, stamp, line, rest)
    ensures Blocks(text, stamp) == Blocks(text[1..], stamp)
  {
    if Marker(stamp) <= text {
      OpeningParts(text, stamp);
    }
    hide IsOpening, Before, Marker;
  }

  lemma OpeningParts(text: string, stamp: string)
    requires Marker(stamp) <= text && forall line, rest :: !IsOpening(text, stamp, line, rest)
    ensures LineSpan(text[|Marker(stamp)|..]) == |text[|Marker(stamp)|..]|
  {
    var marker := Marker(stamp);
    var t := text[|marker|..];
    var k := LineSpan(t);
    LineSpanRuns(t);
    if k < |t| {
      assert t == t[..k] + ("\n" + t[k + 1..]) && text == marker + t;
      assert IsOpening(text, stamp, t[..k], t[k + 1..]);
    }
  }

  lemma {:induction false} LineSpanIs(line: string, rest: string)
    requires '\n' !in line
    ensures LineSpan(line + ("\n" + rest)) == |line|
  {
    if line == "" {
      assert line + ("\n" + rest) == "\n" + rest;
    } else {
      assert (line + ("\n" + rest))[1..] == line[1..] + ("\n" + rest);
      LineSpanIs(line[1..], rest);
    }
  }

  lemma {:induction false} LineSpanRuns(t: string)
    ensures '\n' !in t[..LineSpan(t)]
    ensures LineSpan(t) < |t| ==> t[LineSpan(t)] == '\n'
  {
    if t == "" || t[0] == '\n' {
    } else {
      LineSpanRuns(t[1..]);
      assert t[..LineSpan(t)] == [t[0]] + t[1..][..LineSpan(t[1..])];
    }
  }

  /** A block ends in front of the first END, or with the text. */
  lemma {:induction false} BeforeIff(s: string, pat: string, t: string)
    requires pat != ""
    ensures Before(s, pat) == t <==>
            && t <= s
            && (forall k :: 0 <= k < |t| ==> !(pat <= s[k..]))
            && (t == s || pat <= s[|t|..])
  {
    if s == "" {
    } else if pat <= s {
      assert s[0..] == s;
    } else if t == "" {
      assert s[0..] == s;
    } else {
      BeforeIff(s[1..], pat, t[1..]);
      BeforeShift(s, pat, t);
    }
  }

  lemma BeforeShift(s: string, pat: string, t: string)
    requires s != "" && t != "" && !(pat <= s)
    ensures (t <= s && forall k :: 0 <= k < |t| ==> !(pat <= s[k..])) <==>
            (t[0] == s[0] && t[1..] <= s[1..] && forall k :: 0 <= k < |t[1..]| ==> !(pat <= s[1..][k..]))
  {
    assert s[0..] == s;
    if t <= s {
      assert t[1..] == s[1..][..|t| - 1];
      forall k | 0 <= k < |t| - 1
        ensures s[1..][k..] == s[k + 1..]
      {
      }
      forall k | 0 < k < |t|
        ensures s[k..] == s[1..][k - 1..]
      {
      }
    }
    if t[0] == s[0] && t[1..] <= s[1..] {
      assert t == [t[0]] + t[1..] && s == [s[0]] + s[1..];
    }
  }
}
