/** Session binding with a TLS exporter: the client and the relay of tools/exporter_client.py and the guest of
    server.py, as methods over sockets and as a step system over whole runs. */
module Exporter {
  import opened Octets
  import opened Hexadecimal
  import opened Sockets

  datatype Blob = Blob(exporterServer: Bytes, reportExporter: Bytes, reportKey: Bytes, spki: Bytes, sig: Bytes)

  /** What the protocol runs on. `firmware` signs REPORT_DATA into a report or fails; its second argument tells requests
      apart. */
  datatype World = World(
    sha512: Bytes -> Bytes,
    firmware: (Bytes, nat) -> Option<Bytes>,
    sign: (Bytes, Bytes) -> Bytes, verify: (Bytes, Bytes, Bytes) -> bool, spkiOf: Bytes -> Bytes,
    dumps: Blob -> Bytes, loads: Bytes -> Option<Blob>)

  ghost predicate IsWorld(w: World) {
    && (forall m :: |w.sha512(m)| == 64)
    && (forall data, n: nat :: w.firmware(data, n).Some? ==>
          && |w.firmware(data, n).value| == 1184
          && (|data| == 64 ==> ReportData(w.firmware(data, n).value) == data))
    && (forall key, m :: w.verify(w.spkiOf(key), m, w.sign(key, m)))
    && (forall b :: w.loads(w.dumps(b)) == Some(b))
  }

  /** `report[0x50:0x90]`. */
  function ReportData(report: Bytes): Bytes {
    Take(Drop(report, 0x50), 0x40)
  }

  // ---- The nonce line ----

  const NEWLINE: byte := 10
  const LINE_LIMIT := 200

  /** `N.hex().encode() + b"\n"`. */
  function NonceLine(nonce: Bytes): (line: Bytes)
    ensures |line| == 2 * |nonce| + 1
  {
    HexBytes(nonce) + [10]
  }

  /** `bytes.fromhex(line.strip().decode())`: pairs of digits with blanks between them; `None` where it raises. */
  function ParseLine(line: Bytes): Option<Bytes> {
    if |line| == 0 then Some([])
    else if 9 <= line[0] <= 13 || line[0] == 32 then ParseLine(line[1..])
    else if |line| == 1 then None
    else
      var hi :- HexValue(line[0] as char);
      var lo :- HexValue(line[1] as char);
      var rest :- ParseLine(line[2..]);
      Some([16 * hi + lo] + rest)
  }

  /** The stream up to and with its first newline, at most `limit` bytes. */
  function Line(s: Bytes, limit: nat): (line: Bytes)
    ensures |line| <= limit && line <= s
  {
    if |s| == 0 || limit == 0 then []
    else if s[0] == NEWLINE then [NEWLINE]
    else [s[0]] + Line(s[1..], limit - 1)
  }

  /** Receive byte by byte until a newline has arrived: the guest stops at its limit, the relay has none. */
  method ReadLine(conn: Socket, limit: Option<nat>) returns (line: Bytes)
    requires 10 in conn.incoming || (limit.Some? && |conn.incoming| >= limit.value)
    modifies conn`incoming
    ensures line == Line(old(conn.incoming), Bound(limit, old(conn.incoming)))
    ensures line + conn.incoming == old(conn.incoming)
  {
    hide Line, Reading, Ends;
    line := [];
    ghost var whole, bound := conn.incoming, Bound(limit, conn.incoming);
    StartReading(whole, bound);
    while !Ends(line) && (limit.None? || |line| < limit.value)
      invariant Reading(whole, bound, line, conn.incoming)
      decreases bound - |line|
    {
      StillComing(whole, bound, line, conn.incoming);
      ghost var before := conn.incoming;
      var c := conn.Recv(1);
      ByteRead(whole, bound, line, before, c[0], conn.incoming);
      assert c == [c[0]];
      line := line + c;
    }
    DoneReading(whole, bound, line, conn.incoming);
  }

  function Bound(limit: Option<nat>, s: Bytes): nat {
    if limit.Some? then limit.value else |s|
  }

  predicate Ends(line: Bytes) {
    line != [] && line[|line| - 1] == NEWLINE
  }

  /** The loop invariant of `ReadLine`. */
  ghost predicate Reading(whole: Bytes, limit: nat, line: Bytes, rest: Bytes) {
    && |line| <= limit && line + rest == whole
    && (if Ends(line) then line == Line(whole, limit)
        else NEWLINE !in line && line + Line(rest, limit - |line|) == Line(whole, limit))
  }

  lemma StartReading(whole: Bytes, limit: nat)
    ensures Reading(whole, limit, [], whole)
  {
    assert [] + whole == whole && [] + Line(whole, limit) == Line(whole, limit);
  }

  lemma StillComing(whole: Bytes, limit: nat, line: Bytes, rest: Bytes)
    requires Reading(whole, limit, line, rest) && !Ends(line) && (|line| < limit || limit == |whole|)
    requires NEWLINE in whole || |whole| >= limit > |line|
    ensures rest != [] && |line| < limit
  {
    assert rest == [] ==> whole == line;
  }

  lemma DoneReading(whole: Bytes, limit: nat, line: Bytes, rest: Bytes)
    requires Reading(whole, limit, line, rest) && (Ends(line) || |line| >= limit)
    ensures line == Line(whole, limit) && line + rest == whole
  {
    assert line + [] == line;
  }

  lemma ByteRead(whole: Bytes, limit: nat, line: Bytes, before: Bytes, b: byte, rest: Bytes)
    requires Reading(whole, limit, line, before) && !Ends(line) && |line| < limit
    requires before == [b] + rest
    ensures Reading(whole, limit, line + [b], rest)
  {
    Assoc(line, [b], rest);
    assert before[1..] == rest;
    if b != NEWLINE {
      Assoc(line, [b], Line(rest, limit - |line| - 1));
    }
  }

  /** A nonce line begins with the two digits of its first byte, and the line of the other bytes follows. */
  lemma NonceLineSplit(nonce: Bytes, rest: Bytes)
    requires nonce != []
    ensures var hi, lo := HexChar(nonce[0] / 16) as int, HexChar(nonce[0] % 16) as int;
            NonceLine(nonce) + rest == [hi] + ([lo] + (NonceLine(nonce[1..]) + rest))
  {
    var two: Bytes := [HexChar(nonce[0] / 16) as int, HexChar(nonce[0] % 16) as int];
    Assoc(two, HexBytes(nonce[1..]), [10]);
    Assoc(two, NonceLine(nonce[1..]), rest);
    Assoc([two[0]], [two[1]], NonceLine(nonce[1..]) + rest);
    assert two == [two[0]] + [two[1]];
  }

  lemma {:induction false} NonceLineParses(nonce: Bytes)
    ensures ParseLine(NonceLine(nonce)) == Some(nonce)
  {
    var line := NonceLine(nonce);
    if nonce == [] {
      assert line[1..] == [];
    } else {
      NonceLineParses(nonce[1..]);
      NonceLineSplit(nonce, []);
      assert line + [] == line && NonceLine(nonce[1..]) + [] == NonceLine(nonce[1..]);
      HexDigit(nonce[0] / 16);
      HexDigit(nonce[0] % 16);
      assert line[2..] == NonceLine(nonce[1..]);
      assert [nonce[0]] + nonce[1..] == nonce;
    }
  }

  /** A nonce of at most 99 bytes survives the line, the guest's limit and whatever follows. */
  lemma {:induction false} NonceLineRead(nonce: Bytes, rest: Bytes, limit: nat)
    requires 2 * |nonce| + 1 <= limit
    ensures Line(NonceLine(nonce) + rest, limit) == NonceLine(nonce)
  {
    if nonce == [] {
      assert (NonceLine(nonce) + rest)[0] == NEWLINE;
    } else {
      var hi, lo := HexChar(nonce[0] / 16) as int, HexChar(nonce[0] % 16) as int;
      var t := NonceLine(nonce[1..]) + rest;
      NonceLineRead(nonce[1..], rest, limit - 2);
      NonceLineSplit(nonce, rest);
      NonceLineSplit(nonce, []);
      assert ([lo] + t)[1..] == t && ([hi] + ([lo] + t))[1..] == [lo] + t;
      assert NonceLine(nonce) + [] == NonceLine(nonce) && NonceLine(nonce[1..]) + [] == NonceLine(nonce[1..]);
    }
  }

  /** What the guest takes for a nonce line: blanks, and pairs of hex digits of either case. */
  datatype Piece = Blank(b: byte) | Pair(hi: char, lo: char)

  predicate IsPiece(p: Piece) {
    match p
    case Blank(b) => b == 9 || b == 10 || b == 11 || b == 12 || b == 13 || b == 32
    case Pair(hi, lo) => IsHexDigit(hi) && IsHexDigit(lo)
  }

  predicate IsHexDigit(c: char) {
    '0' <= c <= '9' || 'a' <= c <= 'f' || 'A' <= c <= 'F'
  }

  function DigitWorth(c: char): nat
    requires IsHexDigit(c)
  {
    if c <= '9' then c as int - 48 else if c <= 'F' then c as int - 55 else c as int - 87
  }

  function PieceText(pieces: seq<Piece>): Bytes
    requires forall k :: 0 <= k < |pieces| ==> IsPiece(pieces[k])
  {
    if |pieces| == 0 then [] else
      assert IsPiece(pieces[0]);
      (match pieces[0]
       case Blank(b) => [b]
       case Pair(hi, lo) => [hi as int, lo as int]) + PieceText(pieces[1..])
  }

  function PieceBytes(pieces: seq<Piece>): Bytes
    requires forall k :: 0 <= k < |pieces| ==> IsPiece(pieces[k])
  {
    if |pieces| == 0 then [] else
      assert IsPiece(pieces[0]);
      (match pieces[0]
       case Blank(b) => []
       case Pair(hi, lo) => [16 * DigitWorth(hi) + DigitWorth(lo)]) + PieceBytes(pieces[1..])
  }

  lemma HexValueIs(c: char)
    ensures HexValue(c) == if IsHexDigit(c) then Some(DigitWorth(c)) else None
  {
  }

  /** A line of such pieces is read as the bytes its pairs spell. */
  lemma {:induction false} PiecesParse(pieces: seq<Piece>)
    requires forall k :: 0 <= k < |pieces| ==> IsPiece(pieces[k])
    ensures ParseLine(PieceText(pieces)) == Some(PieceBytes(pieces))
  {
    if pieces == [] {
    } else {
      PiecesParse(pieces[1..]);
      var line, rest := PieceText(pieces), PieceText(pieces[1..]);
      match pieces[0]
      case Blank(b) =>
        assert line[1..] == rest;
        assert [] + PieceBytes(pieces[1..]) == PieceBytes(pieces[1..]);
      case Pair(hi, lo) =>
        assert line[2..] == rest && line[0] as char == hi && line[1] as char == lo;
        HexValueIs(hi);
        HexValueIs(lo);
    }
  }

  /** No other line is read: everything else raises. */
  lemma {:induction false} ParsedIsPieces(line: Bytes) returns (pieces: seq<Piece>)
    requires ParseLine(line).Some?
    ensures forall k :: 0 <= k < |pieces| ==> IsPiece(pieces[k])
    ensures PieceText(pieces) == line
  {
    if line == [] {
      pieces := [];
    } else if 9 <= line[0] <= 13 || line[0] == 32 {
      var more := ParsedIsPieces(line[1..]);
      pieces := [Blank(line[0])] + more;
      assert pieces[1..] == more && line == [line[0]] + line[1..];
    } else {
      HexValueIs(line[0] as char);
      HexValueIs(line[1] as char);
      var more := ParsedIsPieces(line[2..]);
      pieces := [Pair(line[0] as char, line[1] as char)] + more;
      assert pieces[1..] == more && line == [line[0], line[1]] + line[2..];
    }
  }

  // ---- The guest ----

  /** The answer to a nonce over a session with this exporter value; the reports are firmware requests `serial` and
      `serial + 1`, and a failed one raises. */
  function Reply(w: World, key: Bytes, nonce: Bytes, exporter: Bytes, serial: nat): Option<Blob> {
    var spki := w.spkiOf(key);
    var rExp :- w.firmware(w.sha512(nonce + exporter), serial);
    var rKey :- w.firmware(w.sha512(nonce + spki), serial + 1);
    Some(Blob(exporter, rExp, rKey, spki, w.sign(key, nonce)))
  }

  datatype Record = Record(n: nat, ok: bool, nonce: Bytes, exporter: Bytes)

  /** What a line on a session leads to: the bytes sent back and the session's record. */
  function Answer(w: World, key: Bytes, n: nat, serial: nat, line: Bytes, exporter: Bytes): (Bytes, Record) {
    var nonce := ParseLine(line);
    if nonce.None? then ([], Record(n, false, [], [])) else
    var reply := Reply(w, key, nonce.value, exporter, serial);
    if reply.None? then ([], Record(n, false, [], [])) else
    var blob := w.dumps(reply.value);
    if |blob| >= 0x1_0000_0000 then ([], Record(n, false, [], []))
    else (BeBytes(|blob|, 4) + blob, Record(n, true, nonce.value, exporter))
  }

  class Guest {
    const w: World
    const key: Bytes
    var n: nat
    var sessions: seq<Record>

    constructor (w: World, key: Bytes)
      ensures this.w == w && this.key == key && n == 0 && sessions == []
    {
      this.w, this.key := w, key;
      n, sessions := 0, [];
    }

    /** One turn of the session loop, on a connection that has completed its handshake. */
    method Serve(conn: Socket, exporter: Bytes)
      requires 10 in conn.incoming || |conn.incoming| >= 200
      modifies this, conn
      ensures n == old(n) + 1
      ensures var (sent, rec) := Answer(w, key, old(n) + 1, 2 * old(n), Line(old(conn.incoming), 200), exporter);
              conn.outgoing == old(conn.outgoing) + sent && sessions == old(sessions) + [rec]
    {
      n := n + 1;
      var line := ReadLine(conn, Some(LINE_LIMIT));
      var rec := Respond(conn, line, exporter);
      sessions := sessions + [rec];
    }

    /** From the line on: two reports, a signature and the framed blob, or a failed session. */
    method Respond(conn: Socket, line: Bytes, exporter: Bytes) returns (rec: Record)
      requires n > 0
      modifies conn`outgoing
      ensures var (sent, r) := Answer(w, key, n, 2 * (n - 1), line, exporter);
              conn.outgoing == old(conn.outgoing) + sent && rec == r
    {
      assert conn.outgoing + [] == conn.outgoing;
      var nonce := ParseLine(line);
      if nonce.None? {
        return Record(n, false, [], []);
      }
      var serial := 2 * (n - 1);
      var rExp := w.firmware(w.sha512(nonce.value + exporter), serial);
      if rExp.None? {
        return Record(n, false, [], []);
      }
      var rKey := w.firmware(w.sha512(nonce.value + w.spkiOf(key)), serial + 1);
      if rKey.None? {
        return Record(n, false, [], []);
      }
      var sig := w.sign(key, nonce.value);
      var blob := w.dumps(Blob(exporter, rExp.value, rKey.value, w.spkiOf(key), sig));
      if |blob| >= 0x1_0000_0000 {
        return Record(n, false, [], []);
      }
      conn.SendAll(BeBytes(|blob|, 4) + blob);
      return Record(n, true, nonce.value, exporter);
    }
  }

  // ---- The client and the relay ----

  /** Send the nonce, receive the blob; `None` where it does not parse. */
  method Exchange(w: World, conn: Socket, nonce: Bytes) returns (blob: Option<Blob>)
    requires Counted(conn.incoming, 4).Some?
    modifies conn
    ensures conn.outgoing == old(conn.outgoing) + NonceLine(nonce)
    ensures blob == w.loads(Counted(old(conn.incoming), 4).value.0)
  {
    conn.SendAll(NonceLine(nonce));
    var raw := conn.RecvCounted(4);
    blob := w.loads(raw);
  }

  /** The relay's forwarding: the line goes up and the framed blob comes down, both byte for byte. */
  method Relay(down: Socket, up: Socket)
    requires down != up && 10 in down.incoming && Counted(up.incoming, 4).Some?
    modifies down, up
    ensures up.outgoing == old(up.outgoing) + Line(old(down.incoming), |old(down.incoming)|)
    ensures Counted(old(up.incoming), 4).value.1 == up.incoming
    ensures exists frame :: frame + up.incoming == old(up.incoming) && down.outgoing == old(down.outgoing) + frame
  {
    var line := ReadLine(down, None);
    up.SendAll(line);
    ghost var answer := up.incoming;
    var blob := up.RecvCounted(4);
    var frame := BeBytes(|blob|, 4) + blob;
    FrameIsPrefix(answer, blob, up.incoming);
    down.SendAll(frame);
  }

  /** Sending a counted field again sends the bytes it came in. */
  lemma FrameIsPrefix(s: Bytes, blob: Bytes, rest: Bytes)
    requires Counted(s, 4) == Some((blob, rest))
    ensures BeBytes(|blob|, 4) + blob + rest == s
  {
    BytesOfBe(s[..4]);
    assert s[4..] == blob + rest;
    Assoc(BeBytes(|blob|, 4), blob, rest);
    assert s == s[..4] + s[4..];
  }

  datatype Checks = Checks(keyData: bool, keySignature: bool, keyPeer: bool, keyAccepts: bool, exporterAccepts: bool)

  /** The two binder checks of `client`, on its own side of the session. */
  function Check(w: World, nonce: Bytes, exporter: Bytes, peerSpki: Bytes, blob: Blob): Checks {
    var keyData := ReportData(blob.reportKey) == w.sha512(nonce + blob.spki);
    var keySignature := w.verify(blob.spki, nonce, blob.sig);
    var keyPeer := peerSpki == blob.spki;
    Checks(keyData, keySignature, keyPeer, keyData && keySignature && keyPeer,
           ReportData(blob.reportExporter) == w.sha512(nonce + exporter))
  }

  /** The exporter check reads the 64 bytes of REPORT_DATA and nothing else: for any blob at all, whoever made its
      report and whatever surrounds those bytes, acceptance is their equality with the hash. */
  lemma OnlyReportDataCounts(w: World, nonce: Bytes, exporter: Bytes, peerSpki: Bytes, blob: Blob,
                             before: Bytes, data: Bytes, after: Bytes)
    requires |before| == 0x50 && |data| == 0x40
    ensures Check(w, nonce, exporter, peerSpki, blob.(reportExporter := before + data + after)).exporterAccepts
       <==> data == w.sha512(nonce + exporter)
  {
    Assoc(before, data, after);
    TakeAppend(before, data + after);
    TakeAppend(data, after);
  }

  /** The key check, exactly, for any blob: REPORT_DATA of the key report hashes the nonce and the key in the blob,
      that key signed the nonce, and it is the key of the TLS peer. */
  lemma KeyCheckExact(w: World, nonce: Bytes, exporter: Bytes, peerSpki: Bytes, blob: Blob,
                      before: Bytes, data: Bytes, after: Bytes)
    requires |before| == 0x50 && |data| == 0x40
    ensures Check(w, nonce, exporter, peerSpki, blob.(reportKey := before + data + after)).keyAccepts
       <==> data == w.sha512(nonce + blob.spki) && w.verify(blob.spki, nonce, blob.sig) && peerSpki == blob.spki
  {
    Assoc(before, data, after);
    TakeAppend(before, data + after);
    TakeAppend(data, after);
  }

  /** The guest's reply on a session whose TLS peer shows another key is refused by the key check. */
  lemma OtherPeerRefused(w: World, key: Bytes, nonce: Bytes, exporter: Bytes, up: Bytes, serial: nat, peerSpki: Bytes)
    requires IsWorld(w) && Reply(w, key, nonce, up, serial).Some? && peerSpki != w.spkiOf(key)
    ensures !Check(w, nonce, exporter, peerSpki, Reply(w, key, nonce, up, serial).value).keyAccepts
  {
  }

  // ---- One session, direct or relayed ----

  /** Both ends of a direct session export the same value: both checks pass. */
  lemma DirectSessionAccepted(w: World, key: Bytes, nonce: Bytes, exporter: Bytes, serial: nat)
    requires IsWorld(w) && Reply(w, key, nonce, exporter, serial).Some?
    ensures var c := Check(w, nonce, exporter, w.spkiOf(key), Reply(w, key, nonce, exporter, serial).value);
            c.keyAccepts && c.exporterAccepts
  {
  }

  /** A relay that holds the guest's key: the key binder accepts, the exporter binder only on equal exporter values or a
      collision. */
  lemma RelayedSession(w: World, key: Bytes, nonce: Bytes, down: Bytes, up: Bytes, serial: nat)
    requires IsWorld(w) && |down| == |up| && Reply(w, key, nonce, up, serial).Some?
    ensures var c := Check(w, nonce, down, w.spkiOf(key), Reply(w, key, nonce, up, serial).value);
            c.keyAccepts && (c.exporterAccepts ==> down == up || IsCollision(w, nonce + down, nonce + up))
  {
    if nonce + down == nonce + up {
      TakeAppend(nonce, down);
      TakeAppend(nonce, up);
    }
  }

  predicate IsCollision(w: World, m1: Bytes, m2: Bytes) {
    m1 != m2 && w.sha512(m1) == w.sha512(m2)
  }

  /** The guest answers the client's line, however it arrives and whether or not a relay has forwarded it, with the
      reply to the client's nonce. */
  lemma NonceReachesGuest(w: World, key: Bytes, n: nat, serial: nat, nonce: Bytes, rest: Bytes, exporter: Bytes)
    requires IsWorld(w) && |nonce| == 64
    requires var reply := Reply(w, key, nonce, exporter, serial); reply.Some? && |w.dumps(reply.value)| < 0x1_0000_0000
    ensures var line := Line(NonceLine(nonce) + rest, 200);
            var (sent, rec) := Answer(w, key, n, serial, line, exporter);
            && rec == Record(n, true, nonce, exporter)
            && Counted(sent, 4).Some?
            && w.loads(Counted(sent, 4).value.0) == Reply(w, key, nonce, exporter, serial)
    ensures var down := NonceLine(nonce) + rest;
            var forwarded := Line(down, |down|);
            forwarded == NonceLine(nonce) && Line(forwarded, 200) == Line(down, 200)
  {
    NonceLineRead(nonce, rest, 200);
    NonceLineRead(nonce, rest, |NonceLine(nonce) + rest|);
    NonceLineRead(nonce, [], 200);
    assert NonceLine(nonce) + [] == NonceLine(nonce);
    NonceLineParses(nonce);
    var blob := w.dumps(Reply(w, key, nonce, exporter, serial).value);
    Powers();
    CountedRoundTrip(blob, 4, []);
    assert BeBytes(|blob|, 4) + blob + [] == BeBytes(|blob|, 4) + blob;
  }

  /** The two kinds of report are told apart by what they hash, and by nothing else: up to a collision, one made for the
      key binder passes the exporter check exactly when its nonce and key spell out the client's nonce and exporter
      value. */
  lemma KeyReportPasses(w: World, key: Bytes, nonce': Bytes, exporter': Bytes, serial: nat,
                        nonce: Bytes, exporter: Bytes, peerSpki: Bytes, blob: Blob)
    requires IsWorld(w) && Reply(w, key, nonce', exporter', serial).Some?
    requires blob.reportExporter == Reply(w, key, nonce', exporter', serial).value.reportKey
    ensures Check(w, nonce, exporter, peerSpki, blob).exporterAccepts
       <==> nonce' + w.spkiOf(key) == nonce + exporter || IsCollision(w, nonce' + w.spkiOf(key), nonce + exporter)
  {
  }

  /** With the 64-byte nonces and 32-byte exporter values of the protocol that leaves only a 32-byte key encoding: any
      other key's reports pass through a collision or not at all. */
  lemma KeyReportIsNotExporterReport(w: World, key: Bytes, nonce': Bytes, exporter': Bytes, serial: nat,
                                     nonce: Bytes, exporter: Bytes, peerSpki: Bytes, blob: Blob)
    requires IsWorld(w) && Reply(w, key, nonce', exporter', serial).Some?
    requires blob.reportExporter == Reply(w, key, nonce', exporter', serial).value.reportKey
    requires |nonce| == |nonce'| == 64 && |exporter| == 32 && |w.spkiOf(key)| != 32
    requires Check(w, nonce, exporter, peerSpki, blob).exporterAccepts
    ensures IsCollision(w, nonce' + w.spkiOf(key), nonce + exporter)
  {
    assert |nonce' + w.spkiOf(key)| != |nonce + exporter|;
  }

  // ---- Whole runs ----

  /** A session the guest has answered; its reports are firmware requests `serial` and `serial + 1`. */
  datatype Session = Session(nonce: Bytes, exporter: Bytes, serial: nat)

  /** A client's view of the session it has, and the blob that reached it. */
  datatype View = View(nonce: Bytes, exporter: Bytes, peerSpki: Bytes, blob: Blob)

  datatype State = State(served: seq<Session>, views: seq<View>)

  function ReplyTo(w: World, key: Bytes, s: Session): Option<Blob> {
    Reply(w, key, s.nonce, s.exporter, s.serial)
  }

  /** Which report of which session a report is. */
  datatype Origin = ExporterReport(i: nat) | KeyReport(i: nat)

  predicate From(w: World, key: Bytes, served: seq<Session>, report: Bytes, o: Origin) {
    && o.i < |served| && ReplyTo(w, key, served[o.i]).Some?
    && var reply := ReplyTo(w, key, served[o.i]).value;
    && report == if o.ExporterReport? then reply.reportExporter else reply.reportKey
  }

  ghost predicate Issued(w: World, key: Bytes, served: seq<Session>, report: Bytes) {
    exists o :: From(w, key, served, report, o)
  }

  predicate Init(s: State) {
    s.served == [] && s.views == []
  }

  /** The guest answers some line, with any nonce in it, on any session. */
  ghost predicate GuestServes(w: World, key: Bytes, s: State, s': State) {
    && |s'.served| == |s.served| + 1 && s'.served[..|s.served|] == s.served
    && s'.views == s.views
    && var last := s'.served[|s.served|];
    && |last.exporter| == 32
    && exists line, n: nat ::
         Answer(w, key, n, last.serial, line, last.exporter).1 == Record(n, true, last.nonce, last.exporter)
  }

  /** A client receives a blob. Whoever is in between may forward one, replay one or put one together, so long as the
      reports in it are the guest's: those cannot be made without its chip. */
  ghost predicate ClientReceives(w: World, key: Bytes, s: State, s': State) {
    && s'.served == s.served
    && |s'.views| == |s.views| + 1 && s'.views[..|s.views|] == s.views
    && var v := s'.views[|s.views|];
    && |v.nonce| == 64 && |v.exporter| == 32
    && Issued(w, key, s.served, v.blob.reportExporter) && Issued(w, key, s.served, v.blob.reportKey)
  }

  ghost predicate Next(w: World, key: Bytes, s: State, s': State) {
    GuestServes(w, key, s, s') || ClientReceives(w, key, s, s')
  }

  ghost predicate IsRun(w: World, key: Bytes, run: seq<State>) {
    && run != [] && Init(run[0])
    && forall i :: 0 <= i < |run| - 1 ==> Next(w, key, run[i], run[i + 1])
  }

  /** Every view holds reports of sessions served by now, and every value exported has 32 bytes. */
  ghost predicate Inv(w: World, key: Bytes, s: State) {
    && (forall i :: 0 <= i < |s.served| ==> |s.served[i].exporter| == 32)
    && (forall i :: 0 <= i < |s.views| ==> ViewOk(w, key, s.served, s.views[i]))
  }

  ghost predicate ViewOk(w: World, key: Bytes, served: seq<Session>, v: View) {
    && |v.nonce| == 64 && |v.exporter| == 32
    && Issued(w, key, served, v.blob.reportExporter) && Issued(w, key, served, v.blob.reportKey)
  }

  lemma IssuedStays(w: World, key: Bytes, served: seq<Session>, more: seq<Session>, report: Bytes)
    requires served <= more && Issued(w, key, served, report)
    ensures Issued(w, key, more, report)
  {
    var o :| From(w, key, served, report, o);
    assert From(w, key, more, report, o);
  }

  lemma StepKeepsInv(w: World, key: Bytes, s: State, s': State)
    requires Inv(w, key, s) && Next(w, key, s, s')
    ensures Inv(w, key, s')
  {
    if GuestServes(w, key, s, s') {
      forall i | 0 <= i < |s'.served|
        ensures |s'.served[i].exporter| == 32
      {
        assert i < |s.served| ==> s'.served[i] == s.served[i];
      }
      assert s.served <= s'.served;
      forall i | 0 <= i < |s'.views|
        ensures ViewOk(w, key, s'.served, s'.views[i])
      {
        var v := s.views[i];
        IssuedStays(w, key, s.served, s'.served, v.blob.reportExporter);
        IssuedStays(w, key, s.served, s'.served, v.blob.reportKey);
      }
    } else {
      forall i | 0 <= i < |s'.views|
        ensures ViewOk(w, key, s'.served, s'.views[i])
      {
        assert i < |s.views| ==> s'.views[i] == s.views[i];
      }
    }
  }

  lemma {:induction false} RunKeepsInv(w: World, key: Bytes, run: seq<State>, i: nat)
    requires IsRun(w, key, run) && i < |run|
    ensures Inv(w, key, run[i])
  {
    if i == 0 {
    } else {
      RunKeepsInv(w, key, run, i - 1);
      assert Next(w, key, run[i - 1], run[i - 1 + 1]);
      StepKeepsInv(w, key, run[i - 1], run[i]);
    }
  }

  /** What a report of the guest hashes. */
  lemma OriginData(w: World, key: Bytes, served: seq<Session>, report: Bytes, o: Origin)
    requires IsWorld(w) && From(w, key, served, report, o)
    ensures o.i < |served| && ReplyTo(w, key, served[o.i]).Some?
    ensures var s := served[o.i];
            ReportData(report) == w.sha512(s.nonce + if o.ExporterReport? then s.exporter else w.spkiOf(key))
    ensures o.ExporterReport? ==> report == ReplyTo(w, key, served[o.i]).value.reportExporter
    ensures o.KeyReport? ==> report == ReplyTo(w, key, served[o.i]).value.reportKey
  {
  }

  /** What an accepted exporter report shows. */
  datatype Finding = SameSession(i: nat) | KeyReused(i: nat) | Collision(m1: Bytes, m2: Bytes)

  /** Over any run, with any number of sessions and anyone in between: if the exporter check of some client accepts,
      the guest served a session with that client's nonce and exporter value and issued this report for it, or a
      SHA-512 collision is at hand. The one other way is a key report whose nonce and key spell out the client's nonce
      and exporter value; it is closed once the guest is asked for 64-byte nonces only and its key encoding is not 32
      bytes. */
  lemma ExporterBinding(w: World, key: Bytes, run: seq<State>, k: nat, j: nat) returns (f: Finding)
    requires IsWorld(w) && IsRun(w, key, run) && k < |run| && j < |run[k].views|
    requires var v := run[k].views[j]; Check(w, v.nonce, v.exporter, v.peerSpki, v.blob).exporterAccepts
    ensures var v, served := run[k].views[j], run[k].served;
            match f
            case SameSession(i) => i < |served| && served[i].nonce == v.nonce && served[i].exporter == v.exporter
                                   && ReplyTo(w, key, served[i]).Some?
                                   && v.blob.reportExporter == ReplyTo(w, key, served[i]).value.reportExporter
            case KeyReused(i) => i < |served| && served[i].nonce + w.spkiOf(key) == v.nonce + v.exporter
                                 && !(|served[i].nonce| == 64 && |w.spkiOf(key)| != 32)
            case Collision(m1, m2) => IsCollision(w, m1, m2)
  {
    RunKeepsInv(w, key, run, k);
    var v, served := run[k].views[j], run[k].served;
    assert ViewOk(w, key, served, v);
    var o :| From(w, key, served, v.blob.reportExporter, o);
    hide IsRun, Inv, ViewOk, Issued, From, ReplyTo;
    OriginData(w, key, served, v.blob.reportExporter, o);
    var s := served[o.i];
    var m := s.nonce + if o.ExporterReport? then s.exporter else w.spkiOf(key);
    if m != v.nonce + v.exporter {
      f := Collision(m, v.nonce + v.exporter);
    } else if o.ExporterReport? {
      SplitEqual(s.nonce, s.exporter, v.nonce, v.exporter);
      f := SameSession(o.i);
    } else {
      assert |s.nonce| + |w.spkiOf(key)| == 96;
      f := KeyReused(o.i);
    }
  }

  /** The third outcome does occur: a run in which the guest is sent a nonce that its key fills up to 96 bytes, and a
      client whose own nonce and exporter value are those bytes accepts the key report. The client's nonce is free
      here; the real client's is the SHA-512 of a sentence, and whether some sentence has such a hash is left open. */
  lemma KeyReusedRun(w: World, key: Bytes, nonce': Bytes, exporter': Bytes, serial: nat) returns (run: seq<State>)
    requires IsWorld(w) && |w.spkiOf(key)| >= 32 && |nonce'| + |w.spkiOf(key)| == 96
    requires |exporter'| == 32 && exporter' != (nonce' + w.spkiOf(key))[64..]
    requires var reply := Reply(w, key, nonce', exporter', serial);
             reply.Some? && |w.dumps(reply.value)| < 0x1_0000_0000
    ensures IsRun(w, key, run) && |run| == 3 && |run[2].views| == 1
    ensures var v := run[2].views[0]; Check(w, v.nonce, v.exporter, v.peerSpki, v.blob).exporterAccepts
    ensures var v := run[2].views[0];
            forall s :: s in run[2].served ==> s.nonce != v.nonce || s.exporter != v.exporter
  {
    var whole := nonce' + w.spkiOf(key);
    var reply := Reply(w, key, nonce', exporter', serial).value;
    var session := Session(nonce', exporter', serial);
    var blob := reply.(reportExporter := reply.reportKey);
    var view := View(whole[..64], whole[64..], w.spkiOf(key), blob);
    var s0, s1, s2 := State([], []), State([session], []), State([session], [view]);
    run := [s0, s1, s2];
    assert whole[..64] + whole[64..] == whole;
    assert From(w, key, s1.served, reply.reportKey, KeyReport(0));
    NonceLineParses(nonce');
    assert Answer(w, key, 1, serial, NonceLine(nonce'), exporter').1 == Record(1, true, nonce', exporter');
    assert s1.served[..0] == s0.served && s2.views[..0] == s1.views;
    assert GuestServes(w, key, s0, s1) && ClientReceives(w, key, s1, s2);
  }

  /** What an accepted key report shows. */
  datatype KeyFinding = SamePeer(i: nat) | Respelled(i: nat) | KeyCollision(m1: Bytes, m2: Bytes)

  /** The same for the key check: if it accepts, the TLS peer holds the key that signed the client's nonce, and the
      report was issued for a served session with that nonce and that key, or a SHA-512 collision is at hand. The one
      other way is a report whose session hashed the same bytes from other parts; it is closed once the guest is asked
      for 64-byte nonces only and the peer's key encoding is not as long as an exporter value. */
  lemma KeyBinding(w: World, key: Bytes, run: seq<State>, k: nat, j: nat) returns (f: KeyFinding)
    requires IsWorld(w) && IsRun(w, key, run) && k < |run| && j < |run[k].views|
    requires var v := run[k].views[j]; Check(w, v.nonce, v.exporter, v.peerSpki, v.blob).keyAccepts
    ensures var v := run[k].views[j];
            v.peerSpki == v.blob.spki && w.verify(v.peerSpki, v.nonce, v.blob.sig)
    ensures var v, served := run[k].views[j], run[k].served;
            match f
            case SamePeer(i) => i < |served| && served[i].nonce == v.nonce && v.peerSpki == w.spkiOf(key)
                                && ReplyTo(w, key, served[i]).Some?
                                && v.blob.reportKey == ReplyTo(w, key, served[i]).value.reportKey
            case Respelled(i) => && i < |served|
                                 && (|| served[i].nonce + w.spkiOf(key) == v.nonce + v.peerSpki
                                     || served[i].nonce + served[i].exporter == v.nonce + v.peerSpki)
                                 && !(|served[i].nonce| == 64 && |v.peerSpki| != 32)
            case KeyCollision(m1, m2) => IsCollision(w, m1, m2)
  {
    RunKeepsInv(w, key, run, k);
    var v, served := run[k].views[j], run[k].served;
    assert ViewOk(w, key, served, v);
    var o :| From(w, key, served, v.blob.reportKey, o);
    assert |served[o.i].exporter| == 32;
    hide IsRun, Inv, ViewOk, Issued, From, ReplyTo;
    OriginData(w, key, served, v.blob.reportKey, o);
    var s := served[o.i];
    var m := s.nonce + if o.ExporterReport? then s.exporter else w.spkiOf(key);
    if m != v.nonce + v.peerSpki {
      f := KeyCollision(m, v.nonce + v.peerSpki);
    } else if o.KeyReport? && |s.nonce| == 64 {
      TakeAppend(s.nonce, w.spkiOf(key));
      TakeAppend(v.nonce, v.peerSpki);
      f := SamePeer(o.i);
    } else {
      assert |s.nonce| + (if o.ExporterReport? then 32 else |w.spkiOf(key)|) == 64 + |v.peerSpki|;
      f := Respelled(o.i);
    }
  }

  lemma SplitEqual(a: Bytes, b: Bytes, c: Bytes, d: Bytes)
    ensures a + b == c + d && |b| == |d| ==> a == c && b == d
  {
    if a + b == c + d && |b| == |d| {
      TakeAppend(a, b);
      TakeAppend(c, d);
    }
  }
}
