/** Reassembly of TLS handshake messages from a flight of records (early-attestation/handshake.py and its
    guest-side twin handshake_stdlib.py). */
module Handshake {
  import opened Octets

  const HANDSHAKE: byte := 22
  const CLIENT_HELLO: byte := 1
  const SERVER_HELLO: byte := 2

  /** The handshake-layer bytes of a flight: the fragments of its type-22 records, the last one perhaps cut short. */
  function HandshakeBytes(flight: Bytes): Bytes
    decreases |flight|
  {
    if |flight| < 5 then [] else
      var rlen := Be(flight[3..5]);
      (if flight[0] == 22 then Take(flight[5..], rlen) else []) + HandshakeBytes(Drop(flight[5..], rlen))
  }

  /** The first message of handshake bytes `buf`, if it is of the wanted type. */
  function FirstMessage(buf: Bytes, want: byte): Option<Bytes> {
    if |buf| < 4 || buf[0] != want then None else Some(Take(buf, 4 + Be(buf[1..4])))
  }

  method ExtractFirstHandshakeMsg(flight: Bytes, wantHsType: byte) returns (r: Option<Bytes>)
    ensures r == FirstMessage(HandshakeBytes(flight), wantHsType)
  {
    hide HandshakeBytes, Be;
    var i: nat := 0;
    var buf: Bytes := [];
    StartRead(flight);
    while i + 5 <= |flight|
      invariant Read(buf, flight, i)
      decreases |flight| - i
    {
      var ctype, rlen := flight[i], Be(flight[i + 3..i + 5]);
      var frag := Take(flight[i + 5..], rlen);
      RecordRead(buf, flight, i);
      if ctype == HANDSHAKE {
        buf := buf + frag;
      }
      i := i + 5 + rlen;
    }
    AllRead(buf, flight, i);
    if |buf| < 4 {
      return None;
    }
    var hsType, hlen := buf[0], Be(buf[1..4]);
    if hsType != wantHsType {
      return None;
    }
    return Some(Take(buf, 4 + hlen));
  }

  /** The guest's version of the same extraction, with the two refusals joined. */
  method FirstHsMsg(flight: Bytes, want: byte) returns (r: Option<Bytes>)
    ensures r == FirstMessage(HandshakeBytes(flight), want)
  {
    hide HandshakeBytes, Be;
    var i: nat := 0;
    var buf: Bytes := [];
    StartRead(flight);
    while i + 5 <= |flight|
      invariant Read(buf, flight, i)
      decreases |flight| - i
    {
      var ctype, rlen := flight[i], Be(flight[i + 3..i + 5]);
      RecordRead(buf, flight, i);
      if ctype == HANDSHAKE {
        buf := buf + Take(flight[i + 5..], rlen);
      }
      i := i + 5 + rlen;
    }
    AllRead(buf, flight, i);
    if |buf| < 4 || buf[0] != want {
      return None;
    }
    return Some(Take(buf, 4 + Be(buf[1..4])));
  }

  /** The loop invariant of both extractors: `buf` holds the handshake bytes of the records before `i`. */
  ghost predicate Read(buf: Bytes, flight: Bytes, i: nat) {
    buf + HandshakeBytes(Drop(flight, i)) == HandshakeBytes(flight)
  }

  lemma StartRead(flight: Bytes)
    ensures Read([], flight, 0)
  {
    assert Drop(flight, 0) == flight;
  }

  lemma RecordRead(buf: Bytes, flight: Bytes, i: nat)
    requires Read(buf, flight, i) && i + 5 <= |flight|
    ensures var rlen := Be(flight[i + 3..i + 5]);
            Read(if flight[i] == HANDSHAKE then buf + Take(flight[i + 5..], rlen) else buf, flight, i + 5 + rlen)
  {
    RecordSplit(buf, flight, i);
  }

  lemma RecordSplit(buf: Bytes, flight: Bytes, i: nat)
    requires i + 5 <= |flight|
    ensures var rlen := Be(flight[i + 3..i + 5]);
            var rest := HandshakeBytes(Drop(flight, i + 5 + rlen));
            buf + HandshakeBytes(Drop(flight, i))
            == (if flight[i] == HANDSHAKE then buf + Take(flight[i + 5..], rlen) else buf) + rest
  {
    var f := flight[i..];
    var rlen := Be(flight[i + 3..i + 5]);
    var rest := Drop(flight, i + 5 + rlen);
    assert f[3..5] == flight[i + 3..i + 5];
    assert f[5..] == flight[i + 5..];
    assert Drop(f[5..], rlen) == rest;
    Assoc(buf, Take(f[5..], rlen), HandshakeBytes(rest));
    assert [] + HandshakeBytes(rest) == HandshakeBytes(rest);
  }

  lemma AllRead(buf: Bytes, flight: Bytes, i: nat)
    requires Read(buf, flight, i) && i + 5 > |flight|
    ensures buf == HandshakeBytes(flight)
  {
    assert HandshakeBytes(Drop(flight, i)) == [];
  }

  // ---- Any fragmentation gives back the message ----

  /** A TLSPlaintext record; the two version bytes are not looked at. */
  datatype Record = Record(ctype: byte, major: byte, minor: byte, fragment: Bytes)

  function Header(r: Record): (h: Bytes)
    ensures |h| == 5
  {
    [r.ctype, r.major, r.minor] + BeBytes(|r.fragment|, 2)
  }

  function Wire(records: seq<Record>): Bytes {
    if |records| == 0 then [] else Header(records[0]) + records[0].fragment + Wire(records[1..])
  }

  function Payload(records: seq<Record>): Bytes {
    if |records| == 0 then [] else
      (if records[0].ctype == 22 then records[0].fragment else []) + Payload(records[1..])
  }

  predicate Sendable(records: seq<Record>) {
    forall i :: 0 <= i < |records| ==> |records[i].fragment| < 0x1_0000
  }

  /** `msg` is one whole handshake message. */
  predicate IsMessage(msg: Bytes, hsType: byte) {
    |msg| >= 4 && msg[0] == hsType && |msg| == 4 + Be(msg[1..4])
  }

  lemma {:induction false} WireRead(records: seq<Record>, tail: Bytes)
    requires Sendable(records)
    ensures HandshakeBytes(Wire(records) + tail) == Payload(records) + HandshakeBytes(tail)
  {
    if records == [] {
      assert Wire(records) + tail == tail;
    } else {
      var r := records[0];
      WireRead(records[1..], tail);
      HeaderRead(r);
      Assoc(Header(r) + r.fragment, Wire(records[1..]), tail);
      WholeRecord(Header(r), r.fragment, Wire(records[1..]) + tail);
      Assoc(if r.ctype == HANDSHAKE then r.fragment else [], Payload(records[1..]), HandshakeBytes(tail));
    }
  }

  lemma HeaderRead(r: Record)
    requires |r.fragment| < 0x1_0000
    ensures Header(r)[0] == r.ctype && Be(Header(r)[3..5]) == |r.fragment|
  {
    Powers();
    BeOfBytes(|r.fragment|, 2);
    assert Header(r)[3..5] == BeBytes(|r.fragment|, 2);
  }

  lemma FirstOfLonger(msg: Bytes, more: Bytes, want: byte)
    requires IsMessage(msg, want)
    ensures FirstMessage(msg + more, want) == Some(msg)
  {
    assert (msg + more)[1..4] == msg[1..4];
    TakeAppend(msg, more);
  }

  /** However a message is cut into type-22 records, whatever other records lie between them and whatever
      follows, it is extracted exactly. */
  lemma FragmentationIndependence(records: seq<Record>, msg: Bytes, more: Bytes, tail: Bytes, want: byte)
    requires Sendable(records)
    requires IsMessage(msg, want) && Payload(records) == msg + more
    ensures FirstMessage(HandshakeBytes(Wire(records) + tail), want) == Some(msg)
  {
    WireRead(records, tail);
    Assoc(msg, more, HandshakeBytes(tail));
    FirstOfLonger(msg, more + HandshakeBytes(tail), want);
  }

  // ---- When more bytes can change the answer ----

  lemma {:induction false} HandshakeBytesGrow(a: Bytes, b: Bytes)
    ensures HandshakeBytes(a) <= HandshakeBytes(a + b)
    decreases |a|
  {
    hide HandshakeBytes, Be;
    if |a| < 5 {
      NoRecord(a);
    } else {
      var header, part := a[..5], a[5..];
      var rlen := Be(header[3..5]);
      assert a == header + part;
      if rlen <= |part| {
        var body, rest := part[..rlen], part[rlen..];
        HandshakeBytesGrow(rest, b);
        WholeRecord(header, body, rest);
        WholeRecord(header, body, rest + b);
        Assoc(header, body, rest);
        Assoc(header + body, rest, b);
        assert part == body + rest;
      } else {
        CutRecord(header, part);
        CutRecordGrows(header, part, b);
      }
    }
  }

  /** Whatever follows a cut record first goes into it. */
  lemma CutRecordGrows(header: Bytes, part: Bytes, b: Bytes)
    requires |header| == 5 && |part| < Be(header[3..5])
    ensures (if header[0] == HANDSHAKE then part else []) <= HandshakeBytes(header + part + b)
  {
    hide HandshakeBytes, Be;
    var rlen, whole := Be(header[3..5]), part + b;
    Assoc(header, part, b);
    if |whole| <= rlen {
      CutRecord(header, whole);
    } else {
      WholeRecord(header, whole[..rlen], whole[rlen..]);
      Assoc(header, whole[..rlen], whole[rlen..]);
      assert whole[..rlen] + whole[rlen..] == whole;
      assert part <= whole[..rlen];
    }
  }

  /** Some continuation always brings at least one more handshake byte. */
  lemma {:induction false} HandshakeBytesCanGrow(a: Bytes) returns (b: Bytes)
    ensures |HandshakeBytes(a + b)| > |HandshakeBytes(a)|
    decreases |a|
  {
    hide HandshakeBytes, Be;
    if |a| < 5 {
      b := CompleteHeader(a);
    } else {
      var header, rlen := a[..5], Be(a[3..5]);
      assert header[3..5] == a[3..5];
      if rlen <= |a| - 5 {
        var body, rest := a[5..5 + rlen], a[5 + rlen..];
        b := HandshakeBytesCanGrow(rest);
        GrowPastRecord(header, body, rest, b);
        assert a == header + body + rest;
      } else {
        b := CompleteBody(header, a[5..]);
        assert a == header + a[5..];
        Assoc(header, a[5..], b);
      }
    }
  }

  lemma GrowPastRecord(header: Bytes, body: Bytes, rest: Bytes, b: Bytes)
    requires |header| == 5 && |body| == Be(header[3..5])
    requires |HandshakeBytes(rest + b)| > |HandshakeBytes(rest)|
    ensures |HandshakeBytes(header + body + rest + b)| > |HandshakeBytes(header + body + rest)|
  {
    hide HandshakeBytes, Be;
    Assoc(header + body, rest, b);
    WholeRecord(header, body, rest + b);
    WholeRecord(header, body, rest);
  }

  const ONE_MORE: Bytes := [HANDSHAKE, 3, 3, 0, 1, 0]

  lemma NoRecord(a: Bytes)
    requires |a| < 5
    ensures HandshakeBytes(a) == []
  {
  }

  /** Finish a cut header, send the record it announces, then one more byte. */
  lemma CompleteHeader(a: Bytes) returns (b: Bytes)
    requires |a| < 5
    ensures |HandshakeBytes(a + b)| > |HandshakeBytes(a)|
  {
    hide HandshakeBytes, Be;
    NoRecord(a);
    var fill: Bytes := seq(5 - |a|, _ => 0);
    var more := CompleteBody(a + fill, []);
    b := fill + more;
    Assoc(a, fill, more);
    assert [] + more == more;
  }

  /** Finish a cut record, then send one more byte. */
  lemma CompleteBody(header: Bytes, part: Bytes) returns (b: Bytes)
    requires |header| == 5 && |part| <= Be(header[3..5])
    ensures |HandshakeBytes(header + (part + b))| > |HandshakeBytes(header + part)|
  {
    hide HandshakeBytes, Be;
    var rlen := Be(header[3..5]);
    var fill: Bytes := seq(rlen - |part|, _ => 0);
    b := fill + ONE_MORE;
    Assoc(part, fill, ONE_MORE);
    Assoc(header, part + fill, ONE_MORE);
    WholeRecord(header, part + fill, ONE_MORE);
    OneByteRecord(ONE_MORE, 0);
    CutRecord(header, part);
  }

  lemma CutRecord(header: Bytes, part: Bytes)
    requires |header| == 5 && |part| <= Be(header[3..5])
    ensures HandshakeBytes(header + part) == if header[0] == HANDSHAKE then part else []
  {
    var f := header + part;
    assert f[3..5] == header[3..5];
    assert f[5..] == part;
    assert HandshakeBytes(Drop(part, Be(header[3..5]))) == [];
  }

  lemma WholeRecord(header: Bytes, body: Bytes, rest: Bytes)
    requires |header| == 5 && |body| == Be(header[3..5])
    ensures HandshakeBytes(header + body + rest)
         == (if header[0] == HANDSHAKE then body else []) + HandshakeBytes(rest)
  {
    var f := header + body + rest;
    assert f[3..5] == header[3..5];
    assert f[5..] == body + rest;
    TakeAppend(body, rest);
  }

  lemma OneByteRecord(f: Bytes, x: byte)
    requires f == [HANDSHAKE, 3, 3, 0, 1, x]
    ensures HandshakeBytes(f) == [x]
  {
    assert f[3..5] == [0, 1];
    assert Be([0, 1]) == 1 by {
      assert [0, 1][..1] == [0];
      assert [0][..0] == [];
    }
    assert f[5..] == [x];
    assert HandshakeBytes(Drop(f[5..], 1)) == [];
  }

  /** The handshake bytes reach the end that their first message's header announces. */
  predicate Arrived(buf: Bytes) {
    |buf| >= 4 && |buf| >= 4 + Be(buf[1..4])
  }

  lemma MessageIffArrived(buf: Bytes, want: byte, m: Bytes)
    requires FirstMessage(buf, want) == Some(m)
    ensures IsMessage(m, want) <==> Arrived(buf)
  {
    assert m[1..4] == buf[1..4];
  }

  /** What is extracted survives every continuation of the flight exactly when enough handshake bytes had arrived, and
      then it is a whole message. The code also answers before that; those answers, and only those, can still change. */
  lemma StableIffComplete(a: Bytes, want: byte, m: Bytes)
    requires FirstMessage(HandshakeBytes(a), want) == Some(m)
    ensures Arrived(HandshakeBytes(a)) <==> forall b :: FirstMessage(HandshakeBytes(a + b), want) == Some(m)
    ensures Arrived(HandshakeBytes(a)) <==> IsMessage(m, want)
  {
    MessageIffArrived(HandshakeBytes(a), want, m);
    hide HandshakeBytes, FirstMessage, Arrived;
    if IsMessage(m, want) {
      forall b
        ensures FirstMessage(HandshakeBytes(a + b), want) == Some(m)
      {
        HandshakeBytesGrow(a, b);
        CompleteStays(HandshakeBytes(a), HandshakeBytes(a + b), want, m);
      }
    } else {
      var b := HandshakeBytesCanGrow(a);
      HandshakeBytesGrow(a, b);
      IncompleteChanges(HandshakeBytes(a), HandshakeBytes(a + b), want, m);
    }
  }

  lemma CompleteStays(buf: Bytes, longer: Bytes, want: byte, m: Bytes)
    requires buf <= longer
    requires FirstMessage(buf, want) == Some(m) && IsMessage(m, want)
    ensures FirstMessage(longer, want) == Some(m)
  {
    assert longer == m + longer[|m|..];
    FirstOfLonger(m, longer[|m|..], want);
  }

  lemma IncompleteChanges(buf: Bytes, longer: Bytes, want: byte, m: Bytes)
    requires buf <= longer && |buf| < |longer|
    requires FirstMessage(buf, want) == Some(m) && !IsMessage(m, want)
    ensures FirstMessage(longer, want) != Some(m)
  {
    assert m[1..4] == buf[1..4] == longer[1..4];
  }

  /** A flight cut inside its ClientHello: the code answers with the part that has arrived. */
  lemma CutMessageIsReturned()
    ensures var flight := [22, 3, 1, 0, 4, 1, 0, 0, 9];
            && FirstMessage(HandshakeBytes(flight), 1) == Some([1, 0, 0, 9])
            && !IsMessage([1, 0, 0, 9], 1)
  {
    var header: Bytes := [22, 3, 1, 0, 4];
    var m: Bytes := [1, 0, 0, 9];
    SmallBe(0, 4);
    SmallBe(0, 0);
    assert header[3..5] == [0, 4];
    WholeRecord(header, m, []);
    assert header + m + [] == [22, 3, 1, 0, 4, 1, 0, 0, 9];
    assert HandshakeBytes([]) == [] && m + [] == m;
    var len := m[1..4];
    assert len[..2] == [0, 0] && Be(len) == 9;
  }

  lemma SmallBe(x: byte, y: byte)
    ensures Be([x, y]) == 256 * x + y
  {
    var s: Bytes := [x, y];
    assert s[..1] == [x] && [x][..0] == [];
    assert Be([x]) == x;
  }

  // ---- Transcripts ----

  /** The transcript of a captured handshake: ClientHello, then ServerHello; `None` where one of them is not found. */
  function Transcript(clientFlight: Bytes, serverFlight: Bytes): Option<Bytes> {
    var ch :- FirstMessage(HandshakeBytes(clientFlight), CLIENT_HELLO);
    var sh :- FirstMessage(HandshakeBytes(serverFlight), SERVER_HELLO);
    Some(ch + sh)
  }

  /** Messages delimit themselves, so the pair can be read off its concatenation. */
  lemma TranscriptUnique(ch1: Bytes, sh1: Bytes, ch2: Bytes, sh2: Bytes)
    requires IsMessage(ch1, CLIENT_HELLO) && IsMessage(ch2, CLIENT_HELLO)
    requires ch1 + sh1 == ch2 + sh2
    ensures ch1 == ch2 && sh1 == sh2
  {
    FirstOfLonger(ch1, sh1, CLIENT_HELLO);
    FirstOfLonger(ch2, sh2, CLIENT_HELLO);
    TakeAppend(ch1, sh1);
    TakeAppend(ch2, sh2);
  }

  /** The transcript does not depend on how either peer cuts its flight into records or on what follows the hellos. */
  lemma TranscriptOfRecords(client: seq<Record>, server: seq<Record>, ch: Bytes, sh: Bytes,
                            moreC: Bytes, moreS: Bytes, tailC: Bytes, tailS: Bytes)
    requires Sendable(client) && IsMessage(ch, 1) && Payload(client) == ch + moreC
    requires Sendable(server) && IsMessage(sh, 2) && Payload(server) == sh + moreS
    ensures Transcript(Wire(client) + tailC, Wire(server) + tailS) == Some(ch + sh)
  {
    hide HandshakeBytes, FirstMessage, Wire, Payload;
    FragmentationIndependence(client, ch, moreC, tailC, CLIENT_HELLO);
    FragmentationIndependence(server, sh, moreS, tailS, SERVER_HELLO);
  }

  /** A ClientHello cut short breaks this: two pairs of flights with different hellos and one transcript. These are
      inputs to the extractor; a capture calls it on flights of finished handshakes. */
  lemma CutTranscriptsMeet()
    ensures var ch1, mid, sh2 := [CLIENT_HELLO, 0, 0, 9], [SERVER_HELLO, 0, 0, 4], [SERVER_HELLO, 0, 0, 0];
            && FirstMessage(HandshakeBytes(OneRecord(ch1)), CLIENT_HELLO) == Some(ch1)
            && FirstMessage(HandshakeBytes(OneRecord(ch1 + mid)), CLIENT_HELLO) == Some(ch1 + mid)
            && ch1 != ch1 + mid
            && Transcript(OneRecord(ch1), OneRecord(mid + sh2)) == Some(ch1 + mid + sh2)
            && Transcript(OneRecord(ch1 + mid), OneRecord(sh2)) == Some(ch1 + mid + sh2)
  {
    var ch1, mid, sh2 := [CLIENT_HELLO, 0, 0, 9], [SERVER_HELLO, 0, 0, 4], [SERVER_HELLO, 0, 0, 0];
    ShortMessage(CLIENT_HELLO, 9, []);
    ShortMessage(CLIENT_HELLO, 9, mid);
    ShortMessage(SERVER_HELLO, 4, sh2);
    ShortMessage(SERVER_HELLO, 0, []);
    assert ch1 + [] == ch1 && sh2 + [] == sh2;
    OneRecordRead(ch1);
    OneRecordRead(ch1 + mid);
    OneRecordRead(mid + sh2);
    OneRecordRead(sh2);
    hide OneRecord, HandshakeBytes, FirstMessage;
    Assoc(ch1, mid, sh2);
  }

  /** A flight of one handshake record. */
  function OneRecord(body: Bytes): Bytes
    requires |body| < 256
  {
    [HANDSHAKE, 3, 3, 0, |body|] + body
  }

  lemma OneRecordRead(body: Bytes)
    requires |body| < 256
    ensures HandshakeBytes(OneRecord(body)) == body
  {
    var header: Bytes := [HANDSHAKE, 3, 3, 0, |body|];
    assert header[3..5] == [0, |body|];
    SmallBe(0, |body|);
    CutRecord(header, body);
  }

  lemma ShortMessage(hsType: byte, len: byte, body: Bytes)
    requires |body| <= len
    ensures FirstMessage([hsType, 0, 0, len] + body, hsType) == Some([hsType, 0, 0, len] + body)
  {
    var buf: Bytes := [hsType, 0, 0, len] + body;
    var field: Bytes := [0, 0, len];
    assert buf[1..4] == field && field[..2] == [0, 0];
    SmallBe(0, 0);
    assert Be(field) == len;
    assert Take(buf, 4 + len) == buf;
  }
}
