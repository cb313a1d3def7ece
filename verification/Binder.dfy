/** The attestation binder (early-attestation/binder.py): HKDF-Expand, HKDF-Expand-Label, the two-step server binder
    and its 64-byte embedding, with uniqueness proved by reduction to collisions. */
module Binder {
  import opened Octets
  import Handshake

  /** A hash with its HMAC; nothing is assumed of either but the output length. */
  datatype Hash = Hash(digest: Bytes -> Bytes, mac: (Bytes, Bytes) -> Bytes, size: nat)

  ghost predicate IsHash(h: Hash) {
    && 0 < h.size <= 64
    && (forall m :: |h.digest(m)| == h.size)
    && (forall k, m :: |h.mac(k, m)| == h.size)
  }

  // ---- HKDF-Expand ----

  /** T(i) of section 2.3 of RFC 5869. */
  function Block(h: Hash, prk: Bytes, info: Bytes, i: nat): Bytes
    requires i <= 255
  {
    if i == 0 then [] else h.mac(prk, Block(h, prk, info, i - 1) + info + [i])
  }

  /** T(1) | ... | T(n). */
  function Blocks(h: Hash, prk: Bytes, info: Bytes, n: nat): Bytes
    requires n <= 255
  {
    if n == 0 then [] else Blocks(h, prk, info, n - 1) + Block(h, prk, info, n)
  }

  /** How many blocks `length` bytes take. */
  function BlockCount(length: nat, size: nat): nat
    requires size > 0
  {
    (length + size - 1) / size
  }

  /** The first `length` bytes of the block stream; past 255 blocks the counter byte cannot be formed. */
  function Expand(h: Hash, prk: Bytes, info: Bytes, length: nat): Option<Bytes>
    requires h.size > 0
  {
    var n := BlockCount(length, h.size);
    if n > 255 then None else Some(Take(Blocks(h, prk, info, n), length))
  }

  method HkdfExpand(h: Hash, prk: Bytes, info: Bytes, length: nat) returns (r: Option<Bytes>)
    requires IsHash(h)
    ensures r == Expand(h, prk, info, length)
    ensures r.Some? <==> length <= 255 * h.size
    ensures r.Some? ==> |r.value| == length
  {
    var n := (length + h.size - 1) / h.size;
    CountBound(length, h.size);
    var t, okm: Bytes := [], [];
    var i := 1;
    while i <= n
      invariant 1 <= i <= n + 1 && i <= 256
      invariant t == Block(h, prk, info, i - 1) && okm == Blocks(h, prk, info, i - 1)
      decreases n - i
    {
      if i > 255 {
        return None;
      }
      t := h.mac(prk, t + info + [i]);
      okm := okm + t;
      i := i + 1;
    }
    BlocksLength(h, prk, info, n);
    return Some(Take(okm, length));
  }

  /** The guest's own copy of the loop (handshake_stdlib.py). */
  method StdlibHkdfExpand(prk: Bytes, info: Bytes, length: nat, hn: Hash) returns (r: Option<Bytes>)
    requires IsHash(hn)
    ensures r == Expand(hn, prk, info, length)
  {
    var n := (length + hn.size - 1) / hn.size;
    var t, okm: Bytes := [], [];
    for i := 1 to n + 1
      invariant i <= 256
      invariant t == Block(hn, prk, info, i - 1) && okm == Blocks(hn, prk, info, i - 1)
    {
      if i > 255 {
        return None;
      }
      t := hn.mac(prk, t + info + [i]);
      okm := okm + t;
    }
    return Some(Take(okm, length));
  }

  lemma MulLe(a: int, b: int, c: nat)
    requires a <= b
    ensures a * c <= b * c
  {
  }

  /** `n` blocks reach `length` and `n - 1` do not, unless there is nothing to reach. */
  lemma CountBound(length: nat, size: nat)
    requires size > 0
    ensures BlockCount(length, size) * size >= length
    ensures BlockCount(length, size) <= 255 <==> length <= 255 * size
  {
    var n, d := BlockCount(length, size), length + size - 1;
    assert d == n * size + d % size;
    if n <= 255 {
      MulLe(n, 255, size);
    } else {
      MulLe(256, n, size);
    }
  }

  lemma {:induction false} BlocksLength(h: Hash, prk: Bytes, info: Bytes, n: nat)
    requires IsHash(h) && n <= 255
    ensures |Blocks(h, prk, info, n)| == n * h.size
  {
    if n == 0 {
    } else {
      BlocksLength(h, prk, info, n - 1);
      assert n * h.size == (n - 1) * h.size + h.size;
    }
  }

  lemma {:induction false} BlocksGrow(h: Hash, prk: Bytes, info: Bytes, m: nat, n: nat)
    requires m <= n <= 255
    ensures Blocks(h, prk, info, m) <= Blocks(h, prk, info, n)
    decreases n
  {
    if m >= n {
    } else {
      BlocksGrow(h, prk, info, m, n - 1);
    }
  }

  /** Asking for more output never changes the output already given. */
  lemma ExpandPrefix(h: Hash, prk: Bytes, info: Bytes, short: nat, long: nat)
    requires IsHash(h) && short <= long <= 255 * h.size
    ensures Expand(h, prk, info, short).Some? && Expand(h, prk, info, long).Some?
    ensures Expand(h, prk, info, short).value <= Expand(h, prk, info, long).value
  {
    var m, n := BlockCount(short, h.size), BlockCount(long, h.size);
    CountBound(short, h.size);
    CountBound(long, h.size);
    CountGrows(short, long, h.size);
    BlocksLength(h, prk, info, m);
    BlocksLength(h, prk, info, n);
    BlocksGrow(h, prk, info, m, n);
  }

  lemma CountGrows(short: nat, long: nat, size: nat)
    requires size > 0 && short <= long
    ensures BlockCount(short, size) <= BlockCount(long, size)
  {
    var m, n := BlockCount(short, size), BlockCount(long, size);
    var c, d := short + size - 1, long + size - 1;
    assert c == m * size + c % size && d == n * size + d % size;
    if n < m {
      MulLe(n + 1, m, size);
    }
  }

  // ---- HKDF-Expand-Label ----

  /** The HkdfLabel structure of section 7.1 of RFC 8446; `None` where a length field overflows. */
  function HkdfLabel(length: nat, name: Bytes, context: Bytes): Option<Bytes> {
    var full := TLS13 + name;
    if length >= 0x1_0000 || |full| > 255 || |context| > 255 then None
    else Some(BeBytes(length, 2) + [|full|] + full + [|context|] + context)
  }

  /** `b"tls13 "`. */
  const TLS13: Bytes := [116, 108, 115, 49, 51, 32]

  function ExpandLabel(h: Hash, secret: Bytes, name: Bytes, context: Bytes, length: nat): Option<Bytes>
    requires h.size > 0
  {
    var info :- HkdfLabel(length, name, context);
    Expand(h, secret, info, length)
  }

  /** An HkdfLabel determines its three fields. */
  lemma LabelUnique(l1: nat, n1: Bytes, c1: Bytes, l2: nat, n2: Bytes, c2: Bytes)
    requires HkdfLabel(l1, n1, c1).Some? && HkdfLabel(l1, n1, c1) == HkdfLabel(l2, n2, c2)
    ensures l1 == l2 && n1 == n2 && c1 == c2
  {
    var e := HkdfLabel(l1, n1, c1).value;
    LabelFields(l1, n1, c1);
    LabelFields(l2, n2, c2);
  }

  /** Where the fields of an encoded HkdfLabel lie. */
  lemma LabelFields(length: nat, name: Bytes, context: Bytes)
    requires HkdfLabel(length, name, context).Some?
    ensures var e := HkdfLabel(length, name, context).value;
            && |e| >= 10 && Be(e[..2]) == length
            && var k: int := e[2];
            && 6 <= k <= |e| - 4 && name == e[9..3 + k] && context == e[4 + k..]
  {
    Powers();
    BeOfBytes(length, 2);
    var e := HkdfLabel(length, name, context).value;
    var head := BeBytes(length, 2);
    var full := TLS13 + name;
    assert e[..2] == head;
    assert e[2] == |full|;
    assert e[9..3 + |full|] == name;
    assert e[4 + |full|..] == context;
  }

  // ---- The binder ----

  /** `b"attestation base"` and `b"attestation"`. */
  const ATTESTATION: Bytes := [97, 116, 116, 101, 115, 116, 97, 116, 105, 111, 110]
  const ATTESTATION_BASE: Bytes := ATTESTATION + [32, 98, 97, 115, 101]

  function Zeros(n: nat): (z: Bytes)
    ensures |z| == n
  {
    seq(n, _ => 0)
  }

  function AttestBase(h: Hash, transcript: Bytes): (r: Option<Bytes>)
    requires h.size > 0
  {
    ExpandLabel(h, Zeros(h.size), ATTESTATION_BASE, h.digest(transcript), h.size)
  }

  function ServerBinder(h: Hash, transcript: Bytes, spki: Bytes): (r: Option<Bytes>)
    requires h.size > 0
  {
    var base :- AttestBase(h, transcript);
    ExpandLabel(h, base, ATTESTATION, h.digest(spki), h.size)
  }

  method HkdfExpandLabel(secret: Bytes, name: Bytes, context: Bytes, length: nat, h: Hash) returns (r: Option<Bytes>)
    requires IsHash(h)
    ensures r == ExpandLabel(h, secret, name, context, length)
  {
    var full := TLS13 + name;
    if length >= 0x1_0000 || |full| > 255 || |context| > 255 {
      return None;
    }
    var hkdfLabel := BeBytes(length, 2) + [|full|] + full + [|context|] + context;
    r := HkdfExpand(h, secret, hkdfLabel, length);
  }

  method DeriveBase(transcript: Bytes, h: Hash) returns (r: Option<Bytes>)
    requires IsHash(h)
    ensures r == AttestBase(h, transcript)
  {
    r := HkdfExpandLabel(Zeros(h.size), ATTESTATION_BASE, h.digest(transcript), h.size, h);
  }

  /** The verifier's `server_binder`, over its own loop. */
  method DeriveServerBinder(transcript: Bytes, spki: Bytes, h: Hash) returns (r: Option<Bytes>)
    requires IsHash(h)
    ensures r == ServerBinder(h, transcript, spki)
    ensures r.Some? && |r.value| == h.size
  {
    BinderIsTwoMacs(h, transcript, spki);
    var base := DeriveBase(transcript, h);
    r := HkdfExpandLabel(base.value, ATTESTATION, h.digest(spki), h.size, h);
  }

  method StdlibHkdfExpandLabel(secret: Bytes, name: Bytes, context: Bytes, length: nat, hn: Hash)
    returns (r: Option<Bytes>)
    requires IsHash(hn)
    ensures r == ExpandLabel(hn, secret, name, context, length)
  {
    var full := TLS13 + name;
    if length >= 0x1_0000 || |full| > 255 || |context| > 255 {
      return None;
    }
    var lbl := BeBytes(length, 2) + [|full|] + full + [|context|] + context;
    r := StdlibHkdfExpand(secret, lbl, length, hn);
  }

  /** The guest's `server_binder`, over the guest's loop, with the base computed in place. */
  method StdlibServerBinder(transcript: Bytes, spki: Bytes, hn: Hash) returns (r: Option<Bytes>)
    requires IsHash(hn)
    ensures r == ServerBinder(hn, transcript, spki)
    ensures r.Some? && |r.value| == hn.size
  {
    BinderIsTwoMacs(hn, transcript, spki);
    var base := StdlibHkdfExpandLabel(Zeros(hn.size), ATTESTATION_BASE, hn.digest(transcript), hn.size, hn);
    r := StdlibHkdfExpandLabel(base.value, ATTESTATION, hn.digest(spki), hn.size, hn);
  }

  /** Left-justified in 64 bytes; `None` where the source's assertion fails. */
  function IntoReportData(binder: Bytes): (rd: Option<Bytes>)
    ensures rd.Some? <==> |binder| <= 64
    ensures rd.Some? ==> |rd.value| == 64 && binder <= rd.value
    ensures rd.Some? ==> forall i :: |binder| <= i < 64 ==> rd.value[i] == 0
  {
    if |binder| <= 64 then Some(binder + Zeros(64 - |binder|)) else None
  }

  function ReportData(h: Hash, transcript: Bytes, spki: Bytes): (rd: Option<Bytes>)
    requires h.size > 0
  {
    var binder :- ServerBinder(h, transcript, spki);
    IntoReportData(binder)
  }

  /** One hash-length of output is a single HMAC. */
  lemma OneBlock(h: Hash, secret: Bytes, name: Bytes, context: Bytes)
    requires IsHash(h) && |name| <= 249 && |context| == h.size
    ensures HkdfLabel(h.size, name, context).Some?
    ensures ExpandLabel(h, secret, name, context, h.size)
         == Some(h.mac(secret, HkdfLabel(h.size, name, context).value + [1]))
  {
    var info := HkdfLabel(h.size, name, context).value;
    SingleCount(h.size);
    var t := h.mac(secret, info + [1]);
    assert Block(h, secret, info, 0) + info == info;
    assert Block(h, secret, info, 1) == t;
    assert Blocks(h, secret, info, 1) == [] + t == t;
    assert Take(t, h.size) == t;
  }

  lemma SingleCount(size: nat)
    requires size > 0
    ensures BlockCount(size, size) == 1
  {
    var n, d := BlockCount(size, size), 2 * size - 1;
    assert d == n * size + d % size;
    if n >= 2 {
      MulLe(2, n, size);
    } else if n <= 0 {
      MulLe(n, 0, size);
    }
  }

  /** The binder always exists, has the hash's length, and is this pair of nested HMACs. */
  lemma BinderIsTwoMacs(h: Hash, transcript: Bytes, spki: Bytes)
    requires IsHash(h)
    ensures HkdfLabel(h.size, ATTESTATION_BASE, h.digest(transcript)).Some?
    ensures HkdfLabel(h.size, ATTESTATION, h.digest(spki)).Some?
    ensures AttestBase(h, transcript)
         == Some(h.mac(Zeros(h.size), HkdfLabel(h.size, ATTESTATION_BASE, h.digest(transcript)).value + [1]))
    ensures ServerBinder(h, transcript, spki)
         == Some(h.mac(AttestBase(h, transcript).value, HkdfLabel(h.size, ATTESTATION, h.digest(spki)).value + [1]))
    ensures ReportData(h, transcript, spki).Some?
  {
    OneBlock(h, Zeros(h.size), ATTESTATION_BASE, h.digest(transcript));
    OneBlock(h, AttestBase(h, transcript).value, ATTESTATION, h.digest(spki));
  }

  // ---- Uniqueness by reduction ----

  /** What two equal REPORT_DATA values show. */
  datatype Finding =
    | Same
    | HashCollision(m1: Bytes, m2: Bytes)
    | MacCollision(k1: Bytes, x1: Bytes, k2: Bytes, x2: Bytes)

  /** The collisions are real ones; HMAC keys of one length, so that zero padding of keys is not a collision. */
  predicate IsCollision(h: Hash, f: Finding) {
    match f
    case Same => false
    case HashCollision(m1, m2) => m1 != m2 && h.digest(m1) == h.digest(m2)
    case MacCollision(k1, x1, k2, x2) =>
      (k1, x1) != (k2, x2) && |k1| == |k2| == h.size && h.mac(k1, x1) == h.mac(k2, x2)
  }

  /** Compare two binder computations from the outside in and stop at the first place where they collide. */
  function Compare(h: Hash, tr1: Bytes, spki1: Bytes, tr2: Bytes, spki2: Bytes): (f: Finding)
    requires IsHash(h)
    requires ReportData(h, tr1, spki1) == ReportData(h, tr2, spki2)
    ensures f.Same? <==> tr1 == tr2 && spki1 == spki2
    ensures !f.Same? ==> IsCollision(h, f)
  {
    BinderIsTwoMacs(h, tr1, spki1);
    BinderIsTwoMacs(h, tr2, spki2);
    EqualReportData(h, tr1, spki1, tr2, spki2);
    var base1, base2 := AttestBase(h, tr1).value, AttestBase(h, tr2).value;
    var info1 := HkdfLabel(h.size, ATTESTATION, h.digest(spki1)).value + [1];
    var info2 := HkdfLabel(h.size, ATTESTATION, h.digest(spki2)).value + [1];
    if (base1, info1) != (base2, info2) then MacCollision(base1, info1, base2, info2)
    else
      StripCounter(h, ATTESTATION, h.digest(spki1), h.digest(spki2));
      if spki1 != spki2 then HashCollision(spki1, spki2)
      else
        var x1 := HkdfLabel(h.size, ATTESTATION_BASE, h.digest(tr1)).value + [1];
        var x2 := HkdfLabel(h.size, ATTESTATION_BASE, h.digest(tr2)).value + [1];
        if x1 != x2 then MacCollision(Zeros(h.size), x1, Zeros(h.size), x2)
        else
          StripCounter(h, ATTESTATION_BASE, h.digest(tr1), h.digest(tr2));
          if tr1 != tr2 then HashCollision(tr1, tr2) else Same
  }

  /** The two HkdfLabels byte for byte: the length, "tls13 attestation base" or "tls13 attestation", and the hash. */
  lemma LabelBytes(h: Hash, context: Bytes)
    requires IsHash(h) && |context| == h.size
    ensures HkdfLabel(h.size, ATTESTATION_BASE, context) ==
            Some([0, h.size] + [22]
                 + [116, 108, 115, 49, 51, 32, 97, 116, 116, 101, 115, 116, 97, 116, 105, 111, 110,
                    32, 98, 97, 115, 101]
                 + [h.size] + context)
    ensures HkdfLabel(h.size, ATTESTATION, context) ==
            Some([0, h.size] + [17] + [116, 108, 115, 49, 51, 32, 97, 116, 116, 101, 115, 116, 97, 116, 105, 111, 110]
                 + [h.size] + context)
    ensures forall i :: 0 <= i < h.size ==> Zeros(h.size)[i] == 0
  {
    assert BeBytes(h.size / 256, 1) == [0];
    assert BeBytes(h.size, 2) == [0, h.size];
    assert TLS13 + ATTESTATION ==
           [116, 108, 115, 49, 51, 32, 97, 116, 116, 101, 115, 116, 97, 116, 105, 111, 110];
    assert TLS13 + ATTESTATION_BASE ==
           [116, 108, 115, 49, 51, 32, 97, 116, 116, 101, 115, 116, 97, 116, 105, 111, 110, 32, 98, 97, 115, 101];
  }

  lemma EqualReportData(h: Hash, tr1: Bytes, spki1: Bytes, tr2: Bytes, spki2: Bytes)
    requires IsHash(h)
    requires ReportData(h, tr1, spki1) == ReportData(h, tr2, spki2)
    ensures ServerBinder(h, tr1, spki1) == ServerBinder(h, tr2, spki2)
  {
    BinderIsTwoMacs(h, tr1, spki1);
    BinderIsTwoMacs(h, tr2, spki2);
    var b1, b2 := ServerBinder(h, tr1, spki1).value, ServerBinder(h, tr2, spki2).value;
    var rd := ReportData(h, tr1, spki1).value;
    assert b1 == rd[..h.size] && b2 == rd[..h.size];
  }

  lemma StripCounter(h: Hash, name: Bytes, c1: Bytes, c2: Bytes)
    requires HkdfLabel(h.size, name, c1).Some? && HkdfLabel(h.size, name, c2).Some?
    ensures HkdfLabel(h.size, name, c1).value + [1] == HkdfLabel(h.size, name, c2).value + [1] ==> c1 == c2
  {
    var e1, e2 := HkdfLabel(h.size, name, c1).value, HkdfLabel(h.size, name, c2).value;
    if e1 + [1] == e2 + [1] {
      assert e1 == (e1 + [1])[..|e1 + [1]| - 1] == e2;
      LabelUnique(h.size, name, c1, h.size, name, c2);
    }
  }

  /** REPORT_DATA pins down the ClientHello, the ServerHello and the server key, up to collisions. */
  lemma BinderUnique(h: Hash, ch1: Bytes, sh1: Bytes, spki1: Bytes, ch2: Bytes, sh2: Bytes, spki2: Bytes)
    returns (f: Finding)
    requires IsHash(h)
    requires Handshake.IsMessage(ch1, Handshake.CLIENT_HELLO) && Handshake.IsMessage(ch2, Handshake.CLIENT_HELLO)
    requires ReportData(h, ch1 + sh1, spki1) == ReportData(h, ch2 + sh2, spki2)
    ensures (ch1, sh1, spki1) == (ch2, sh2, spki2) || IsCollision(h, f)
  {
    f := Compare(h, ch1 + sh1, spki1, ch2 + sh2, spki2);
    if f.Same? {
      Handshake.TranscriptUnique(ch1, sh1, ch2, sh2);
    }
  }

  /** From the wire: two captures whose ClientHellos are whole and whose REPORT_DATA agree hold the same hellos and the
      same server key, up to collisions. */
  lemma CaptureUnique(h: Hash, client1: Bytes, server1: Bytes, spki1: Bytes, client2: Bytes, server2: Bytes,
                      spki2: Bytes)
    returns (f: Finding)
    requires IsHash(h)
    requires var ch1 := Handshake.FirstMessage(Handshake.HandshakeBytes(client1), Handshake.CLIENT_HELLO);
             ch1.Some? && Handshake.IsMessage(ch1.value, Handshake.CLIENT_HELLO)
    requires var ch2 := Handshake.FirstMessage(Handshake.HandshakeBytes(client2), Handshake.CLIENT_HELLO);
             ch2.Some? && Handshake.IsMessage(ch2.value, Handshake.CLIENT_HELLO)
    requires var tr1, tr2 := Handshake.Transcript(client1, server1), Handshake.Transcript(client2, server2);
             tr1.Some? && tr2.Some? && ReportData(h, tr1.value, spki1) == ReportData(h, tr2.value, spki2)
    ensures || IsCollision(h, f)
            || (spki1 == spki2
                && Handshake.FirstMessage(Handshake.HandshakeBytes(client1), Handshake.CLIENT_HELLO)
                   == Handshake.FirstMessage(Handshake.HandshakeBytes(client2), Handshake.CLIENT_HELLO)
                && Handshake.FirstMessage(Handshake.HandshakeBytes(server1), Handshake.SERVER_HELLO)
                   == Handshake.FirstMessage(Handshake.HandshakeBytes(server2), Handshake.SERVER_HELLO))
  {
    hide ReportData, Handshake.HandshakeBytes, Handshake.FirstMessage, Handshake.IsMessage, IsCollision;
    var ch1 := Handshake.FirstMessage(Handshake.HandshakeBytes(client1), Handshake.CLIENT_HELLO).value;
    var ch2 := Handshake.FirstMessage(Handshake.HandshakeBytes(client2), Handshake.CLIENT_HELLO).value;
    var sh1 := Handshake.FirstMessage(Handshake.HandshakeBytes(server1), Handshake.SERVER_HELLO).value;
    var sh2 := Handshake.FirstMessage(Handshake.HandshakeBytes(server2), Handshake.SERVER_HELLO).value;
    f := BinderUnique(h, ch1, sh1, spki1, ch2, sh2, spki2);
  }
}
