/** The 1184-byte attestation report: built in place by a mock chip (early-attestation/poc_mock.py), read back and
    appraised by the client (early-attestation/verify.py). */
module SnpReport {
  import opened Octets
  import Handshake
  import opened Binder

  const REPORT_SIZE := 1184
  const REPORT_DATA := 0x50
  const REPORT_ID := 0x140
  const CHIP_ID := 0x1A0
  const SIGNED := 0x2A0
  const SIG_R := 0x2A0
  const SIG_S := 0x2A0 + 72

  /** A signature scheme over encoded keys; `nonce` stands for the randomness of ECDSA. */
  datatype Scheme = Scheme(
    pub: Bytes -> Bytes,
    sign: (Bytes, Bytes, nat) -> (nat, nat),
    verify: (Bytes, Bytes, nat, nat) -> bool)

  /** Signatures fit their 48-byte fields and verify. */
  ghost predicate IsScheme(c: Scheme) {
    forall key: Bytes, m, nonce: nat :: var (r, s) := c.sign(key, m, nonce);
      r < Pow256(48) && s < Pow256(48) && c.verify(c.pub(key), m, r, s)
  }

  /** A buffer after the slice assignment `rep[at:at + len(data)] = data`. */
  function Written(rep: Bytes, at: nat, data: Bytes): Bytes
    requires at + |data| <= |rep|
  {
    rep[..at] + data + rep[at + |data|..]
  }

  /** A write fills its own field and leaves every disjoint slice alone. */
  lemma WrittenSlices(rep: Bytes, at: nat, data: Bytes, i: nat, j: nat)
    requires at + |data| <= |rep| && i <= j <= |rep|
    ensures |Written(rep, at, data)| == |rep|
    ensures Written(rep, at, data)[at..at + |data|] == data
    ensures j <= at || at + |data| <= i ==> Written(rep, at, data)[i..j] == rep[i..j]
  {
  }

  method Put(rep: array<byte>, at: nat, data: Bytes)
    requires at + |data| <= rep.Length
    modifies rep
    ensures rep[..] == Written(old(rep[..]), at, data)
  {
    for i := 0 to |data|
      invariant forall k :: 0 <= k < rep.Length ==> rep[k] == if at <= k < at + i then data[k - at] else old(rep[k])
    {
      rep[at + i] := data[i];
    }
  }

  class MockChip {
    const scheme: Scheme
    const key: Bytes
    const chipId: Bytes

    constructor (scheme: Scheme, key: Bytes, chipId: Bytes)
      requires |chipId| == 64
      ensures this.scheme == scheme && this.key == key && this.chipId == chipId
    {
      this.scheme, this.key, this.chipId := scheme, key, chipId;
    }

    /** `None` where the source's assertion on the length of REPORT_DATA fails. */
    method SignReport(reportData: Bytes, reportId: Bytes, nonce: nat) returns (r: Option<Bytes>)
      requires |chipId| == 64 && |reportId| == 32
      requires IsScheme(scheme)
      ensures r.Some? <==> |reportData| == 64
      ensures r.Some? ==> IssuedBy(r.value, scheme, key, chipId, reportData, reportId, nonce)
    {
      if |reportData| != 64 {
        return None;
      }
      var rep := new byte[REPORT_SIZE](_ => 0);
      assert rep[..] == Zeros(REPORT_SIZE);
      Put(rep, REPORT_DATA, reportData);
      Put(rep, CHIP_ID, chipId);
      Put(rep, REPORT_ID, reportId);
      ghost var body := rep[..];
      var (sigR, sigS) := scheme.sign(key, rep[..SIGNED], nonce);
      Put(rep, SIG_R, LeBytes(sigR, 48));
      Put(rep, SIG_S, LeBytes(sigS, 48));
      BodyFields(reportData, chipId, reportId, body);
      SignatureFields(body, LeBytes(sigR, 48), LeBytes(sigS, 48), rep[..]);
      r := Some(rep[..]);
    }
  }

  /** The signed part after the three writes into a zeroed buffer. */
  lemma BodyFields(reportData: Bytes, chipId: Bytes, reportId: Bytes, body: Bytes)
    requires |reportData| == |chipId| == 64 && |reportId| == 32
    requires var b1 := Written(Zeros(REPORT_SIZE), REPORT_DATA, reportData);
             body == Written(Written(b1, CHIP_ID, chipId), REPORT_ID, reportId)
    ensures |body| == REPORT_SIZE
    ensures body[REPORT_DATA..0x90] == reportData
    ensures body[REPORT_ID..0x160] == reportId && body[CHIP_ID..0x1E0] == chipId
    ensures forall i :: 0 <= i < REPORT_SIZE && !Used(i) ==> body[i] == 0
  {
    var z := Zeros(REPORT_SIZE);
    var b1 := Written(z, REPORT_DATA, reportData);
    var b2 := Written(b1, CHIP_ID, chipId);
    WrittenSlices(z, REPORT_DATA, reportData, 0, 0);
    WrittenSlices(b1, CHIP_ID, chipId, REPORT_DATA, 0x90);
    WrittenSlices(b2, REPORT_ID, reportId, REPORT_DATA, 0x90);
    WrittenSlices(b2, REPORT_ID, reportId, CHIP_ID, 0x1E0);
    forall i | 0 <= i < REPORT_SIZE && !Used(i)
      ensures body[i] == 0
    {
      assert body[i] == b2[i] == b1[i] == z[i];
    }
  }

  /** Writing the signature leaves the signed part and every unused byte as they were. */
  lemma SignatureFields(body: Bytes, r: Bytes, s: Bytes, rep: Bytes)
    requires |body| == REPORT_SIZE && |r| == |s| == 48
    requires rep == Written(Written(body, SIG_R, r), SIG_S, s)
    ensures |rep| == REPORT_SIZE && rep[..SIGNED] == body[..SIGNED]
    ensures rep[SIG_R..SIG_R + 48] == r && rep[SIG_S..SIG_S + 48] == s
    ensures forall i :: 0 <= i < REPORT_SIZE && !Used(i) ==> rep[i] == body[i]
    ensures forall i, j :: 0 <= i <= j <= SIGNED ==> rep[i..j] == body[i..j]
  {
    var b1 := Written(body, SIG_R, r);
    WrittenSlices(body, SIG_R, r, 0, SIGNED);
    WrittenSlices(b1, SIG_S, s, 0, SIGNED);
    WrittenSlices(b1, SIG_S, s, SIG_R, SIG_R + 48);
  }

  /** What a chip puts into a report, field by field, and zeros everywhere else. */
  ghost predicate IssuedBy(rep: Bytes, c: Scheme, key: Bytes, chipId: Bytes,
                           reportData: Bytes, reportId: Bytes, nonce: nat) {
    && |rep| == 1184
    && rep[0x50..0x90] == reportData
    && rep[0x140..0x160] == reportId
    && rep[0x1A0..0x1E0] == chipId
    && var (r, s) := c.sign(key, rep[..0x2A0], nonce);
    && rep[0x2A0..0x2D0] == LeBytes(r, 48)
    && rep[0x2E8..0x318] == LeBytes(s, 48)
    && forall i :: 0 <= i < 1184 && !Used(i) ==> rep[i] == 0
  }

  /** The offsets that belong to a field the chip fills. */
  predicate Used(i: nat) {
    0x50 <= i < 0x90 || 0x140 <= i < 0x160 || 0x1A0 <= i < 0x1E0 || 0x2A0 <= i < 0x2D0 || 0x2E8 <= i < 0x318
  }

  // ---- The client ----

  datatype Parsed = Parsed(reportData: Bytes, measurement: Bytes, chipId: Bytes, reportId: Bytes)

  function Slice(b: Bytes, i: nat, j: nat): Bytes
    requires i <= j
  {
    Take(Drop(b, i), j - i)
  }

  function ParseReport(rep: Bytes): Parsed {
    Parsed(Slice(rep, 0x50, 0x90), Slice(rep, 0x90, 0xC0), Slice(rep, 0x1A0, 0x1E0), Slice(rep, 0x140, 0x160))
  }

  predicate SigOk(c: Scheme, rep: Bytes, chipKey: Bytes) {
    var r, s := Le(Slice(rep, 0x2A0, 0x2A0 + 48)), Le(Slice(rep, 0x2A0 + 72, 0x2A0 + 120));
    c.verify(chipKey, Take(rep, 0x2A0), r, s)
  }

  datatype Result = Result(binderMatch: bool, signatureOk: bool, accept: bool, chipId: Bytes, reportId: Bytes)

  /** `None` where the binder cannot be formed. */
  function Verify(c: Scheme, h: Hash, transcript: Bytes, spki: Bytes, report: Bytes, chipKey: Bytes): Option<Result>
    requires h.size > 0
  {
    var want :- ReportData(h, transcript, spki);
    var f := ParseReport(report);
    var binderOk := f.reportData == want;
    var signatureOk := SigOk(c, report, chipKey);
    Some(Result(binderOk, signatureOk, binderOk && signatureOk, f.chipId, f.reportId))
  }

  // ---- Construction and verification agree ----

  lemma SliceInside(b: Bytes, i: nat, j: nat)
    requires i <= j <= |b|
    ensures Slice(b, i, j) == b[i..j]
  {
  }

  /** A report its chip issued carries a signature that verifies: the signature fields lie outside the signed bytes
      and survive the little-endian round trip. */
  lemma IssuedSigned(rep: Bytes, c: Scheme, key: Bytes, chipId: Bytes, reportData: Bytes, reportId: Bytes, nonce: nat)
    requires IsScheme(c) && IssuedBy(rep, c, key, chipId, reportData, reportId, nonce)
    ensures SigOk(c, rep, c.pub(key))
  {
    var (r, s) := c.sign(key, rep[..SIGNED], nonce);
    SliceInside(rep, SIG_R, SIG_R + 48);
    SliceInside(rep, SIG_S, SIG_S + 48);
    LeOfBytes(r, 48);
    LeOfBytes(s, 48);
  }

  /** The client accepts a report exactly when its REPORT_DATA is the recomputed binder, and it names the chip that
      signed, whichever chip that is. */
  lemma VerifyAgrees(rep: Bytes, c: Scheme, key: Bytes, chipId: Bytes, reportData: Bytes, reportId: Bytes, nonce: nat,
                           h: Hash, transcript: Bytes, spki: Bytes)
    requires IsScheme(c) && IsHash(h)
    requires IssuedBy(rep, c, key, chipId, reportData, reportId, nonce)
    ensures Verify(c, h, transcript, spki, rep, c.pub(key)).Some?
    ensures var v := Verify(c, h, transcript, spki, rep, c.pub(key)).value;
            && (v.accept <==> Some(reportData) == ReportData(h, transcript, spki))
            && v.signatureOk && v.chipId == chipId && v.reportId == reportId
  {
    BinderIsTwoMacs(h, transcript, spki);
    IssuedSigned(rep, c, key, chipId, reportData, reportId, nonce);
    SliceInside(rep, 0x50, 0x90);
    SliceInside(rep, 0x1A0, 0x1E0);
    SliceInside(rep, 0x140, 0x160);
  }

  /** The fields read from a report, each at its offsets. */
  lemma ParsedFields(report: Bytes)
    requires |report| >= 0x1E0
    ensures ParseReport(report)
         == Parsed(report[0x50..0x90], report[0x90..0xC0], report[0x1A0..0x1E0], report[0x140..0x160])
  {
    SliceInside(report, 0x50, 0x90);
    SliceInside(report, 0x90, 0xC0);
    SliceInside(report, 0x1A0, 0x1E0);
    SliceInside(report, 0x140, 0x160);
  }

  /** What the client concludes from any report long enough for its fields: it accepts exactly when REPORT_DATA is the
      recomputed binder and the signature in the report verifies over its first 0x2A0 bytes under the chip key given. */
  lemma VerifyExact(c: Scheme, h: Hash, transcript: Bytes, spki: Bytes, report: Bytes, chipKey: Bytes)
    requires h.size > 0 && |report| >= 0x318
    ensures Verify(c, h, transcript, spki, report, chipKey).None? <==> ReportData(h, transcript, spki).None?
    ensures Verify(c, h, transcript, spki, report, chipKey).Some? ==>
              var v := Verify(c, h, transcript, spki, report, chipKey).value;
              && (v.binderMatch <==> Some(report[0x50..0x90]) == ReportData(h, transcript, spki))
              && (v.signatureOk <==>
                    c.verify(chipKey, report[..0x2A0], Le(report[0x2A0..0x2D0]), Le(report[0x2E8..0x318])))
              && (v.accept <==>
                    && Some(report[0x50..0x90]) == ReportData(h, transcript, spki)
                    && c.verify(chipKey, report[..0x2A0], Le(report[0x2A0..0x2D0]), Le(report[0x2E8..0x318])))
              && v.chipId == report[0x1A0..0x1E0] && v.reportId == report[0x140..0x160]
  {
    SliceInside(report, 0x50, 0x90);
    SliceInside(report, 0x1A0, 0x1E0);
    SliceInside(report, 0x140, 0x160);
    SliceInside(report, 0x2A0, 0x2D0);
    SliceInside(report, 0x2E8, 0x318);
    hide ReportData, Slice, Le;
  }

  /** An issued report whose signature is overwritten by one that does not verify is refused, even where its binder is
      the right one. */
  lemma ForgedSignatureRefused(rep: Bytes, c: Scheme, key: Bytes, chipId: Bytes, reportData: Bytes, reportId: Bytes,
                               nonce: nat, r: Bytes, s: Bytes, h: Hash, transcript: Bytes, spki: Bytes)
    requires IsScheme(c) && IsHash(h) && |r| == |s| == 48
    requires IssuedBy(rep, c, key, chipId, reportData, reportId, nonce)
    requires !c.verify(c.pub(key), rep[..0x2A0], Le(r), Le(s))
    ensures var forged := Written(Written(rep, 0x2A0, r), 0x2E8, s);
            var v := Verify(c, h, transcript, spki, forged, c.pub(key));
            && v.Some? && !v.value.signatureOk && !v.value.accept
            && (v.value.binderMatch <==> Some(reportData) == ReportData(h, transcript, spki))
  {
    var forged := Written(Written(rep, 0x2A0, r), 0x2E8, s);
    SignatureFields(rep, r, s, forged);
    BinderIsTwoMacs(h, transcript, spki);
    hide Written, IssuedBy, ReportData, Verify;
    assert forged[0x50..0x90] == rep[0x50..0x90];
    VerifyExact(c, h, transcript, spki, forged, c.pub(key));
  }

  /** A report bound to one handshake and accepted in another: the handshakes and keys agree, or a collision is found.
      Nothing ties the report to one machine: the chip key is the caller's. */
  lemma RelayedReport(rep: Bytes, c: Scheme, key: Bytes, chipId: Bytes, reportId: Bytes, nonce: nat, h: Hash,
                      ch1: Bytes, sh1: Bytes, spki1: Bytes, ch2: Bytes, sh2: Bytes, spki2: Bytes)
    returns (f: Finding)
    requires IsScheme(c) && IsHash(h)
    requires Handshake.IsMessage(ch1, Handshake.CLIENT_HELLO) && Handshake.IsMessage(ch2, Handshake.CLIENT_HELLO)
    requires ReportData(h, ch1 + sh1, spki1).Some?
    requires IssuedBy(rep, c, key, chipId, ReportData(h, ch1 + sh1, spki1).value, reportId, nonce)
    requires Verify(c, h, ch2 + sh2, spki2, rep, c.pub(key)).Some?
    requires Verify(c, h, ch2 + sh2, spki2, rep, c.pub(key)).value.accept
    ensures (ch1, sh1, spki1) == (ch2, sh2, spki2) || IsCollision(h, f)
  {
    VerifyAgrees(rep, c, key, chipId, ReportData(h, ch1 + sh1, spki1).value, reportId, nonce, h, ch2 + sh2, spki2);
    f := BinderUnique(h, ch1, sh1, spki1, ch2, sh2, spki2);
  }
}
