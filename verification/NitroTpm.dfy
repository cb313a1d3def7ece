/** The TPM structure walkers of aws-nitro/nitrotpm_verify.py (TPM2B_PUBLIC and TPMS_ATTEST), the shorter walk of
    azure-cvm/azure_verify.py, and encoders for what they read. */
module NitroTpm {
  import opened Octets

  const ALG_RSA := 0x0001
  const ALG_NULL := 0x0010

  /** A big-endian field of `k` bytes at the front, and what follows; `None` where `struct.unpack_from` raises. */
  function Field(s: Bytes, k: nat): Option<(nat, Bytes)> {
    if |s| < k then None else Some((Be(s[..k]), s[k..]))
  }

  /** `struct.unpack_from` of one field at cursor `i`. */
  function Unpack(b: Bytes, i: nat, k: nat): (r: Option<nat>)
    ensures r.Some? <==> i + k <= |b|
  {
    if i + k <= |b| then Some(Be(b[i..i + k])) else None
  }

  /** Reading at a cursor is reading at the front of what the cursor leaves. */
  lemma FieldAt(b: Bytes, i: nat, k: nat)
    requires k > 0
    ensures var at := Unpack(b, i, k);
            Field(Drop(b, i), k) == if at.None? then None else Some((at.value, Drop(b, i + k)))
  {
    if i + k <= |b| {
      assert Drop(b, i)[..k] == b[i..i + k];
      assert Drop(b, i)[k..] == b[i + k..];
    }
  }

  // ---- TPM2B_PUBLIC ----

  datatype RsaKey = RsaKey(modulus: nat, exponent: nat)

  /** The parameters that follow the policy. */
  function RsaParameters(s: Bytes): Option<RsaKey> {
    var (sym, s) :- Field(s, 2);
    var s := if sym != ALG_NULL then Drop(s, 4) else s;
    var (scheme, s) :- Field(s, 2);
    var s := if scheme != ALG_NULL then Drop(s, 2) else s;
    RsaUnique(s)
  }

  function RsaUnique(s: Bytes): Option<RsaKey> {
    var (keyBits, s) :- Field(s, 2);
    var (exp, s) :- Field(s, 4);
    var (n, s) :- Field(s, 2);
    Some(RsaKey(Be(Take(s, n)), if exp == 0 then 65537 else exp))
  }

  function PublicRsa(b: Bytes): Option<RsaKey> {
    var (typ, s) :- Field(Drop(b, 2), 2);
    var (nameAlg, s) :- Field(s, 2);
    var (pol, s) :- Field(Drop(s, 4), 2);
    if typ != ALG_RSA then None else RsaParameters(Drop(s, pol))
  }

  method Tpm2bPublicRsa(b: Bytes) returns (r: Option<RsaKey>)
    ensures r == PublicRsa(b)
  {
    hide Field, Unpack, Be, Drop, RsaParameters;
    var i := 2;
    FieldAt(b, 2, 2);
    FieldAt(b, 4, 2);
    var typ, nameAlg := Unpack(b, i, 2), Unpack(b, i + 2, 2);
    if typ.None? || nameAlg.None? {
      return None;
    }
    i := i + 4;
    i := i + 4;
    DropDrop(b, 6, 4);
    FieldAt(b, i, 2);
    var pol := Unpack(b, i, 2);
    if pol.None? {
      return None;
    }
    i := i + 2 + pol.value;
    DropDrop(b, 12, pol.value);
    if typ.value != ALG_RSA {
      return None;
    }
    r := ReadParameters(b, i);
  }

  /** The second half of the walk, from the symmetric algorithm on. */
  method ReadParameters(b: Bytes, start: nat) returns (r: Option<RsaKey>)
    ensures r == RsaParameters(Drop(b, start))
  {
    hide Field, Unpack, Be, Drop, Take;
    var i := start;
    FieldAt(b, i, 2);
    var sym := Unpack(b, i, 2);
    if sym.None? {
      return None;
    }
    i := i + 2;
    if sym.value != ALG_NULL {
      DropDrop(b, i, 4);
      i := i + 2 + 2;
    }
    FieldAt(b, i, 2);
    var scheme := Unpack(b, i, 2);
    if scheme.None? {
      return None;
    }
    i := i + 2;
    if scheme.value != ALG_NULL {
      DropDrop(b, i, 2);
      i := i + 2;
    }
    FieldAt(b, i, 2);
    FieldAt(b, i + 2, 4);
    FieldAt(b, i + 6, 2);
    var keyBits, exp, n := Unpack(b, i, 2), Unpack(b, i + 2, 4), Unpack(b, i + 6, 2);
    if n.None? {
      return None;
    }
    i := i + 8;
    return Some(RsaKey(Be(Take(Drop(b, i), n.value)), if exp.value == 0 then 65537 else exp.value));
  }

  datatype Symmetric = NoSymmetric | Symmetric(alg: nat, keyBits: nat, mode: nat)
  datatype Scheme = NoScheme | Scheme(alg: nat, hash: nat)

  /** An RSA TPM2B_PUBLIC; the outer size and the attributes are not looked at. */
  datatype Public = Public(size: Bytes, nameAlg: nat, attributes: Bytes, policy: Bytes, symmetric: Symmetric,
                           scheme: Scheme, keyBits: nat, exponent: nat, modulus: Bytes)

  predicate IsPublic(p: Public) {
    && |p.size| == 2 && |p.attributes| == 4
    && |p.policy| < 0x1_0000 && |p.modulus| < 0x1_0000
    && p.nameAlg < 0x1_0000 && p.keyBits < 0x1_0000 && p.exponent < 0x1_0000_0000
    && (p.symmetric.Symmetric? ==>
          && p.symmetric.alg < 0x1_0000 && p.symmetric.alg != 0x0010
          && p.symmetric.keyBits < 0x1_0000 && p.symmetric.mode < 0x1_0000)
    && (p.scheme.Scheme? ==> p.scheme.alg < 0x1_0000 && p.scheme.alg != 0x0010 && p.scheme.hash < 0x1_0000)
  }

  function SymmetricBytes(s: Symmetric): Bytes {
    match s
    case NoSymmetric => [0x00, 0x10]
    case Symmetric(alg, keyBits, mode) => BeBytes(alg, 2) + (BeBytes(keyBits, 2) + BeBytes(mode, 2))
  }

  function SchemeBytes(s: Scheme): Bytes {
    match s
    case NoScheme => [0x00, 0x10]
    case Scheme(alg, hash) => BeBytes(alg, 2) + BeBytes(hash, 2)
  }

  /** The numbers in front of the modulus. */
  function UniqueBytes(p: Public): Bytes {
    BeBytes(p.keyBits, 2) + (BeBytes(p.exponent, 4) + BeBytes(|p.modulus|, 2))
  }

  /** Everything in front of the modulus. */
  function PublicHeader(p: Public): Bytes {
    p.size + ([0x00, 0x01] + (BeBytes(p.nameAlg, 2) + (p.attributes + (BeBytes(|p.policy|, 2) + (p.policy +
      (SymmetricBytes(p.symmetric) + (SchemeBytes(p.scheme) + UniqueBytes(p))))))))
  }

  function PublicBytes(p: Public): Bytes {
    PublicHeader(p) + p.modulus
  }

  /** The key with this modulus and the exponent of `p`, 0 standing for 65537. */
  function KeyOf(p: Public, modulus: Bytes): RsaKey {
    RsaKey(Be(modulus), if p.exponent == 0 then 65537 else p.exponent)
  }

  lemma FieldRead(n: nat, k: nat, rest: Bytes)
    requires n < Pow256(k)
    ensures Field(BeBytes(n, k) + rest, k) == Some((n, rest))
  {
    BeOfBytes(n, k);
    TakeAppend(BeBytes(n, k), rest);
  }

  /** An algorithm identifier is two bytes, the more significant first. */
  lemma AlgRead(alg: nat, rest: Bytes)
    requires alg < 0x1_0000
    ensures Field([alg / 256, alg % 256] + rest, 2) == Some((alg, rest))
  {
    AlgBytes(alg);
    FieldRead(alg, 2, rest);
  }

  lemma AlgBytes(alg: nat)
    requires alg < 0x1_0000
    ensures alg < Pow256(2) && BeBytes(alg, 2) == [alg / 256, alg % 256]
  {
    Powers();
    assert BeBytes(alg / 256, 1) == [alg / 256];
  }

  lemma SymmetricSkipped(sym: Symmetric, rest: Bytes)
    requires sym.Symmetric? ==> sym.alg < 0x1_0000 && sym.alg != 0x0010
    ensures var f := Field(SymmetricBytes(sym) + rest, 2);
            f.Some? && (if f.value.0 != ALG_NULL then Drop(f.value.1, 4) else f.value.1) == rest
  {
    Powers();
    match sym
    case NoSymmetric => AlgRead(ALG_NULL, rest);
    case Symmetric(alg, keyBits, mode) =>
      var details := BeBytes(keyBits, 2) + BeBytes(mode, 2);
      Assoc(BeBytes(alg, 2), details, rest);
      FieldRead(alg, 2, details + rest);
      TakeAppend(details, rest);
  }

  lemma SchemeSkipped(scheme: Scheme, rest: Bytes)
    requires scheme.Scheme? ==> scheme.alg < 0x1_0000 && scheme.alg != 0x0010
    ensures var f := Field(SchemeBytes(scheme) + rest, 2);
            f.Some? && (if f.value.0 != ALG_NULL then Drop(f.value.1, 2) else f.value.1) == rest
  {
    Powers();
    match scheme
    case NoScheme => AlgRead(ALG_NULL, rest);
    case Scheme(alg, hash) =>
      Assoc(BeBytes(alg, 2), BeBytes(hash, 2), rest);
      FieldRead(alg, 2, BeBytes(hash, 2) + rest);
      TakeAppend(BeBytes(hash, 2), rest);
  }

  lemma UniqueRead(p: Public, body: Bytes)
    requires IsPublic(p)
    ensures RsaUnique(UniqueBytes(p) + body) == Some(KeyOf(p, Take(body, |p.modulus|)))
  {
    Powers();
    var s3 := BeBytes(|p.modulus|, 2);
    var s2 := BeBytes(p.exponent, 4) + s3;
    Assoc(BeBytes(p.keyBits, 2), s2, body);
    Assoc(BeBytes(p.exponent, 4), s3, body);
    FieldRead(p.keyBits, 2, s2 + body);
    FieldRead(p.exponent, 4, s3 + body);
    FieldRead(|p.modulus|, 2, body);
  }

  /** Whatever stands behind the header, the modulus is read from it: as many bytes as announced, or all there are. */
  lemma PublicRead(p: Public, body: Bytes)
    requires IsPublic(p)
    ensures PublicRsa(PublicHeader(p) + body) == Some(KeyOf(p, Take(body, |p.modulus|)))
  {
    Powers();
    var s7 := SchemeBytes(p.scheme) + UniqueBytes(p);
    var s6 := SymmetricBytes(p.symmetric) + s7;
    ParametersRead(p, body);
    var s5 := p.policy + s6;
    var s4 := BeBytes(|p.policy|, 2) + s5;
    var s3 := p.attributes + s4;
    var s2 := BeBytes(p.nameAlg, 2) + s3;
    var s1 := [0x00, 0x01] + s2;
    HeaderText(p.size, [0x00, 0x01], BeBytes(p.nameAlg, 2), p.attributes, BeBytes(|p.policy|, 2), p.policy, s6,
               body);
    TakeAppend(p.size, s1 + body);
    AlgRead(ALG_RSA, s2 + body);
    FieldRead(p.nameAlg, 2, s3 + body);
    TakeAppend(p.attributes, s4 + body);
    FieldRead(|p.policy|, 2, s5 + body);
    TakeAppend(p.policy, s6 + body);
  }

  /** Every RSA public area gives back its modulus and exponent, whatever its policy, algorithms and trailing bytes. */
  lemma PublicRoundTrip(p: Public, tail: Bytes)
    requires IsPublic(p)
    ensures PublicRsa(PublicBytes(p) + tail) == Some(KeyOf(p, p.modulus))
  {
    Assoc(PublicHeader(p), p.modulus, tail);
    PublicRead(p, p.modulus + tail);
    TakeAppend(p.modulus, tail);
  }

  lemma HeaderText(a: Bytes, b: Bytes, c: Bytes, d: Bytes, e: Bytes, f: Bytes, g: Bytes, tail: Bytes)
    ensures (a + (b + (c + (d + (e + (f + g)))))) + tail == a + ((b + (c + (d + (e + (f + g))))) + tail)
    ensures (b + (c + (d + (e + (f + g))))) + tail == b + ((c + (d + (e + (f + g)))) + tail)
    ensures (c + (d + (e + (f + g)))) + tail == c + ((d + (e + (f + g))) + tail)
    ensures (d + (e + (f + g))) + tail == d + ((e + (f + g)) + tail)
    ensures (e + (f + g)) + tail == e + ((f + g) + tail)
    ensures (f + g) + tail == f + (g + tail)
  {
    Assoc(f, g, tail);
    Assoc(e, f + g, tail);
    Assoc(d, e + (f + g), tail);
    Assoc(c, d + (e + (f + g)), tail);
    Assoc(b, c + (d + (e + (f + g))), tail);
    Assoc(a, b + (c + (d + (e + (f + g)))), tail);
  }

  lemma ParametersRead(p: Public, body: Bytes)
    requires IsPublic(p)
    ensures RsaParameters(SymmetricBytes(p.symmetric) + (SchemeBytes(p.scheme) + UniqueBytes(p)) + body)
         == Some(KeyOf(p, Take(body, |p.modulus|)))
  {
    var s7 := SchemeBytes(p.scheme) + UniqueBytes(p);
    Assoc(SymmetricBytes(p.symmetric), s7, body);
    Assoc(SchemeBytes(p.scheme), UniqueBytes(p), body);
    SymmetricSkipped(p.symmetric, s7 + body);
    SchemeSkipped(p.scheme, UniqueBytes(p) + body);
    UniqueRead(p, body);
  }

  // ---- Buffers that end too early ----

  /** A buffer cut inside `BeBytes(n, k) + rest`: the field is missing, or it is whole and the cut is later. */
  lemma FieldCut(n: nat, k: nat, rest: Bytes, s: Bytes)
    requires n < Pow256(k) && s < BeBytes(n, k) + rest
    ensures var f := Field(s, k);
            f.None? || (f.value.0 == n && f.value.1 < rest)
  {
    var whole := BeBytes(n, k) + rest;
    if |s| >= k {
      BeOfBytes(n, k);
      assert s[..k] == whole[..k] == BeBytes(n, k);
      assert whole[k..] == rest;
      assert s == whole[..|s|] && s[k..] == rest[..|s| - k];
    }
  }

  lemma AlgCut(alg: nat, rest: Bytes, s: Bytes)
    requires alg < 0x1_0000 && s < [alg / 256, alg % 256] + rest
    ensures var f := Field(s, 2);
            f.None? || (f.value.0 == alg && f.value.1 < rest)
  {
    AlgBytes(alg);
    FieldCut(alg, 2, rest, s);
  }

  lemma SkipCut(x: Bytes, rest: Bytes, s: Bytes)
    requires s < x + rest && rest != []
    ensures Drop(s, |x|) < rest
  {
    var whole := x + rest;
    if |s| >= |x| {
      assert whole[|x|..] == rest;
      assert s == whole[..|s|] && s[|x|..] == rest[..|s| - |x|];
    }
  }

  lemma SymmetricCut(sym: Symmetric, rest: Bytes, s: Bytes)
    requires sym.Symmetric? ==> sym.alg < 0x1_0000 && sym.alg != 0x0010
    requires s < SymmetricBytes(sym) + rest && rest != []
    ensures var f := Field(s, 2);
            f.None? || (if f.value.0 != ALG_NULL then Drop(f.value.1, 4) else f.value.1) < rest
  {
    Powers();
    match sym
    case NoSymmetric => AlgCut(ALG_NULL, rest, s);
    case Symmetric(alg, keyBits, mode) =>
      var details := BeBytes(keyBits, 2) + BeBytes(mode, 2);
      Assoc(BeBytes(alg, 2), details, rest);
      FieldCut(alg, 2, details + rest, s);
      if Field(s, 2).Some? {
        SkipCut(details, rest, Field(s, 2).value.1);
      }
  }

  lemma SchemeCut(scheme: Scheme, rest: Bytes, s: Bytes)
    requires scheme.Scheme? ==> scheme.alg < 0x1_0000 && scheme.alg != 0x0010
    requires s < SchemeBytes(scheme) + rest && rest != []
    ensures var f := Field(s, 2);
            f.None? || (if f.value.0 != ALG_NULL then Drop(f.value.1, 2) else f.value.1) < rest
  {
    Powers();
    match scheme
    case NoScheme => AlgCut(ALG_NULL, rest, s);
    case Scheme(alg, hash) =>
      Assoc(BeBytes(alg, 2), BeBytes(hash, 2), rest);
      FieldCut(alg, 2, BeBytes(hash, 2) + rest, s);
      if Field(s, 2).Some? {
        SkipCut(BeBytes(hash, 2), rest, Field(s, 2).value.1);
      }
  }

  lemma UniqueCut(p: Public, s: Bytes)
    requires IsPublic(p) && s < UniqueBytes(p)
    ensures RsaUnique(s).None?
  {
    assert |UniqueBytes(p)| == 8;
  }

  lemma ParametersCut(p: Public, s: Bytes)
    requires IsPublic(p)
    requires s < SymmetricBytes(p.symmetric) + (SchemeBytes(p.scheme) + UniqueBytes(p))
    ensures RsaParameters(s).None?
  {
    hide Field, Drop, SymmetricBytes, SchemeBytes, RsaUnique, BeBytes;
    SymmetricCut(p.symmetric, SchemeBytes(p.scheme) + UniqueBytes(p), s);
    var f := Field(s, 2);
    if f.Some? {
      var t := if f.value.0 != ALG_NULL then Drop(f.value.1, 4) else f.value.1;
      SchemeCut(p.scheme, UniqueBytes(p), t);
      var g := Field(t, 2);
      if g.Some? {
        UniqueCut(p, if g.value.0 != ALG_NULL then Drop(g.value.1, 2) else g.value.1);
      }
    }
  }

  lemma PublicHeaderCut(p: Public, s: Bytes)
    requires IsPublic(p) && s < PublicHeader(p)
    ensures PublicRsa(s).None?
  {
    Powers();
    hide Field, Drop, SymmetricBytes, SchemeBytes, UniqueBytes, RsaParameters, Pow256;
    var s6 := SymmetricBytes(p.symmetric) + (SchemeBytes(p.scheme) + UniqueBytes(p));
    var s5 := p.policy + s6;
    var s4 := BeBytes(|p.policy|, 2) + s5;
    var s3 := p.attributes + s4;
    var s2 := BeBytes(p.nameAlg, 2) + s3;
    SkipCut(p.size, [0x00, 0x01] + s2, s);
    AlgCut(ALG_RSA, s2, Drop(s, 2));
    var typ := Field(Drop(s, 2), 2);
    if typ.Some? {
      FieldCut(p.nameAlg, 2, s3, typ.value.1);
      var nameAlg := Field(typ.value.1, 2);
      if nameAlg.Some? {
        SkipCut(p.attributes, s4, nameAlg.value.1);
        var t := Drop(nameAlg.value.1, 4);
        FieldCut(|p.policy|, 2, s5, t);
        if Field(t, 2).Some? {
          PolicyCut(p, Field(t, 2).value.1);
        }
      }
    }
  }

  lemma PolicyCut(p: Public, s: Bytes)
    requires IsPublic(p)
    requires s < p.policy + (SymmetricBytes(p.symmetric) + (SchemeBytes(p.scheme) + UniqueBytes(p)))
    ensures RsaParameters(Drop(s, |p.policy|)).None?
  {
    assert |UniqueBytes(p)| == 8;
    hide Drop, SymmetricBytes, SchemeBytes, UniqueBytes, RsaParameters;
    SkipCut(p.policy, SymmetricBytes(p.symmetric) + (SchemeBytes(p.scheme) + UniqueBytes(p)), s);
    ParametersCut(p, Drop(s, |p.policy|));
  }

  /** A public area that ends `missing` bytes early raises exactly when more than the modulus is missing. Otherwise
      what is left of the modulus is returned as if it were all of it. */
  lemma CutPublic(p: Public, missing: nat)
    requires IsPublic(p) && missing <= |PublicBytes(p)|
    ensures var r := PublicRsa(PublicBytes(p)[..|PublicBytes(p)| - missing]);
            if missing <= |p.modulus| then r == Some(KeyOf(p, p.modulus[..|p.modulus| - missing])) else r.None?
  {
    hide PublicHeader, PublicRsa, IsPublic, KeyOf;
    var header := PublicHeader(p);
    var s := PublicBytes(p)[..|PublicBytes(p)| - missing];
    if missing <= |p.modulus| {
      var body := p.modulus[..|p.modulus| - missing];
      assert s == header + body;
      PublicRead(p, body);
      assert Take(body, |p.modulus|) == body;
    } else {
      assert s == header[..|s|];
      PublicHeaderCut(p, s);
    }
  }

  // ---- TPMS_ATTEST of a quote ----

  datatype Selection = Selection(alg: nat, bitmap: Bytes)
  datatype Quote = Quote(extra: Bytes, selections: seq<Selection>, digest: Bytes)

  /** clockInfo (8 + 4 + 4 + 1) and firmwareVersion (8). */
  const CLOCK_AND_FIRMWARE := 25

  function OneSelection(s: Bytes): Option<(Selection, Bytes)> {
    var (alg, s) :- Field(s, 2);
    var (size, s) :- Field(s, 1);
    Some((Selection(alg, Take(s, size)), Drop(s, size)))
  }

  function Selections(s: Bytes, count: nat): Option<(seq<Selection>, Bytes)>
    decreases count
  {
    if count == 0 then Some(([], s)) else
      var (one, s) :- OneSelection(s);
      var (more, rest) :- Selections(s, count - 1);
      Some(([one] + more, rest))
  }

  function AfterExtra(s: Bytes, extra: Bytes): Option<Quote> {
    var (count, s) :- Field(s, 4);
    var (selections, s) :- Selections(s, count);
    var (dn, s) :- Field(s, 2);
    Some(Quote(extra, selections, Take(s, dn)))
  }

  function ReadQuote(msg: Bytes): Option<Quote> {
    var (qn, s) :- Field(Drop(msg, 6), 2);
    var (en, s) :- Field(Drop(s, qn), 2);
    AfterExtra(Drop(s, en + CLOCK_AND_FIRMWARE), Take(s, en))
  }

  method QuoteWalk(msg: Bytes) returns (r: Option<Quote>)
    ensures r == ReadQuote(msg)
  {
    hide Field, Unpack, Be, Drop, Take, AfterExtra;
    var i := 6;
    FieldAt(msg, i, 2);
    var qn := Unpack(msg, i, 2);
    if qn.None? {
      return None;
    }
    DropDrop(msg, i + 2, qn.value);
    i := i + 2 + qn.value;
    FieldAt(msg, i, 2);
    var en := Unpack(msg, i, 2);
    if en.None? {
      return None;
    }
    i := i + 2;
    var extra := Take(Drop(msg, i), en.value);
    DropDrop(msg, i, en.value + CLOCK_AND_FIRMWARE);
    i := i + en.value + 8 + 4 + 4 + 1 + 8;
    r := ReadSelections(msg, i, extra);
  }

  /** From the selection count on: the PCR-selection loop and the digest behind it. */
  method ReadSelections(msg: Bytes, start: nat, extra: Bytes) returns (r: Option<Quote>)
    ensures r == AfterExtra(Drop(msg, start), extra)
  {
    hide Field, Unpack, Be, Drop, Take, Selections;
    var i := start;
    FieldAt(msg, i, 4);
    var cnt := Unpack(msg, i, 4);
    if cnt.None? {
      return None;
    }
    i := i + 4;
    var sel := SelectionLoop(msg, i, cnt.value);
    if sel.None? {
      return None;
    }
    i := sel.value.1;
    FieldAt(msg, i, 2);
    var dn := Unpack(msg, i, 2);
    if dn.None? {
      return None;
    }
    i := i + 2;
    return Some(Quote(extra, sel.value.0, Take(Drop(msg, i), dn.value)));
  }

  method SelectionLoop(msg: Bytes, start: nat, count: nat) returns (r: Option<(seq<Selection>, nat)>)
    ensures Selections(Drop(msg, start), count) == if r.None? then None else Some((r.value.0, Drop(msg, r.value.1)))
  {
    hide Field, Unpack, Be, Drop, Take, OneSelection;
    var i := start;
    ghost var whole := Selections(Drop(msg, i), count);
    var sel: seq<Selection> := [];
    assert whole.Some? ==> sel + whole.value.0 == whole.value.0;
    for k := 0 to count
      invariant SelectionsFrom(whole, sel, Selections(Drop(msg, i), count - k))
    {
      SelectionRead(whole, sel, Drop(msg, i), count - k);
      SelectionAt(msg, i);
      var alg, sz := Unpack(msg, i, 2), Unpack(msg, i + 2, 1);
      if sz.None? {
        return None;
      }
      i := i + 3;
      sel := sel + [Selection(alg.value, Take(Drop(msg, i), sz.value))];
      i := i + sz.value;
    }
    assert sel + [] == sel;
    return Some((sel, i));
  }

  /** The loop invariant: the selections in `sel`, then those still to come, are those of the whole list. */
  ghost predicate SelectionsFrom(whole: Option<(seq<Selection>, Bytes)>, sel: seq<Selection>,
                                 more: Option<(seq<Selection>, Bytes)>) {
    if more.None? then whole.None? else whole == Some((sel + more.value.0, more.value.1))
  }

  lemma SelectionRead(whole: Option<(seq<Selection>, Bytes)>, sel: seq<Selection>, s: Bytes, count: nat)
    requires count > 0 && SelectionsFrom(whole, sel, Selections(s, count))
    ensures OneSelection(s).None? ==> whole.None?
    ensures OneSelection(s).Some? ==>
              SelectionsFrom(whole, sel + [OneSelection(s).value.0], Selections(OneSelection(s).value.1, count - 1))
  {
    if OneSelection(s).Some? {
      var (one, rest) := OneSelection(s).value;
      var more := Selections(rest, count - 1);
      if more.Some? {
        Assoc(sel, [one], more.value.0);
      }
    }
  }

  lemma SelectionAt(msg: Bytes, i: nat)
    ensures var alg, sz := Unpack(msg, i, 2), Unpack(msg, i + 2, 1);
            OneSelection(Drop(msg, i)) == if sz.None? then None else
              Some((Selection(alg.value, Take(Drop(msg, i + 3), sz.value)), Drop(msg, i + 3 + sz.value)))
  {
    FieldAt(msg, i, 2);
    FieldAt(msg, i + 2, 1);
    var sz := Unpack(msg, i + 2, 1);
    if sz.Some? {
      DropDrop(msg, i + 3, sz.value);
    }
  }

  /** The walk of azure_verify.py, which stops at extraData and does look at the magic. */
  function AzureExtra(msg: Bytes): Option<Bytes> {
    if Take(msg, 4) != MAGIC then None else
      var (n, s) :- Field(Drop(msg, 6), 2);
      var (n, s) :- Field(Drop(s, n), 2);
      Some(Take(s, n))
  }

  /** TPM_GENERATED_VALUE. */
  const MAGIC: Bytes := [0xff, 0x54, 0x43, 0x47]

  /** On every buffer the two walks agree about extraData, as far as both get. */
  lemma WalksAgree(msg: Bytes)
    requires ReadQuote(msg).Some?
    ensures AzureExtra(msg)
         == if Take(msg, 4) == [0xff, 0x54, 0x43, 0x47] then Some(ReadQuote(msg).value.extra) else None
  {
  }

  datatype Attest = Attest(kind: Bytes, signer: Bytes, clockAndFirmware: Bytes, quote: Quote)

  predicate IsAttest(a: Attest) {
    && |a.kind| == 2 && |a.clockAndFirmware| == 25
    && |a.signer| < 0x1_0000 && |a.quote.extra| < 0x1_0000 && |a.quote.digest| < 0x1_0000
    && |a.quote.selections| < 0x1_0000_0000
    && AllEncodable(a.quote.selections)
  }

  predicate AllEncodable(sel: seq<Selection>) {
    forall i :: 0 <= i < |sel| ==> sel[i].alg < 0x1_0000 && |sel[i].bitmap| < 0x100
  }

  function SelectionBytes(sel: seq<Selection>): Bytes {
    if |sel| == 0 then [] else
      BeBytes(sel[0].alg, 2) + (BeBytes(|sel[0].bitmap|, 1) + (sel[0].bitmap + SelectionBytes(sel[1..])))
  }

  /** The selections and the length of the digest. */
  function AttestedBytes(q: Quote): Bytes {
    BeBytes(|q.selections|, 4) + (SelectionBytes(q.selections) + BeBytes(|q.digest|, 2))
  }

  /** Everything in front of the digest. */
  function AttestHeader(a: Attest): Bytes {
    ([0xff, 0x54, 0x43, 0x47] + a.kind)
    + (BeBytes(|a.signer|, 2) + (a.signer + (BeBytes(|a.quote.extra|, 2) + (a.quote.extra +
      (a.clockAndFirmware + AttestedBytes(a.quote))))))
  }

  function AttestBytes(a: Attest): Bytes {
    AttestHeader(a) + a.quote.digest
  }

  lemma {:induction false} SelectionsRoundTrip(sel: seq<Selection>, rest: Bytes)
    requires AllEncodable(sel)
    ensures Selections(SelectionBytes(sel) + rest, |sel|) == Some((sel, rest))
  {
    if sel == [] {
      assert SelectionBytes(sel) + rest == rest;
    } else {
      Powers();
      var Selection(alg, bitmap) := sel[0];
      var more := SelectionBytes(sel[1..]);
      SelectionsRoundTrip(sel[1..], rest);
      Assoc(BeBytes(alg, 2), BeBytes(|bitmap|, 1) + (bitmap + more), rest);
      Assoc(BeBytes(|bitmap|, 1), bitmap + more, rest);
      Assoc(bitmap, more, rest);
      FieldRead(alg, 2, BeBytes(|bitmap|, 1) + (bitmap + (more + rest)));
      FieldRead(|bitmap|, 1, bitmap + (more + rest));
      TakeAppend(bitmap, more + rest);
      assert [sel[0]] + sel[1..] == sel;
    }
  }

  lemma AttestedRead(q: Quote, body: Bytes)
    requires |q.selections| < 0x1_0000_0000 && |q.digest| < 0x1_0000 && AllEncodable(q.selections)
    ensures AfterExtra(AttestedBytes(q) + body, q.extra) == Some(q.(digest := Take(body, |q.digest|)))
  {
    Powers();
    var d := BeBytes(|q.digest|, 2);
    Assoc(BeBytes(|q.selections|, 4), SelectionBytes(q.selections) + d, body);
    Assoc(SelectionBytes(q.selections), d, body);
    FieldRead(|q.selections|, 4, SelectionBytes(q.selections) + (d + body));
    SelectionsRoundTrip(q.selections, d + body);
    FieldRead(|q.digest|, 2, body);
  }

  /** Whatever stands behind the header, the digest is read from it: as many bytes as announced, or all there are. */
  lemma QuoteRead(a: Attest, body: Bytes)
    requires IsAttest(a)
    ensures ReadQuote(AttestHeader(a) + body) == Some(a.quote.(digest := Take(body, |a.quote.digest|)))
    ensures Take(AttestHeader(a) + body, 4) == MAGIC
  {
    Powers();
    var q := a.quote;
    var s5 := a.clockAndFirmware + AttestedBytes(q);
    var s4 := q.extra + s5;
    var s3 := BeBytes(|q.extra|, 2) + s4;
    var s2 := a.signer + s3;
    var s1 := BeBytes(|a.signer|, 2) + s2;
    HeaderText(MAGIC + a.kind, BeBytes(|a.signer|, 2), a.signer, BeBytes(|q.extra|, 2), q.extra, a.clockAndFirmware,
               AttestedBytes(q), body);
    TakeAppend(MAGIC + a.kind, s1 + body);
    FieldRead(|a.signer|, 2, s2 + body);
    TakeAppend(a.signer, s3 + body);
    FieldRead(|q.extra|, 2, s4 + body);
    TakeAppend(q.extra, s5 + body);
    DropDrop(q.extra + (s5 + body), |q.extra|, CLOCK_AND_FIRMWARE);
    TakeAppend(a.clockAndFirmware, AttestedBytes(q) + body);
    AttestedRead(q, body);
    MagicFirst(a.kind, s1 + body);
  }

  /** Every quote gives back its extraData, its PCR selections in order and its digest; both walks see the nonce. */
  lemma QuoteRoundTrip(a: Attest, tail: Bytes)
    requires IsAttest(a)
    ensures ReadQuote(AttestBytes(a) + tail) == Some(a.quote)
    ensures AzureExtra(AttestBytes(a) + tail) == Some(a.quote.extra)
  {
    Assoc(AttestHeader(a), a.quote.digest, tail);
    hide AttestHeader, ReadQuote;
    QuoteRead(a, a.quote.digest + tail);
    TakeAppend(a.quote.digest, tail);
    WalksAgree(AttestBytes(a) + tail);
  }

  lemma {:induction false} SelectionsCut(sel: seq<Selection>, rest: Bytes, s: Bytes)
    requires AllEncodable(sel) && rest != [] && s < SelectionBytes(sel) + rest
    ensures var r := Selections(s, |sel|);
            r.None? || r.value.1 < rest
  {
    if sel == [] {
      assert SelectionBytes(sel) + rest == rest;
    } else {
      var more := SelectionBytes(sel[1..]) + rest;
      OneSelectionCut(sel[0], more, s) by {
        var Selection(alg, bitmap) := sel[0];
        var tail := SelectionBytes(sel[1..]);
        Assoc(BeBytes(alg, 2), BeBytes(|bitmap|, 1) + (bitmap + tail), rest);
        Assoc(BeBytes(|bitmap|, 1), bitmap + tail, rest);
        Assoc(bitmap, tail, rest);
      }
      if OneSelection(s).Some? {
        SelectionsCut(sel[1..], rest, OneSelection(s).value.1);
      }
    }
  }

  lemma OneSelectionCut(one: Selection, more: Bytes, s: Bytes)
    requires one.alg < 0x1_0000 && |one.bitmap| < 0x100 && more != []
    requires s < BeBytes(one.alg, 2) + (BeBytes(|one.bitmap|, 1) + (one.bitmap + more))
    ensures OneSelection(s).None? || OneSelection(s).value.1 < more
  {
    Powers();
    FieldCut(one.alg, 2, BeBytes(|one.bitmap|, 1) + (one.bitmap + more), s);
    if Field(s, 2).Some? {
      var t := Field(s, 2).value.1;
      FieldCut(|one.bitmap|, 1, one.bitmap + more, t);
      if Field(t, 1).Some? {
        SkipCut(one.bitmap, more, Field(t, 1).value.1);
      }
    }
  }

  lemma AttestedCut(q: Quote, s: Bytes, extra: Bytes)
    requires |q.selections| < 0x1_0000_0000 && |q.digest| < 0x1_0000 && AllEncodable(q.selections)
    requires s < AttestedBytes(q)
    ensures AfterExtra(s, extra).None?
  {
    Powers();
    var d := BeBytes(|q.digest|, 2);
    assert |d| == 2;
    hide Selections, SelectionBytes, AllEncodable, BeBytes, Pow256, Be;
    FieldCut(|q.selections|, 4, SelectionBytes(q.selections) + d, s);
    if Field(s, 4).Some? {
      var t := Field(s, 4).value.1;
      SelectionsCut(q.selections, d, t);
    }
  }

  lemma AttestHeaderCut(a: Attest, s: Bytes)
    requires IsAttest(a) && s < AttestHeader(a)
    ensures ReadQuote(s).None?
  {
    Powers();
    var q := a.quote;
    assert |AttestedBytes(q)| >= 4;
    hide Field, Drop, AttestedBytes, AfterExtra, Pow256, Take, AllEncodable;
    var s5 := a.clockAndFirmware + AttestedBytes(q);
    var s4 := q.extra + s5;
    var s3 := BeBytes(|q.extra|, 2) + s4;
    var s2 := a.signer + s3;
    SkipCut(MAGIC + a.kind, BeBytes(|a.signer|, 2) + s2, s);
    FieldCut(|a.signer|, 2, s2, Drop(s, 6));
    var signer := Field(Drop(s, 6), 2);
    if signer.Some? {
      SkipCut(a.signer, s3, signer.value.1);
      var t := Drop(signer.value.1, |a.signer|);
      FieldCut(|q.extra|, 2, s4, t);
      if Field(t, 2).Some? {
        ExtraCut(a, Field(t, 2).value.1, Take(Field(t, 2).value.1, |q.extra|));
      }
    }
  }

  lemma ExtraCut(a: Attest, s: Bytes, extra: Bytes)
    requires IsAttest(a) && s < a.quote.extra + (a.clockAndFirmware + AttestedBytes(a.quote))
    ensures AfterExtra(Drop(s, |a.quote.extra| + CLOCK_AND_FIRMWARE), extra).None?
  {
    var rest := AttestedBytes(a.quote);
    assert |rest| >= 4;
    hide AttestedBytes, AfterExtra, Drop, AllEncodable;
    Assoc(a.quote.extra, a.clockAndFirmware, rest);
    SkipCut(a.quote.extra + a.clockAndFirmware, rest, s);
    AttestedCut(a.quote, Drop(s, |a.quote.extra| + CLOCK_AND_FIRMWARE), extra);
  }

  /** A quote that ends `missing` bytes early raises exactly when more than the digest is missing. Otherwise what is
      left of the digest is returned as if it were all of it. */
  lemma CutQuote(a: Attest, missing: nat)
    requires IsAttest(a) && missing <= |AttestBytes(a)|
    ensures var r, digest := ReadQuote(AttestBytes(a)[..|AttestBytes(a)| - missing]), a.quote.digest;
            if missing <= |digest| then r == Some(a.quote.(digest := digest[..|digest| - missing])) else r.None?
  {
    hide AttestHeader, ReadQuote, IsAttest;
    var header, digest := AttestHeader(a), a.quote.digest;
    var s := AttestBytes(a)[..|AttestBytes(a)| - missing];
    if missing <= |digest| {
      var body := digest[..|digest| - missing];
      assert s == header + body;
      QuoteRead(a, body);
      assert Take(body, |digest|) == body;
    } else {
      assert s == header[..|s|];
      AttestHeaderCut(a, s);
    }
  }

  /** The fields in front of extraData, which is where the shorter walk ends. */
  function ExtraHeader(a: Attest): Bytes {
    ([0xff, 0x54, 0x43, 0x47] + a.kind) + (BeBytes(|a.signer|, 2) + (a.signer + BeBytes(|a.quote.extra|, 2)))
  }

  /** The shorter walk returns what is left of extraData, and raises exactly when the buffer ends in front of it. */
  lemma CutAzure(a: Attest, s: Bytes)
    requires IsAttest(a) && s <= AttestBytes(a)
    ensures var header, extra := ExtraHeader(a), a.quote.extra;
            AzureExtra(s) == if |s| < |header| then None else Some(Take(s[|header|..], |extra|))
  {
    hide Pow256;
    ExtraHeaderFirst(a);
    var header := ExtraHeader(a);
    if |s| < |header| {
      assert s == header[..|s|];
      ExtraHeaderCut(a, s);
    } else {
      assert s[..|header|] == header;
      assert s == header + s[|header|..];
      AzureRead(a, s[|header|..]);
    }
  }

  lemma ExtraHeaderFirst(a: Attest)
    ensures ExtraHeader(a) <= AttestBytes(a)
  {
    var rest := a.quote.extra + (a.clockAndFirmware + AttestedBytes(a.quote));
    var e := BeBytes(|a.quote.extra|, 2);
    Assoc(a.signer, e, rest);
    Assoc(BeBytes(|a.signer|, 2), a.signer + e, rest);
    Assoc(MAGIC + a.kind, BeBytes(|a.signer|, 2) + (a.signer + e), rest);
    Assoc(ExtraHeader(a), rest, a.quote.digest);
  }

  lemma AzureRead(a: Attest, body: Bytes)
    requires IsAttest(a)
    ensures AzureExtra(ExtraHeader(a) + body) == Some(Take(body, |a.quote.extra|))
  {
    Powers();
    var e := BeBytes(|a.quote.extra|, 2);
    var s1 := BeBytes(|a.signer|, 2) + (a.signer + e);
    Assoc(MAGIC + a.kind, s1, body);
    Assoc(BeBytes(|a.signer|, 2), a.signer + e, body);
    Assoc(a.signer, e, body);
    MagicFirst(a.kind, s1 + body);
    TakeAppend(MAGIC + a.kind, s1 + body);
    FieldRead(|a.signer|, 2, a.signer + (e + body));
    TakeAppend(a.signer, e + body);
    FieldRead(|a.quote.extra|, 2, body);
  }

  lemma ExtraHeaderCut(a: Attest, s: Bytes)
    requires IsAttest(a) && s < ExtraHeader(a)
    ensures AzureExtra(s).None?
  {
    Powers();
    var e := BeBytes(|a.quote.extra|, 2);
    assert |e| == 2 && e + [] == e;
    hide Field, Drop, Pow256, Take, AllEncodable;
    SkipCut(MAGIC + a.kind, BeBytes(|a.signer|, 2) + (a.signer + e), s);
    FieldCut(|a.signer|, 2, a.signer + e, Drop(s, 6));
    var signer := Field(Drop(s, 6), 2);
    if signer.Some? {
      SkipCut(a.signer, e, signer.value.1);
      FieldCut(|a.quote.extra|, 2, [], Drop(signer.value.1, |a.signer|));
    }
  }

  lemma MagicFirst(kind: Bytes, rest: Bytes)
    ensures Take(MAGIC + kind + rest, 4) == MAGIC
  {
  }
}
