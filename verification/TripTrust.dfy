/** What the Relying Party and Verifier B of trip_chain.py trust, in terms of the signatures, the trust anchors and the
    decoded claims alone. */
module TripTrust {
  import opened Octets
  import opened TripChain

  // ---- A message and what it shows ----

  /** The message decodes and its signature verifies under the anchor of its own key identifier. */
  predicate Verified(c: Cose, anchors: Anchors, msg: Bytes) {
    && c.load(msg).Some?
    && var t := c.load(msg).value;
    && t.kid in anchors
    && c.verify(anchors[t.kid], t.sig, c.toBeSigned(t.protected, t.payload))
  }

  /** `g` is the first geographic result among the submodules. */
  predicate IsFirst(submods: seq<(string, Option<Geo>)>, g: Geo) {
    exists i :: 0 <= i < |submods| && submods[i].1 == Some(g) && forall j :: 0 <= j < i ==> submods[j].1.None?
  }

  /** The message is verified and its claims decode, with `g` the first geographic result in them. */
  predicate Shows(c: Cose, anchors: Anchors, msg: Bytes, g: Geo) {
    && Verified(c, anchors, msg)
    && c.loadEar(c.load(msg).value.payload).Some?
    && IsFirst(c.loadEar(c.load(msg).value.payload).value.submods, g)
  }

  lemma {:induction false} FirstGeoIs(submods: seq<(string, Option<Geo>)>, g: Geo)
    ensures FirstGeo(submods) == Some(g) <==> IsFirst(submods, g)
  {
    if submods == [] {
    } else if submods[0].1.Some? {
      if submods[0].1 == Some(g) {
        assert IsFirst(submods, g);
      }
    } else {
      var rest := submods[1..];
      FirstGeoIs(rest, g);
      if i :| 0 <= i < |rest| && rest[i].1 == Some(g) && forall j :: 0 <= j < i ==> rest[j].1.None? {
        assert submods[i + 1].1 == Some(g);
        assert forall j :: 0 <= j < i + 1 ==> submods[j].1.None?;
      }
      if i :| 0 <= i < |submods| && submods[i].1 == Some(g) && forall j :: 0 <= j < i ==> submods[j].1.None? {
        assert rest[i - 1].1 == Some(g);
        assert forall j :: 0 <= j < i - 1 ==> rest[j] == submods[j + 1];
      }
    }
  }

  /** `cose_open` gives back the payload exactly of verified messages. */
  lemma OpensIffVerified(c: Cose, anchors: Anchors, msg: Bytes)
    ensures CoseOpen(c, msg, anchors) == if Verified(c, anchors, msg) then Some(c.load(msg).value.payload) else None
  {
  }

  lemma ResultIsShown(c: Cose, anchors: Anchors, msg: Bytes, g: Geo)
    ensures Result(c, anchors, msg) == Some(g) <==> Shows(c, anchors, msg, g)
  {
    OpensIffVerified(c, anchors, msg);
    hide CoseOpen, FirstGeo, IsFirst;
    if Verified(c, anchors, msg) && c.loadEar(c.load(msg).value.payload).Some? {
      FirstGeoIs(c.loadEar(c.load(msg).value.payload).value.submods, g);
    }
  }

  // ---- Verdicts ----

  /** Whatever does not verify is rejected, under both policies, at every depth and whatever the store holds. */
  lemma UnverifiedRejected(c: Cose, anchors: Anchors, store: Store, msg: Bytes, strict: bool, depth: nat)
    requires c.load(msg).Some? ==>
               var t := c.load(msg).value;
               t.kid !in anchors || !c.verify(anchors[t.kid], t.sig, c.toBeSigned(t.protected, t.payload))
    ensures Rp(c, anchors, store, msg, strict, depth) == Reject
  {
  }

  /** A result that names Verifier A as its signer but is signed with another key. */
  lemma ForgeryRejected(c: Cose, payload: Bytes, key: Bytes, other: Bytes, store: Store, strict: bool, depth: nat)
    requires IsCose(c)
    requires var m := c.toBeSigned([0xa1, 0x01, 0x27], payload); !c.verify(c.pub(key), c.sign(other, m), m)
    ensures Rp(c, map[[65] := c.pub(key)], store, CoseSign1(c, payload, other, [65]), strict, depth) == Reject
    ensures Rp(c, map[[65] := c.pub(other)], store, CoseSign1(c, payload, other, [66]), strict, depth) == Reject
  {
    var sig := c.sign(other, c.toBeSigned([0xa1, 0x01, 0x27], payload));
    SignedShape(c, payload, other, [65]);
    SignedShape(c, payload, other, [66]);
    assert c.load(CoseSign1(c, payload, other, [65])).value.kid == [65];
    UnverifiedRejected(c, map[[65] := c.pub(key)], store, CoseSign1(c, payload, other, [65]), strict, depth);
    UnverifiedRejected(c, map[[65] := c.pub(other)], store, CoseSign1(c, payload, other, [66]), strict, depth);
  }

  /** What `cose_sign1` puts into a message. */
  lemma SignedShape(c: Cose, payload: Bytes, key: Bytes, kid: Bytes)
    requires IsCose(c)
    ensures var protected := [0xa1, 0x01, 0x27];
            c.load(CoseSign1(c, payload, key, kid))
            == Some(Sign1(protected, kid, payload, c.sign(key, c.toBeSigned(protected, payload))))
  {
  }

  /** A verified message without a geographic result raises; one about a country outside the Union is rejected. */
  lemma VerifiedVerdicts(c: Cose, anchors: Anchors, store: Store, msg: Bytes, strict: bool, depth: nat)
    requires Verified(c, anchors, msg)
    ensures (forall g :: !Shows(c, anchors, msg, g)) <==> Result(c, anchors, msg).None?
    ensures (forall g :: !Shows(c, anchors, msg, g)) ==> Rp(c, anchors, store, msg, strict, depth) == Raise
    ensures forall g :: Shows(c, anchors, msg, g) && !NamesMember(g) ==>
              Rp(c, anchors, store, msg, strict, depth) == Reject
  {
    OpensIffVerified(c, anchors, msg);
    if Result(c, anchors, msg).Some? {
      ResultIsShown(c, anchors, msg, Result(c, anchors, msg).value);
    }
    forall g | Shows(c, anchors, msg, g) && !NamesMember(g)
      ensures Rp(c, anchors, store, msg, strict, depth) == Reject
    {
      ResultIsShown(c, anchors, msg, g);
      MemberIffInEu(g);
    }
    forall g | Shows(c, anchors, msg, g)
      ensures Result(c, anchors, msg) == Some(g)
    {
      ResultIsShown(c, anchors, msg, g);
    }
  }

  /** The country is one of the twenty-seven. */
  predicate NamesMember(g: Geo) {
    match g.country
    case None => false
    case Some(cc) =>
      || cc in ["AT", "BE", "BG", "HR", "CY", "CZ", "DK", "EE", "FI"]
      || cc in ["FR", "DE", "GR", "HU", "IE", "IT", "LV", "LT", "LU"]
      || cc in ["MT", "NL", "PL", "PT", "RO", "SK", "SI", "ES", "SE"]
  }

  lemma MemberIffInEu(g: Geo)
    ensures NamesMember(g) <==> InEu(g)
  {
  }

  /** Lenient ACCEPT, exactly. */
  lemma LenientIffShown(c: Cose, anchors: Anchors, store: Store, msg: Bytes, depth: nat)
    ensures Rp(c, anchors, store, msg, false, depth) == Accept
       <==> exists g :: Shows(c, anchors, msg, g) && NamesMember(g)
  {
    LenientIffSound(c, anchors, store, msg, depth);
    SoundIffShown(c, anchors, msg);
  }

  lemma SoundIffShown(c: Cose, anchors: Anchors, msg: Bytes)
    ensures Sound(c, anchors, msg) <==> exists g :: Shows(c, anchors, msg, g) && NamesMember(g)
  {
    hide Shows, NamesMember, InEu, Result;
    var r := Result(c, anchors, msg);
    if r.Some? {
      ResultIsShown(c, anchors, msg, r.value);
      MemberIffInEu(r.value);
    }
    if g :| Shows(c, anchors, msg, g) && NamesMember(g) {
      ResultIsShown(c, anchors, msg, g);
      MemberIffInEu(g);
    }
  }

  // ---- Trails of evidence ----

  /** A message and the result it shows. */
  datatype Link = Link(msg: Bytes, geo: Geo)

  /** Every message verifies under an anchor and shows a result about a member state; each but the last rests, with
      basis 2, on the next one through a sixteen-byte reference into the store; the last has basis 0 or 1. */
  predicate IsTrail(c: Cose, anchors: Anchors, store: Store, trail: seq<Link>) {
    && trail != []
    && (forall i :: 0 <= i < |trail| ==> Shows(c, anchors, trail[i].msg, trail[i].geo) && NamesMember(trail[i].geo))
    && (forall i :: 0 <= i < |trail| - 1 ==> PointsTo(store, trail[i].geo, trail[i + 1].msg))
    && trail[|trail| - 1].geo.basis in {Some(0), Some(1)}
  }

  predicate PointsTo(store: Store, g: Geo, next: Bytes) {
    && g.basis == Some(2)
    && g.basisRef.Some? && |g.basisRef.value| == 16
    && g.basisRef.value in store && store[g.basisRef.value] == next
  }

  lemma ChainIsTrail(c: Cose, anchors: Anchors, store: Store, path: seq<Bytes>) returns (trail: seq<Link>)
    requires IsChain(c, anchors, store, path)
    ensures IsTrail(c, anchors, store, trail) && |trail| == |path| && trail[0].msg == path[0]
  {
    forall i | 0 <= i < |path|
      ensures Sound(c, anchors, path[i])
    {
      assert i < |path| - 1 ==> RestsOn(c, anchors, store, path[i], path[i + 1]);
    }
    trail := seq(|path|, i requires 0 <= i < |path| => Link(path[i], Result(c, anchors, path[i]).value));
    forall i | 0 <= i < |trail|
      ensures Shows(c, anchors, trail[i].msg, trail[i].geo) && NamesMember(trail[i].geo)
    {
      ResultIsShown(c, anchors, path[i], trail[i].geo);
      MemberIffInEu(trail[i].geo);
    }
    forall i | 0 <= i < |trail| - 1
      ensures PointsTo(store, trail[i].geo, trail[i + 1].msg)
    {
      assert RestsOn(c, anchors, store, path[i], path[i + 1]);
    }
  }

  lemma TrailIsChain(c: Cose, anchors: Anchors, store: Store, trail: seq<Link>) returns (path: seq<Bytes>)
    requires IsTrail(c, anchors, store, trail)
    ensures IsChain(c, anchors, store, path) && |path| == |trail| && path[0] == trail[0].msg
  {
    path := seq(|trail|, i requires 0 <= i < |trail| => trail[i].msg);
    forall i | 0 <= i < |trail|
      ensures Result(c, anchors, path[i]) == Some(trail[i].geo) && InEu(trail[i].geo)
    {
      ResultIsShown(c, anchors, path[i], trail[i].geo);
      MemberIffInEu(trail[i].geo);
    }
    hide Result, InEu, Shows, NamesMember;
    forall i | 0 <= i < |path| - 1
      ensures RestsOn(c, anchors, store, path[i], path[i + 1])
    {
      assert PointsTo(store, trail[i].geo, trail[i + 1].msg);
    }
  }

  /** Strict ACCEPT, exactly, in terms of signatures and claims: from the message, at most five references (fewer where
      some depth is used up) lead along verified results to one that rests on evidence or an endorsement. */
  lemma AcceptIffTrail(c: Cose, anchors: Anchors, store: Store, msg: Bytes, depth: nat)
    ensures Rp(c, anchors, store, msg, true, depth) == Accept
       <==> exists trail: seq<Link> :: IsTrail(c, anchors, store, trail) && trail[0].msg == msg
                            && (|trail| == 1 || |trail| + depth <= 6)
  {
    hide Rp, Shows, PointsTo, NamesMember, RestsOn, Grounded;
    if Rp(c, anchors, store, msg, true, depth) == Accept {
      var path := AcceptGivesChain(c, anchors, store, msg, depth);
      var trail := ChainIsTrail(c, anchors, store, path);
    }
    if trail: seq<Link> :| && IsTrail(c, anchors, store, trail) && trail[0].msg == msg
                           && (|trail| == 1 || |trail| + depth <= 6)
    {
      var path := TrailIsChain(c, anchors, store, trail);
      ChainGivesAccept(c, anchors, store, path, depth);
    }
  }

  // ---- Verifier B ----

  /** The result Verifier B derives from a shown one. */
  predicate IsDerived(m: Geo, g: Geo, hop: Bytes -> Bytes, withRef: bool) {
    && g.uuid.Some? && g.country.Some?
    && m.country == g.country
    && m.uuid == Some(hop(g.uuid.value))
    && m.basis == Some(2)
    && m.basisRef == (if withRef then g.uuid else None)
    && m.provenance == None
    && m.observedFrom == g.observedFrom && m.observedUntil == g.observedUntil
  }

  /** Verifier B works only from messages that verify under Verifier A's key, and gives on what they show. */
  lemma DerivesFromShown(c: Cose, keyA: Bytes, keyB: Bytes, hop: Bytes -> Bytes, iat: int, msg: Bytes, withRef: bool)
    requires IsCose(c)
    ensures var anchors := map[[65] := c.pub(keyA)];
            var r := VerifierB(c, keyA, keyB, hop, iat, msg, withRef);
            match r
            case None => forall g: Geo :: Shows(c, anchors, msg, g) ==> g.uuid.None? || g.country.None?
            case Some((m, ear)) =>
              && (exists g :: Shows(c, anchors, msg, g) && IsDerived(m, g, hop, withRef))
              && Shows(c, map[[66] := c.pub(keyB)], ear, m)
              && c.loadEar(c.load(ear).value.payload)
                 == Some(Ear("workload-verifier-B", iat + 5, [("workload", Some(m))]))
  {
    var anchors := map[[65] := c.pub(keyA)];
    var r := VerifierB(c, keyA, keyB, hop, iat, msg, withRef);
    var shown := Result(c, anchors, msg);
    if shown.Some? {
      ResultIsShown(c, anchors, msg, shown.value);
    }
    match r
    case None =>
      forall g: Geo | Shows(c, anchors, msg, g)
        ensures g.uuid.None? || g.country.None?
      {
        ResultIsShown(c, anchors, msg, g);
      }
    case Some((m, ear)) =>
      assert IsDerived(m, shown.value, hop, withRef);
      SignedOpens(c, "workload-verifier-B", m, iat + 5, "workload", keyB, [66], map[[66] := c.pub(keyB)]);
      ResultIsShown(c, map[[66] := c.pub(keyB)], ear, m);
      SignedShape(c, c.dumpEar(EarFor("workload-verifier-B", m, iat + 5, "workload")), keyB, [66]);
  }

  /** So nothing that fails to verify under that key reaches Verifier B's result. */
  lemma UnverifiedNotUsed(c: Cose, keyA: Bytes, keyB: Bytes, hop: Bytes -> Bytes, iat: int, msg: Bytes, withRef: bool)
    requires c.load(msg).Some? ==>
               var t := c.load(msg).value;
               t.kid != [65] || !c.verify(c.pub(keyA), t.sig, c.toBeSigned(t.protected, t.payload))
    ensures VerifierB(c, keyA, keyB, hop, iat, msg, withRef).None?
  {
  }
}
