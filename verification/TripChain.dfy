/** The geographic chain of trip_chain.py: Verifier A appraises signed breadcrumbs, Verifier B passes the result on, and
    the Relying Party walks basis references to decide. */
module TripChain {
  import opened Octets

  const EVIDENCE := 0
  const ENDORSEMENT := 1
  const ATTESTATION_RESULT := 2

  const EU: set<string> := {
    "AT", "BE", "BG", "HR", "CY", "CZ", "DK", "EE", "FI", "FR", "DE", "GR", "HU", "IE", "IT", "LV", "LT", "LU",
    "MT", "NL", "PL", "PT", "RO", "SK", "SI", "ES", "SE" }

  /** A geographic result; a missing label is `None`. */
  datatype Geo = Geo(country: Option<string>, uuid: Option<Bytes>, basis: Option<int>, basisRef: Option<Bytes>,
                     provenance: Option<string>, observedFrom: Option<int>, observedUntil: Option<int>)

  /** The submodules in order, each with its geographic result if it carries one. */
  datatype Ear = Ear(verifier: string, iat: int, submods: seq<(string, Option<Geo>)>)

  datatype Sign1 = Sign1(protected: Bytes, kid: Bytes, payload: Bytes, sig: Bytes)

  /** CBOR and Ed25519. `load` and `loadEar` are `None` where decoding or a lookup in the decoded value raises. */
  datatype Cose = Cose(
    dump: Sign1 -> Bytes, load: Bytes -> Option<Sign1>,
    dumpEar: Ear -> Bytes, loadEar: Bytes -> Option<Ear>,
    toBeSigned: (Bytes, Bytes) -> Bytes,
    pub: Bytes -> Bytes, sign: (Bytes, Bytes) -> Bytes, verify: (Bytes, Bytes, Bytes) -> bool)

  ghost predicate IsCose(c: Cose) {
    && (forall m :: c.load(c.dump(m)) == Some(m))
    && (forall e :: c.loadEar(c.dumpEar(e)) == Some(e))
    && (forall key, m :: c.verify(c.pub(key), c.sign(key, m), m))
  }

  /** Trusted public keys by key identifier. */
  type Anchors = map<Bytes, Bytes>

  /** EARs by claim-uuid. */
  type Store = map<Bytes, Bytes>

  /** `dumps({1: -8})`: alg EdDSA. */
  const PROTECTED: Bytes := [0xa1, 0x01, 0x27]

  function CoseSign1(c: Cose, payload: Bytes, key: Bytes, kid: Bytes): Bytes {
    c.dump(Sign1(PROTECTED, kid, payload, c.sign(key, c.toBeSigned(PROTECTED, payload))))
  }

  /** The payload if the signature verifies under the anchor of its key identifier; `None` where the source raises. */
  function CoseOpen(c: Cose, msg: Bytes, anchors: Anchors): Option<Bytes> {
    var t :- c.load(msg);
    if t.kid !in anchors || !c.verify(anchors[t.kid], t.sig, c.toBeSigned(t.protected, t.payload)) then None
    else Some(t.payload)
  }

  function FirstGeo(submods: seq<(string, Option<Geo>)>): Option<Geo> {
    if |submods| == 0 then None
    else if submods[0].1.Some? then submods[0].1
    else FirstGeo(submods[1..])
  }

  function GeoOf(c: Cose, payload: Bytes): Option<Geo> {
    var p :- c.loadEar(payload);
    FirstGeo(p.submods)
  }

  // ---- The Relying Party ----

  datatype Verdict = Accept | Reject | Raise

  predicate InEu(g: Geo) {
    g.country.Some? && g.country.value in EU
  }

  function Rp(c: Cose, anchors: Anchors, store: Store, msg: Bytes, strict: bool, depth: nat): Verdict
    decreases if depth <= 4 then 5 - depth else 0
  {
    var payload := CoseOpen(c, msg, anchors);
    if payload.None? then Reject else
    var geo := GeoOf(c, payload.value);
    if geo.None? then Raise else
    var g := geo.value;
    if !InEu(g) then Reject
    else if !strict then Accept
    else if g.basis == Some(EVIDENCE) || g.basis == Some(ENDORSEMENT) then Accept
    else if g.basis == Some(ATTESTATION_RESULT) then
      if g.basisRef.None? || g.basisRef.value == [] then Reject
      else
        var ref := g.basisRef.value;
        // the reasons print the reference as a UUID, which raises unless it has 16 bytes
        if ref !in store then (if |ref| == 16 then Reject else Raise)
        else if depth > 4 then Reject
        else
          var v := Rp(c, anchors, store, store[ref], strict, depth + 1);
          if v == Raise || |ref| != 16 then Raise else v
    else Reject
  }

  // ---- What strict ACCEPT means ----

  /** The result in a message that opens under an anchor. */
  function Result(c: Cose, anchors: Anchors, msg: Bytes): Option<Geo> {
    var payload :- CoseOpen(c, msg, anchors);
    GeoOf(c, payload)
  }

  /** Trusted, and about an EU country. */
  predicate Sound(c: Cose, anchors: Anchors, msg: Bytes) {
    Result(c, anchors, msg).Some? && InEu(Result(c, anchors, msg).value)
  }

  /** Rests on evidence or an endorsement. */
  predicate Grounded(c: Cose, anchors: Anchors, msg: Bytes) {
    && Sound(c, anchors, msg)
    && Result(c, anchors, msg).value.basis in {Some(0), Some(1)}
  }

  /** Rests on the attestation result `next`, through a UUID the store resolves. */
  predicate RestsOn(c: Cose, anchors: Anchors, store: Store, msg: Bytes, next: Bytes) {
    && Sound(c, anchors, msg)
    && var g := Result(c, anchors, msg).value;
    && g.basis == Some(2)
    && g.basisRef.Some? && |g.basisRef.value| == 16
    && g.basisRef.value in store && store[g.basisRef.value] == next
  }

  /** A chain of basis references that ends in evidence or an endorsement. */
  predicate IsChain(c: Cose, anchors: Anchors, store: Store, path: seq<Bytes>) {
    && path != []
    && (forall i :: 0 <= i < |path| - 1 ==> RestsOn(c, anchors, store, path[i], path[i + 1]))
    && Grounded(c, anchors, path[|path| - 1])
  }

  /** How many references may still be followed. */
  function Hops(depth: nat): nat {
    if depth <= 5 then 5 - depth else 0
  }

  lemma {:induction false} AcceptGivesChain(c: Cose, anchors: Anchors, store: Store, msg: Bytes, depth: nat)
    returns (path: seq<Bytes>)
    requires Rp(c, anchors, store, msg, true, depth) == Accept
    ensures IsChain(c, anchors, store, path) && path[0] == msg && |path| - 1 <= Hops(depth)
    decreases Hops(depth)
  {
    if Grounded(c, anchors, msg) {
      path := [msg];
    } else {
      var next := store[Result(c, anchors, msg).value.basisRef.value];
      var rest := AcceptGivesChain(c, anchors, store, next, depth + 1);
      path := [msg] + rest;
      forall i | 0 <= i < |path| - 1
        ensures RestsOn(c, anchors, store, path[i], path[i + 1])
      {
        assert i > 0 ==> path[i] == rest[i - 1];
        assert path[i + 1] == rest[i];
      }
    }
  }

  lemma {:induction false} ChainGivesAccept(c: Cose, anchors: Anchors, store: Store, path: seq<Bytes>, depth: nat)
    requires IsChain(c, anchors, store, path) && |path| - 1 <= Hops(depth)
    ensures Rp(c, anchors, store, path[0], true, depth) == Accept
    decreases |path|
  {
    if |path| <= 1 {
    } else {
      assert RestsOn(c, anchors, store, path[0], path[1]);
      var rest := path[1..];
      forall i | 0 <= i < |rest| - 1
        ensures RestsOn(c, anchors, store, rest[i], rest[i + 1])
      {
        assert rest[i] == path[i + 1] && rest[i + 1] == path[i + 2];
      }
      ChainGivesAccept(c, anchors, store, rest, depth + 1);
    }
  }

  /** Strict ACCEPT, exactly: a chain of at most five references from the message to a grounded result. */
  lemma AcceptIffChain(c: Cose, anchors: Anchors, store: Store, msg: Bytes, depth: nat)
    ensures Rp(c, anchors, store, msg, true, depth) == Accept
       <==> exists path :: IsChain(c, anchors, store, path) && path[0] == msg && |path| - 1 <= Hops(depth)
  {
    if Rp(c, anchors, store, msg, true, depth) == Accept {
      var path := AcceptGivesChain(c, anchors, store, msg, depth);
    }
    if path :| IsChain(c, anchors, store, path) && path[0] == msg && |path| - 1 <= Hops(depth) {
      ChainGivesAccept(c, anchors, store, path, depth);
    }
  }

  // ---- Cyclic stores ----

  /** The message `msg` rests on. */
  function Next(c: Cose, anchors: Anchors, store: Store, msg: Bytes): Option<Bytes> {
    if !Sound(c, anchors, msg) then None else
      var ref :- Result(c, anchors, msg).value.basisRef;
      if ref in store && RestsOn(c, anchors, store, msg, store[ref]) then Some(store[ref]) else None
  }

  /** `n` steps of a partial function. */
  function Iterate(next: Bytes -> Option<Bytes>, m: Bytes, n: nat): Option<Bytes> {
    if n == 0 then Some(m) else
      var m' :- Iterate(next, m, n - 1);
      next(m')
  }

  /** The message `n` references after `msg`. */
  function Walk(c: Cose, anchors: Anchors, store: Store, msg: Bytes, n: nat): Option<Bytes> {
    Iterate(m => Next(c, anchors, store, m), msg, n)
  }

  lemma {:induction false} ChainIsWalk(c: Cose, anchors: Anchors, store: Store, path: seq<Bytes>, n: nat)
    requires IsChain(c, anchors, store, path) && n < |path|
    ensures Walk(c, anchors, store, path[0], n) == Some(path[n])
  {
    if n == 0 {
    } else {
      ChainIsWalk(c, anchors, store, path, n - 1);
      assert RestsOn(c, anchors, store, path[n - 1], path[n - 1 + 1]);
    }
  }

  lemma {:induction false} CycleRepeats(next: Bytes -> Option<Bytes>, m: Bytes, i: nat, j: nat, k: nat)
    requires Iterate(next, m, i) == Iterate(next, m, j)
    ensures Iterate(next, m, i + k) == Iterate(next, m, j + k)
  {
    if k == 0 {
    } else {
      CycleRepeats(next, m, i, j, k - 1);
    }
  }

  lemma {:induction false} WalkEnds(next: Bytes -> Option<Bytes>, m: Bytes, n: nat, k: nat)
    requires Iterate(next, m, n).None?
    ensures Iterate(next, m, n + k).None?
  {
    if k == 0 {
    } else {
      WalkEnds(next, m, n, k - 1);
    }
  }

  /** A walk that comes back to where it has been never ends. */
  lemma {:induction false} WalkForever(next: Bytes -> Option<Bytes>, m: Bytes, i: nat, j: nat, n: nat)
    requires i < j && Iterate(next, m, i).Some? && Iterate(next, m, i) == Iterate(next, m, j)
    ensures Iterate(next, m, n).Some?
    decreases n
  {
    if n <= j {
      if Iterate(next, m, n).None? {
        WalkEnds(next, m, n, j - n);
      }
    } else {
      WalkForever(next, m, i, j, i + (n - j));
      CycleRepeats(next, m, i, j, n - j);
      assert j + (n - j) == n;
    }
  }

  /** A message whose walk enters a cycle is never accepted, at any depth. */
  lemma CycleNeverAccepted(c: Cose, anchors: Anchors, store: Store, msg: Bytes, i: nat, j: nat, depth: nat)
    requires i < j && Walk(c, anchors, store, msg, i).Some?
    requires Walk(c, anchors, store, msg, i) == Walk(c, anchors, store, msg, j)
    ensures Rp(c, anchors, store, msg, true, depth) != Accept
  {
    if Rp(c, anchors, store, msg, true, depth) == Accept {
      var path := AcceptGivesChain(c, anchors, store, msg, depth);
      ChainIsWalk(c, anchors, store, path, |path| - 1);
      WalkForever(m => Next(c, anchors, store, m), msg, i, j, |path|);
    }
  }

  // ---- When the Relying Party raises ----

  /** Trusted, but without a geographic result. */
  predicate Mute(c: Cose, anchors: Anchors, msg: Bytes) {
    CoseOpen(c, msg, anchors).Some? && Result(c, anchors, msg).None?
  }

  /** Rests on a result it names by something other than a UUID, and the reason for the verdict prints that name. */
  predicate Misnamed(c: Cose, anchors: Anchors, store: Store, msg: Bytes, depth: nat) {
    && Sound(c, anchors, msg)
    && var g := Result(c, anchors, msg).value;
    && g.basis == Some(2)
    && g.basisRef.Some? && g.basisRef.value != [] && |g.basisRef.value| != 16
    && (g.basisRef.value !in store || depth <= 4)
  }

  predicate Broken(c: Cose, anchors: Anchors, store: Store, msg: Bytes, depth: nat) {
    Mute(c, anchors, msg) || Misnamed(c, anchors, store, msg, depth)
  }

  /** `n` references after `msg` there is a broken result, met within the depth. */
  predicate BrokenAfter(c: Cose, anchors: Anchors, store: Store, msg: Bytes, depth: nat, n: nat) {
    && n <= Hops(depth)
    && Walk(c, anchors, store, msg, n).Some?
    && Broken(c, anchors, store, Walk(c, anchors, store, msg, n).value, depth + n)
  }

  lemma {:induction false} IterateShift(next: Bytes -> Option<Bytes>, m: Bytes, n: nat)
    ensures Iterate(next, m, n + 1) == if next(m).None? then None else Iterate(next, next(m).value, n)
  {
    if n == 0 {
      assert Iterate(next, m, 0) == Some(m);
    } else {
      IterateShift(next, m, n - 1);
    }
  }

  /** One turn of the recursion. */
  lemma RaiseStep(c: Cose, anchors: Anchors, store: Store, msg: Bytes, depth: nat)
    ensures Rp(c, anchors, store, msg, true, depth) == Raise
       <==> Broken(c, anchors, store, msg, depth)
            || (depth <= 4 && Next(c, anchors, store, msg).Some?
                && Rp(c, anchors, store, Next(c, anchors, store, msg).value, true, depth + 1) == Raise)
  {
  }

  lemma BrokenShift(c: Cose, anchors: Anchors, store: Store, msg: Bytes, depth: nat, n: nat)
    requires depth <= 4
    ensures BrokenAfter(c, anchors, store, msg, depth, n + 1)
       <==> Next(c, anchors, store, msg).Some?
            && BrokenAfter(c, anchors, store, Next(c, anchors, store, msg).value, depth + 1, n)
  {
    hide Broken, Next;
    IterateShift(m => Next(c, anchors, store, m), msg, n);
    assert depth + (n + 1) == depth + 1 + n;
  }

  /** The strict policy raises, exactly: within the five references there is a trusted EAR without a geographic result,
      or one that names the result it rests on by something other than sixteen bytes. */
  lemma {:induction false} RaisesIffBroken(c: Cose, anchors: Anchors, store: Store, msg: Bytes, depth: nat)
    ensures Rp(c, anchors, store, msg, true, depth) == Raise
       <==> exists n :: BrokenAfter(c, anchors, store, msg, depth, n)
    decreases Hops(depth)
  {
    RaiseStep(c, anchors, store, msg, depth);
    var next, deeper := Next(c, anchors, store, msg), depth + 1;
    hide Rp, Broken, Next;
    assert BrokenAfter(c, anchors, store, msg, depth, 0) <==> Broken(c, anchors, store, msg, depth);
    if depth <= 4 {
      if next.Some? {
        RaisesIffBroken(c, anchors, store, next.value, deeper);
        if n :| BrokenAfter(c, anchors, store, next.value, deeper, n) {
          BrokenShift(c, anchors, store, msg, depth, n);
        }
      }
      if n :| n > 0 && BrokenAfter(c, anchors, store, msg, depth, n) {
        BrokenShift(c, anchors, store, msg, depth, n - 1);
      }
    }
  }

  /** The lenient policy raises on the message itself or not at all. */
  lemma LenientRaisesIffMute(c: Cose, anchors: Anchors, store: Store, msg: Bytes, depth: nat)
    ensures Rp(c, anchors, store, msg, false, depth) == Raise <==> Mute(c, anchors, msg)
  {
  }

  // ---- Monotonicity ----

  predicate Extends(bigger: map<Bytes, Bytes>, smaller: map<Bytes, Bytes>) {
    forall k :: k in smaller ==> k in bigger && bigger[k] == smaller[k]
  }

  /** Less depth used up, more anchors and a larger store never turn strict ACCEPT into anything else. */
  lemma {:induction false} AcceptMonotone(c: Cose, anchors: Anchors, store: Store, anchors': Anchors, store': Store,
                                          msg: Bytes, depth: nat, depth': nat)
    requires Extends(anchors', anchors) && Extends(store', store) && depth' <= depth
    requires Rp(c, anchors, store, msg, true, depth) == Accept
    ensures Rp(c, anchors', store', msg, true, depth') == Accept
  {
    var path := AcceptGivesChain(c, anchors, store, msg, depth);
    forall i | 0 <= i < |path| - 1
      ensures RestsOn(c, anchors', store', path[i], path[i + 1])
    {
      assert RestsOn(c, anchors, store, path[i], path[i + 1]);
    }
    ChainGivesAccept(c, anchors', store', path, depth');
  }

  /** Lenient ACCEPT, exactly: trusted and about an EU country, whatever it rests on. */
  lemma LenientIffSound(c: Cose, anchors: Anchors, store: Store, msg: Bytes, depth: nat)
    ensures Rp(c, anchors, store, msg, false, depth) == Accept <==> Sound(c, anchors, msg)
  {
  }

  /** The lenient policy accepts all that the strict one does, and is as monotone. */
  lemma LenientAccepts(c: Cose, anchors: Anchors, store: Store, anchors': Anchors, store': Store, msg: Bytes,
                       strict: bool, depth: nat, depth': nat)
    requires Extends(anchors', anchors)
    requires Rp(c, anchors, store, msg, strict, depth) == Accept
    ensures Rp(c, anchors', store', msg, false, depth') == Accept
  {
  }

  // ---- Verifier A ----

  const WINDOW := 64
  const MIN_STEP := 900

  datatype Crumb = Crumb(seqNo: int, ts: int, cell: string, sig: Bytes)

  /** What Verifier A is given: the signed bytes of a crumb, the signature check, the map, and the uuid of a set. */
  datatype World = World(
    msg: Crumb -> Bytes, verify: (Bytes, Bytes, Bytes) -> bool,
    countryOfCell: string -> Option<string>, uuidOf: seq<Crumb> -> Bytes)

  datatype Refusal = BadSignature | NotAWindow | TooClose | NoSingleCountry
  datatype Outcome = Emitted(geo: Geo) | Refused(why: Refusal)

  predicate Signed(w: World, pk: Bytes, cs: seq<Crumb>) {
    forall i :: 0 <= i < |cs| ==> w.verify(pk, cs[i].sig, w.msg(cs[i]))
  }

  predicate Spaced(cs: seq<Crumb>) {
    forall i :: 0 <= i < |cs| - 1 ==> cs[i + 1].ts - cs[i].ts >= 900
  }

  predicate AllIn(w: World, cs: seq<Crumb>, country: Option<string>) {
    forall i :: 0 <= i < |cs| ==> w.countryOfCell(cs[i].cell) == country
  }

  /** What Verifier A asks of the evidence. */
  predicate Admissible(w: World, pk: Bytes, cs: seq<Crumb>) {
    Signed(w, pk, cs) && |cs| == 64 && Spaced(cs)
    && w.countryOfCell(cs[0].cell).Some? && AllIn(w, cs, w.countryOfCell(cs[0].cell))
  }

  method VerifierA(w: World, pk: Bytes, cs: seq<Crumb>) returns (r: Outcome)
    ensures r.Emitted? <==> Admissible(w, pk, cs)
    ensures r.Emitted? ==> r.geo == Geo(w.countryOfCell(cs[0].cell), Some(w.uuidOf(cs)), Some(0), None,
                                        Some("I-D.trip"), Some(cs[0].ts), Some(cs[63].ts))
    ensures r == Refused(BadSignature) <==> !Signed(w, pk, cs)
    ensures r == Refused(NotAWindow) <==> Signed(w, pk, cs) && |cs| != 64
    ensures r == Refused(TooClose) <==> Signed(w, pk, cs) && |cs| == 64 && !Spaced(cs)
  {
    hide Holds, CellsIn;
    for i := 0 to |cs|
      invariant Signed(w, pk, cs[..i])
    {
      if !w.verify(pk, cs[i].sig, w.msg(cs[i])) {
        return Refused(BadSignature);
      }
    }
    assert cs[..|cs|] == cs;
    if |cs| != WINDOW {
      return Refused(NotAWindow);
    }
    for i := 0 to |cs| - 1
      invariant Spaced(cs[..i + 1])
    {
      if cs[i + 1].ts - cs[i].ts < MIN_STEP {
        return Refused(TooClose);
      }
    }
    var found := CellsByCountry(w, cs);
    OneCountryIff(w, cs, found);
    if |found| != 1 || None in found {
      return Refused(NoSingleCountry);
    }
    var cc :| cc in found;
    return Emitted(Geo(cc, Some(w.uuidOf(cs)), Some(EVIDENCE), None, Some("I-D.trip"), Some(cs[0].ts),
                       Some(cs[|cs| - 1].ts)));
  }

  /** The cells that resolve to `country`, in order. */
  function CellsIn(w: World, cs: seq<Crumb>, country: Option<string>): seq<string> {
    if |cs| == 0 then [] else
      var last := cs[|cs| - 1];
      CellsIn(w, cs[..|cs| - 1], country) + (if w.countryOfCell(last.cell) == country then [last.cell] else [])
  }

  /** The `found` dictionary: each country some cell resolves to, with its cells. */
  ghost predicate Holds(w: World, cs: seq<Crumb>, found: map<Option<string>, seq<string>>) {
    && (forall k :: k in found <==> exists j :: 0 <= j < |cs| && w.countryOfCell(cs[j].cell) == k)
    && (forall k :: k in found ==> found[k] == CellsIn(w, cs, k))
  }

  method CellsByCountry(w: World, cs: seq<Crumb>) returns (found: map<Option<string>, seq<string>>)
    ensures Holds(w, cs, found)
  {
    hide Holds;
    found := map[];
    NoneHeld(w);
    assert cs[..0] == [];
    for i := 0 to |cs|
      invariant Holds(w, cs[..i], found)
    {
      var country := w.countryOfCell(cs[i].cell);
      OneMoreHeld(w, cs[..i], cs[i], found);
      assert cs[..i + 1] == cs[..i] + [cs[i]];
      found := found[country := (if country in found then found[country] else []) + [cs[i].cell]];
    }
    assert cs[..|cs|] == cs;
  }

  lemma NoneHeld(w: World)
    ensures Holds(w, [], map[])
  {
  }

  lemma {:induction false} NoCells(w: World, cs: seq<Crumb>, k: Option<string>)
    requires forall j :: 0 <= j < |cs| ==> w.countryOfCell(cs[j].cell) != k
    ensures CellsIn(w, cs, k) == []
  {
    if cs == [] {
    } else {
      NoCells(w, cs[..|cs| - 1], k);
    }
  }

  lemma OneMoreHeld(w: World, cs: seq<Crumb>, c: Crumb, found: map<Option<string>, seq<string>>)
    requires Holds(w, cs, found)
    ensures var country := w.countryOfCell(c.cell);
            Holds(w, cs + [c], found[country := (if country in found then found[country] else []) + [c.cell]])
  {
    var country, more := w.countryOfCell(c.cell), cs + [c];
    var found' := found[country := (if country in found then found[country] else []) + [c.cell]];
    assert more[..|more| - 1] == cs && more[|cs|] == c;
    forall k
      ensures k in found' <==> exists j :: 0 <= j < |more| && w.countryOfCell(more[j].cell) == k
    {
      if k in found {
        var j :| 0 <= j < |cs| && w.countryOfCell(cs[j].cell) == k;
        assert more[j] == cs[j];
      } else if k == country {
        assert w.countryOfCell(more[|cs|].cell) == k;
      } else {
        assert forall j :: 0 <= j < |more| ==> more[j] == if j < |cs| then cs[j] else c;
      }
    }
    forall k | k in found'
      ensures found'[k] == CellsIn(w, more, k)
    {
      if k !in found {
        NoCells(w, cs, k);
      }
    }
  }

  /** One key that is a country, exactly when all cells resolve to the country of the first. */
  lemma OneCountryIff(w: World, cs: seq<Crumb>, found: map<Option<string>, seq<string>>)
    requires cs != [] && Holds(w, cs, found)
    ensures var cc := w.countryOfCell(cs[0].cell);
            && (|found| == 1 && None !in found <==> cc.Some? && AllIn(w, cs, cc))
            && (|found| == 1 ==> found.Keys == {cc})
  {
    var cc := w.countryOfCell(cs[0].cell);
    assert cc in found.Keys;
    if |found| == 1 {
      assert |found.Keys - {cc}| == 0;
      assert found.Keys == {cc};
      forall j | 0 <= j < |cs|
        ensures w.countryOfCell(cs[j].cell) == cc
      {
        assert w.countryOfCell(cs[j].cell) in found.Keys;
      }
    }
    if AllIn(w, cs, cc) {
      assert forall k :: k in found.Keys <==> k == cc;
      assert found.Keys == {cc};
    }
  }

  /** Spacing adds up: any two crumbs of an admissible window lie at least 900 seconds a step apart. */
  lemma {:induction false} WindowSpread(cs: seq<Crumb>, i: nat, j: nat)
    requires Spaced(cs) && i <= j < |cs|
    ensures cs[j].ts - cs[i].ts >= 900 * (j - i)
    decreases j
  {
    if i >= j {
    } else {
      WindowSpread(cs, i, j - 1);
      assert cs[j - 1 + 1].ts - cs[j - 1].ts >= 900;
    }
  }

  /** The observation window is the true span of the timestamps. */
  lemma WindowIsSpan(w: World, pk: Bytes, cs: seq<Crumb>, i: nat)
    requires Admissible(w, pk, cs) && i < |cs|
    ensures cs[0].ts <= cs[i].ts <= cs[63].ts
    ensures cs[63].ts - cs[0].ts >= 900 * 63
  {
    WindowSpread(cs, 0, i);
    WindowSpread(cs, i, 63);
    WindowSpread(cs, 0, 63);
  }

  // ---- Verifier B ----

  const KID_A: Bytes := [65]
  const KID_B: Bytes := [66]

  function EarFor(verifier: string, geo: Geo, iat: int, submod: string): Ear {
    Ear(verifier, iat, [(submod, Some(geo))])
  }

  /** The result B derives and the EAR it signs; `None` where the source raises. */
  function VerifierB(c: Cose, keyA: Bytes, keyB: Bytes, hop: Bytes -> Bytes, iat: int, earFromA: Bytes, withRef: bool):
    Option<(Geo, Bytes)>
  {
    var payload :- CoseOpen(c, earFromA, map[KID_A := c.pub(keyA)]);
    var g :- GeoOf(c, payload);
    var uuid :- g.uuid;
    var country :- g.country;
    var m := Geo(Some(country), Some(hop(uuid)), Some(ATTESTATION_RESULT), if withRef then Some(uuid) else None, None,
                 g.observedFrom, g.observedUntil);
    Some((m, CoseSign1(c, c.dumpEar(EarFor("workload-verifier-B", m, iat + 5, "workload")), keyB, KID_B)))
  }

  /** A result signed into an EAR comes out again under an anchor for the signer. */
  lemma SignedOpens(c: Cose, verifier: string, geo: Geo, iat: int, submod: string, key: Bytes, kid: Bytes,
                    anchors: Anchors)
    requires IsCose(c) && kid in anchors && anchors[kid] == c.pub(key)
    ensures Result(c, anchors, CoseSign1(c, c.dumpEar(EarFor(verifier, geo, iat, submod)), key, kid)) == Some(geo)
  {
    var payload := c.dumpEar(EarFor(verifier, geo, iat, submod));
    assert CoseOpen(c, CoseSign1(c, payload, key, kid), anchors) == Some(payload);
    assert c.loadEar(payload) == Some(EarFor(verifier, geo, iat, submod));
  }

  /** Inputs that raise: a trusted result whose reference is the single byte 1 raises under the strict policy, whether
      the store resolves it to a grounded result or to nothing, and a trusted EAR without any result raises under
      both policies. */
  lemma RaisingStores(c: Cose, key: Bytes, iat: int)
    requires IsCose(c)
    ensures var anchors := map[[65] := c.pub(key)];
            var grounded := Geo(Some("NL"), None, Some(0), None, None, None, None);
            var short := Geo(Some("NL"), None, Some(2), Some([1]), None, None, None);
            var g := CoseSign1(c, c.dumpEar(EarFor("A", grounded, iat, "trip-device")), key, [65]);
            var msg := CoseSign1(c, c.dumpEar(EarFor("A", short, iat, "trip-device")), key, [65]);
            var mute := CoseSign1(c, c.dumpEar(Ear("A", iat, [])), key, [65]);
            && Rp(c, anchors, map[[1] := g], g, true, 0) == Accept
            && Rp(c, anchors, map[[1] := g], msg, true, 0) == Raise
            && Rp(c, anchors, map[], msg, true, 0) == Raise
            && Rp(c, anchors, map[], msg, false, 0) == Accept
            && Rp(c, anchors, map[], mute, true, 0) == Raise && Rp(c, anchors, map[], mute, false, 0) == Raise
  {
    var anchors := map[[65] := c.pub(key)];
    var grounded := Geo(Some("NL"), None, Some(0), None, None, None, None);
    var short := Geo(Some("NL"), None, Some(2), Some([1]), None, None, None);
    SignedOpens(c, "A", grounded, iat, "trip-device", key, [65], anchors);
    SignedOpens(c, "A", short, iat, "trip-device", key, [65], anchors);
    var payload := c.dumpEar(Ear("A", iat, []));
    assert CoseOpen(c, CoseSign1(c, payload, key, [65]), anchors) == Some(payload);
    assert c.loadEar(payload) == Some(Ear("A", iat, []));
  }

  /** From admissible evidence to the Relying Party: A's EAR and B's are accepted, B keeps the country and the window
      and points at A's result, and without the reference only the lenient policy accepts. */
  lemma PipelineAccepts(c: Cose, w: World, pk: Bytes, cs: seq<Crumb>, geoA: Geo, keyA: Bytes, keyB: Bytes,
                        hop: Bytes -> Bytes, iat: int, store: Store)
    requires IsCose(c) && Admissible(w, pk, cs) && |w.uuidOf(cs)| == 16
    requires geoA == Geo(w.countryOfCell(cs[0].cell), Some(w.uuidOf(cs)), Some(0), None, Some("I-D.trip"),
                         Some(cs[0].ts), Some(cs[63].ts))
    requires InEu(geoA)
    requires var earA := CoseSign1(c, c.dumpEar(EarFor("geoar-verifier-A", geoA, iat, "trip-device")), keyA, [65]);
             w.uuidOf(cs) in store && store[w.uuidOf(cs)] == earA
    ensures var earA := CoseSign1(c, c.dumpEar(EarFor("geoar-verifier-A", geoA, iat, "trip-device")), keyA, [65]);
            var anchors := map[[65] := c.pub(keyA), [66] := c.pub(keyB)];
            && Rp(c, anchors, store, earA, true, 0) == Accept
            && var b := VerifierB(c, keyA, keyB, hop, iat, earA, true);
            && var n := VerifierB(c, keyA, keyB, hop, iat, earA, false);
            && b.Some? && n.Some?
            && var (m, earB) := b.value;
            && m.country == geoA.country && m.basisRef == geoA.uuid
            && m.observedFrom == geoA.observedFrom && m.observedUntil == geoA.observedUntil
            && Rp(c, anchors, store, earB, true, 0) == Accept
            && Rp(c, anchors, store, n.value.1, true, 0) == Reject
            && Rp(c, anchors, store, n.value.1, false, 0) == Accept
  {
    var anchors := map[[65] := c.pub(keyA), [66] := c.pub(keyB)];
    var earA := CoseSign1(c, c.dumpEar(EarFor("geoar-verifier-A", geoA, iat, "trip-device")), keyA, [65]);
    SignedOpens(c, "geoar-verifier-A", geoA, iat, "trip-device", keyA, [65], anchors);
    SignedOpens(c, "geoar-verifier-A", geoA, iat, "trip-device", keyA, [65], map[[65] := c.pub(keyA)]);
    var m := VerifierB(c, keyA, keyB, hop, iat, earA, true).value.0;
    SignedOpens(c, "workload-verifier-B", m, iat + 5, "workload", keyB, [66], anchors);
    SignedOpens(c, "workload-verifier-B", m.(basisRef := None), iat + 5, "workload", keyB, [66], anchors);
    assert Rp(c, anchors, store, earA, true, 1) == Accept;
  }
}
