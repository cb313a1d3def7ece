/** The DER decoder of gcp-cvm/gcp_verify.py, an encoder for the same values, and the round trip between them. */
module Der {
  import opened Octets

  /** What `der_seq` makes of an element. `Nested` is the word it puts in place of a long inner SEQUENCE. */
  datatype Val =
    | Str(text: string)
    | Int(n: int)
    | Bool(b: bool)
    | List(items: seq<Val>)
    | Nested
    | Other(tag: byte, bytes: Bytes)

  /** `bytes.decode(errors="replace")`, which never raises. */
  type Decode = Bytes -> string

  const SEQUENCE: byte := 0x30
  const INTEGER: byte := 0x02
  const BOOLEAN: byte := 0x01

  predicate IsText(tag: byte) {
    tag == 0x0c || tag == 0x16 || tag == 0x13
  }

  // ---- The decoder ----

  datatype Tlv = Tlv(tag: byte, body: Bytes, next: nat)

  /** `der_tlv(buf, i)`; `None` where an index is out of range. Slices past the end are cut short. */
  function DerTlv(buf: Bytes, i: nat): (r: Option<Tlv>)
    ensures r.Some? <==> i + 2 <= |buf|
    ensures r.Some? ==> |r.value.body| <= |buf| - i - 2 && r.value.next >= i + 2
  {
    if i + 2 > |buf| then None
    else
      var n: nat := buf[i + 1];
      if n >= 0x80 then
        var len := Be(Take(Drop(buf, i + 2), n - 0x80));
        var j := i + 2 + (n - 0x80);
        Some(Tlv(buf[i], Take(Drop(buf, j), len), j + len))
      else
        Some(Tlv(buf[i], Take(Drop(buf, i + 2), n), i + 2 + n))
  }

  /** `int.from_bytes(v, "big", signed=True)`. */
  function Signed(v: Bytes): int {
    if v != [] && v[0] >= 0x80 then Be(v) - Pow256(|v|) else Be(v)
  }

  function DecodeSeq(decode: Decode, buf: Bytes): Option<seq<Val>>
    decreases 2 * |buf|
  {
    var tlv :- DerTlv(buf, 0);
    if tlv.tag != SEQUENCE then None else DecodeItems(decode, tlv.body)
  }

  function DecodeItems(decode: Decode, body: Bytes): Option<seq<Val>>
    decreases 2 * |body| + 2
  {
    if |body| == 0 then Some([]) else
      var tlv :- DerTlv(body, 0);
      var val :- DecodeValue(decode, tlv.tag, tlv.body);
      var vals :- DecodeItems(decode, Drop(body, tlv.next));
      Some([val] + vals)
  }

  /** One element: a short inner sequence is wrapped again and decoded by the same function. */
  function DecodeValue(decode: Decode, tag: byte, v: Bytes): Option<Val>
    decreases 2 * |v| + 5
  {
    if tag == SEQUENCE && |v| < 0x80 then
      var items :- DecodeSeq(decode, [SEQUENCE, |v|] + v);
      Some(List(items))
    else Some(Simple(decode, tag, v))
  }

  function Simple(decode: Decode, tag: byte, v: Bytes): Val {
    if IsText(tag) then Str(decode(v))
    else if tag == INTEGER then Int(Signed(v))
    else if tag == BOOLEAN then Bool(v != [0])
    else if tag == SEQUENCE then Nested
    else Other(tag, v)
  }

  /** `der_seq`: one loop over the elements, calling itself on short inner sequences. */
  method DerSeq(decode: Decode, buf: Bytes) returns (r: Option<seq<Val>>)
    ensures r == DecodeSeq(decode, buf)
    decreases |buf|, 1
  {
    var outer := DerTlv(buf, 0);
    if outer.None? || outer.value.tag != SEQUENCE {
      return None;
    }
    var body := outer.value.body;
    var out: seq<Val> := [];
    var i := 0;
    StartItems(decode, body);
    while i < |body|
      invariant ItemsRead(decode, out, body, i)
      decreases |body| - i
    {
      ItemRead(decode, out, body, i);
      var tlv := DerTlv(body, i);
      if tlv.None? {
        return None;
      }
      var Tlv(t, v, next) := tlv.value;
      var val := DerValue(decode, t, v);
      if val.None? {
        return None;
      }
      out := out + [val.value];
      i := next;
    }
    AllItems(decode, out, body, i);
    return Some(out);
  }

  /** The body of the loop: what one element is appended as. */
  method DerValue(decode: Decode, t: byte, v: Bytes) returns (val: Option<Val>)
    ensures val == DecodeValue(decode, t, v)
    decreases |v| + 3, 0
  {
    if IsText(t) {
      return Some(Str(decode(v)));
    } else if t == INTEGER {
      return Some(Int(Signed(v)));
    } else if t == BOOLEAN {
      return Some(Bool(v != [0]));
    } else if t == SEQUENCE {
      if |v| >= 0x80 {
        return Some(Nested);
      }
      var inner := DerSeq(decode, [SEQUENCE, |v|] + v);
      return if inner.None? then None else Some(List(inner.value));
    } else {
      return Some(Other(t, v));
    }
  }

  /** The loop invariant: the values in `out`, then whatever the bytes from `i` on decode to. */
  ghost predicate ItemsRead(decode: Decode, out: seq<Val>, body: Bytes, i: nat) {
    var rest := DecodeItems(decode, Drop(body, i));
    DecodeItems(decode, body) == if rest.None? then None else Some(out + rest.value)
  }

  lemma StartItems(decode: Decode, body: Bytes)
    ensures ItemsRead(decode, [], body, 0)
  {
    assert Drop(body, 0) == body;
    var rest := DecodeItems(decode, body);
    if rest.Some? {
      assert [] + rest.value == rest.value;
    }
  }

  lemma ItemRead(decode: Decode, out: seq<Val>, body: Bytes, i: nat)
    requires ItemsRead(decode, out, body, i) && i < |body|
    ensures var tlv := DerTlv(body, i);
            if tlv.None? then DecodeItems(decode, body) == None else
            var val := DecodeValue(decode, tlv.value.tag, tlv.value.body);
            if val.None? then DecodeItems(decode, body) == None
            else ItemsRead(decode, out + [val.value], body, tlv.value.next)
  {
    TlvShift(body, i);
    var tlv := DerTlv(body, i);
    if tlv.Some? && DecodeValue(decode, tlv.value.tag, tlv.value.body).Some? {
      var val := DecodeValue(decode, tlv.value.tag, tlv.value.body).value;
      var rest := DecodeItems(decode, Drop(body, tlv.value.next));
      if rest.Some? {
        Assoc(out, [val], rest.value);
      }
    }
  }

  lemma AllItems(decode: Decode, out: seq<Val>, body: Bytes, i: nat)
    requires ItemsRead(decode, out, body, i) && i >= |body|
    ensures DecodeItems(decode, body) == Some(out)
  {
    assert Drop(body, i) == [] && out + [] == out;
  }

  /** An element read in the middle of a buffer is the element read at the front of the rest. */
  lemma TlvShift(body: Bytes, i: nat)
    requires i <= |body|
    ensures DerTlv(body, i).None? <==> DerTlv(body[i..], 0).None?
    ensures DerTlv(body, i).Some? ==>
              var a, b := DerTlv(body, i).value, DerTlv(body[i..], 0).value;
              a.tag == b.tag && a.body == b.body && a.next == i + b.next
              && Drop(body, a.next) == Drop(body[i..], b.next)
  {
    hide Be, Take;
    if i + 2 <= |body| {
      var n: nat := body[i + 1];
      assert body[i..][1] == n && body[i..] == Drop(body, i);
      DropDrop(body, i, 2);
      if n >= 0x80 {
        DropDrop(body, i, 2 + (n - 0x80));
      }
      DropDrop(body, i, DerTlv(body[i..], 0).value.next);
    }
  }

  // ---- An encoder ----

  datatype Elem =
    | Text(kind: byte, text: Bytes)
    | Integer(n: int)
    | Boolean(b: bool)
    | Sequence(items: seq<Elem>)
    | Foreign(tag: byte, bytes: Bytes)

  /** Two's complement in as few bytes as possible (section 8.3 of ITU-T X.690). */
  function SignedBytes(n: int): (s: Bytes)
    ensures s != []
    decreases if n < 0 then -n else n
  {
    if -128 <= n < 128 then [n % 256] else SignedBytes(n / 256) + [n % 256]
  }

  function MinBytes(n: nat): Bytes {
    if n == 0 then [] else MinBytes(n / 256) + [n % 256]
  }

  /** The definite form of section 8.1.3 of ITU-T X.690. */
  function Length(n: nat): Bytes
    requires |MinBytes(n)| <= 126
  {
    if n < 0x80 then [n] else [0x80 + |MinBytes(n)|] + MinBytes(n)
  }

  function TagOf(e: Elem): byte {
    match e
    case Text(kind, _) => kind
    case Integer(_) => 0x02
    case Boolean(_) => 0x01
    case Sequence(_) => 0x30
    case Foreign(tag, _) => tag
  }

  /** Tags that say what they mean, and contents whose length the definite form can express. */
  predicate Wf(e: Elem)
    decreases e, 1
  {
    && (e.Text? ==> e.kind in {0x0c, 0x13, 0x16})
    && (e.Foreign? ==> e.tag !in {0x0c, 0x13, 0x16, 0x02, 0x01, 0x30})
    && (e.Sequence? ==> WfAll(e.items))
    && |MinBytes(|Body(e)|)| <= 126
  }

  predicate WfAll(es: seq<Elem>)
    decreases es, 0
  {
    es != [] ==> Wf(es[0]) && WfAll(es[1..])
  }

  function Body(e: Elem): Bytes
    decreases e, 1
  {
    match e
    case Text(_, text) => text
    case Integer(n) => SignedBytes(n)
    case Boolean(b) => if b then [0xff] else [0]
    case Sequence(items) => Bodies(items)
    case Foreign(_, bytes) => bytes
  }

  /** The encodings of the elements in order. */
  function Bodies(es: seq<Elem>): Bytes
    decreases es, 0
  {
    if |es| == 0 then [] else
      var e := es[0];
      Tagged(TagOf(e), Body(e)) + Bodies(es[1..])
  }

  function Tagged(tag: byte, body: Bytes): Bytes {
    if |MinBytes(|body|)| <= 126 then [tag] + Length(|body|) + body else []
  }

  function Encode(e: Elem): Bytes {
    Tagged(TagOf(e), Body(e))
  }

  // ---- Round trip ----

  /** What decoding makes of an element. */
  function Decoded(decode: Decode, e: Elem): Val
    decreases e, 1
  {
    match e
    case Sequence(items) => if |Body(e)| < 0x80 then List(DecodedAll(decode, items)) else Nested
    case Text(_, text) => Str(decode(text))
    case Integer(n) => Int(n)
    case Boolean(b) => Bool(b)
    case Foreign(tag, bytes) => Other(tag, bytes)
  }

  function DecodedAll(decode: Decode, es: seq<Elem>): (r: seq<Val>)
    ensures |r| == |es|
    decreases es, 0
  {
    if |es| == 0 then [] else [Decoded(decode, es[0])] + DecodedAll(decode, es[1..])
  }

  lemma {:induction false} MinBytesValue(n: nat)
    ensures Be(MinBytes(n)) == n
    ensures n > 0 ==> MinBytes(n) != []
  {
    if n == 0 {
    } else {
      MinBytesValue(n / 256);
      assert MinBytes(n)[..|MinBytes(n)| - 1] == MinBytes(n / 256);
    }
  }

  /** One byte more at the end keeps the sign. */
  lemma SignedLonger(p: Bytes, x: byte)
    requires p != []
    ensures Signed(p + [x]) == 256 * Signed(p) + x
  {
    var s := p + [x];
    assert s[..|s| - 1] == p;
    assert s[|s| - 1] == x && s[0] == p[0];
    assert Be(s) == 256 * Be(p) + x;
    assert Pow256(|s|) == 256 * Pow256(|p|);
  }

  lemma {:induction false} SignedRoundTrip(n: int)
    ensures Signed(SignedBytes(n)) == n
    decreases if n < 0 then -n else n
  {
    var s := SignedBytes(n);
    if -128 <= n < 128 {
      assert s[..0] == [];
      assert Be(s) == n % 256 && Pow256(1) == 256 * Pow256(0);
    } else {
      SignedRoundTrip(n / 256);
      SignedLonger(SignedBytes(n / 256), n % 256);
    }
  }

  /** No shorter encoding exists: the first nine bits are not all alike. */
  lemma {:induction false} SignedMinimal(n: int)
    ensures var s := SignedBytes(n);
            |s| > 1 ==> !(s[0] == 0 && s[1] < 0x80) && !(s[0] == 0xff && s[1] >= 0x80)
    decreases if n < 0 then -n else n
  {
    if -128 <= n < 128 {
    } else {
      SignedMinimal(n / 256);
      var p := SignedBytes(n / 256);
      if |p| == 1 {
        assert p == [n / 256 % 256];
      }
    }
  }

  lemma TaggedRead(tag: byte, body: Bytes, rest: Bytes)
    requires |MinBytes(|body|)| <= 126
    ensures var s := Tagged(tag, body) + rest;
            && DerTlv(s, 0) == Some(Tlv(tag, body, |Tagged(tag, body)|))
            && Drop(s, |Tagged(tag, body)|) == rest
  {
    hide DerTlv, MinBytes, Be, Drop;
    var len := MinBytes(|body|);
    MinBytesValue(|body|);
    if |body| < 0x80 {
      ShortRead(tag, body, rest);
    } else {
      LongRead(tag, len, [tag] + Length(|body|), body, rest);
    }
    TakeAppend(Tagged(tag, body), rest);
  }

  lemma ShortRead(tag: byte, body: Bytes, rest: Bytes)
    requires |body| < 0x80
    ensures DerTlv([tag] + [|body|] + body + rest, 0) == Some(Tlv(tag, body, 2 + |body|))
  {
    var s := [tag] + [|body|] + body + rest;
    assert Drop(s, 2) == body + rest;
    TakeAppend(body, rest);
  }

  lemma LongRead(tag: byte, len: Bytes, head: Bytes, body: Bytes, rest: Bytes)
    requires 0 < |len| <= 126 && Be(len) == |body|
    requires head == [tag] + ([0x80 + |len|] + len)
    ensures DerTlv(head + body + rest, 0) == Some(Tlv(tag, body, 2 + |len| + |body|))
  {
    Assoc(head, body, rest);
    LongShape(tag, 0x80 + |len|, len, body + rest);
    LongTlv(head + (body + rest), tag, len, body, rest);
  }

  /** The length byte 0x80, which announces no length bytes, is read as an empty body. */
  lemma NoLengthBytes(tag: byte, rest: Bytes)
    ensures DerTlv([tag, 0x80] + rest, 0) == Some(Tlv(tag, [], 2))
  {
    var s := [tag, 0x80] + rest;
    assert s[0] == tag && s[1] == 0x80;
    assert Take(Drop(s, 2), 0) == [] && Be([]) == 0;
  }

  /** In the long form any number of length bytes is taken, leading zeros and all. */
  lemma LongTlv(s: Bytes, tag: byte, len: Bytes, body: Bytes, rest: Bytes)
    requires 0 < |len| <= 126 && Be(len) == |body|
    requires |s| >= 2 && s[0] == tag && s[1] == 0x80 + |len|
    requires Drop(s, 2) == len + (body + rest) && Drop(s, 2 + |len|) == body + rest
    ensures DerTlv(s, 0) == Some(Tlv(tag, body, 2 + |len| + |body|))
  {
    TakeAppend(len, body + rest);
    TakeAppend(body, rest);
  }

  lemma LongShape(tag: byte, first: byte, len: Bytes, more: Bytes)
    ensures var s := [tag] + ([first] + len) + more;
            s[0] == tag && s[1] == first && |s| >= 2 && Drop(s, 2) == len + more && Drop(s, 2 + |len|) == more
  {
  }

  /** The two bytes the decoder puts in front of a short inner body rebuild the original encoding. */
  lemma RewrapIdentical(items: seq<Elem>)
    requires |Bodies(items)| < 0x80
    ensures [SEQUENCE, |Bodies(items)|] + Bodies(items) == Encode(Sequence(items))
  {
    assert MinBytes(|Bodies(items)| / 256) == [];
  }

  lemma {:induction false} ItemsRoundTrip(decode: Decode, es: seq<Elem>)
    requires WfAll(es)
    ensures DecodeItems(decode, Bodies(es)) == Some(DecodedAll(decode, es))
    decreases es, 0
  {
    if es == [] {
    } else {
      var e, rest := es[0], Bodies(es[1..]);
      TaggedRead(TagOf(e), Body(e), rest);
      ElemRoundTrip(decode, e);
      ItemsRoundTrip(decode, es[1..]);
    }
  }

  /** What the decoder makes of the element's tag and body. */
  lemma {:induction false} ElemRoundTrip(decode: Decode, e: Elem)
    requires Wf(e)
    ensures DecodeValue(decode, TagOf(e), Body(e)) == Some(Decoded(decode, e))
    decreases e, 1
  {
    match e
    case Sequence(items) =>
      if |Bodies(items)| < 0x80 {
        RewrapIdentical(items);
        SequenceRoundTrip(decode, items);
        InnerValue(decode, Bodies(items), DecodedAll(decode, items));
      } else {
        LongValue(decode, Bodies(items));
      }
    case Integer(n) =>
      SignedRoundTrip(n);
      SimpleValue(decode, INTEGER, Body(e));
    case _ => SimpleValue(decode, TagOf(e), Body(e));
  }

  lemma InnerValue(decode: Decode, v: Bytes, items: seq<Val>)
    requires |v| < 0x80 && DecodeSeq(decode, [SEQUENCE, |v|] + v) == Some(items)
    ensures DecodeValue(decode, SEQUENCE, v) == Some(List(items))
  {
    hide DecodeSeq;
  }

  lemma LongValue(decode: Decode, v: Bytes)
    requires |v| >= 0x80
    ensures DecodeValue(decode, SEQUENCE, v) == Some(Nested)
  {
  }

  lemma SimpleValue(decode: Decode, tag: byte, v: Bytes)
    requires tag != SEQUENCE
    ensures DecodeValue(decode, tag, v) == Some(Simple(decode, tag, v))
  {
  }

  /** What the decoder makes of any body under each tag, whoever encoded it. */
  lemma TagMeaning(decode: Decode, tag: byte, v: Bytes)
    requires tag != 0x30
    ensures DecodeValue(decode, tag, v) ==
            Some(if tag == 0x0c || tag == 0x13 || tag == 0x16 then Str(decode(v))
                 else if tag == 0x02 then Int(if v != [] && v[0] >= 128 then Be(v) - Pow256(|v|) else Be(v))
                 else if tag == 0x01 then Bool(!(|v| == 1 && v[0] == 0))
                 else Other(tag, v))
  {
    hide Be, Pow256;
  }

  /** Every encoded sequence decodes to its values in order; inner sequences whose body takes 128 bytes or more
      come back as the word `Nested`. */
  lemma {:induction false} SequenceRoundTrip(decode: Decode, items: seq<Elem>)
    requires Wf(Sequence(items))
    ensures DecodeSeq(decode, Encode(Sequence(items))) == Some(DecodedAll(decode, items))
    decreases items, 1
  {
    var e := Sequence(items);
    TaggedRead(SEQUENCE, Body(e), []);
    assert Encode(e) + [] == Encode(e);
    ItemsRoundTrip(decode, items);
  }

  // ---- When nothing is lost ----

  /** The value an element stands for. */
  function Meaning(decode: Decode, e: Elem): Val
    decreases e, 1
  {
    if e.Sequence? then List(MeaningAll(decode, e.items)) else Decoded(decode, e)
  }

  function MeaningAll(decode: Decode, es: seq<Elem>): (r: seq<Val>)
    ensures |r| == |es|
    decreases es, 0
  {
    if |es| == 0 then [] else [Meaning(decode, es[0])] + MeaningAll(decode, es[1..])
  }

  /** Every inner sequence, at any depth, has a body under 128 bytes. */
  predicate AllShort(es: seq<Elem>)
    decreases es, 0
  {
    es != [] ==> Short(es[0]) && AllShort(es[1..])
  }

  predicate Short(e: Elem)
    decreases e, 1
  {
    e.Sequence? ==> |Body(e)| < 0x80 && AllShort(e.items)
  }

  /** The decoder recovers the whole meaning exactly when no inner sequence is long. */
  lemma {:induction false} FaithfulIffShort(decode: Decode, es: seq<Elem>)
    ensures DecodedAll(decode, es) == MeaningAll(decode, es) <==> AllShort(es)
    decreases es, 0
  {
    if es == [] {
    } else {
      FaithfulElem(decode, es[0]);
      FaithfulIffShort(decode, es[1..]);
      assert DecodedAll(decode, es)[1..] == DecodedAll(decode, es[1..])
        && DecodedAll(decode, es)[0] == Decoded(decode, es[0]);
      assert MeaningAll(decode, es)[1..] == MeaningAll(decode, es[1..])
        && MeaningAll(decode, es)[0] == Meaning(decode, es[0]);
    }
  }

  lemma {:induction false} FaithfulElem(decode: Decode, e: Elem)
    ensures Decoded(decode, e) == Meaning(decode, e) <==> Short(e)
    decreases e, 1
  {
    if e.Sequence? {
      FaithfulIffShort(decode, e.items);
    }
  }

  /** So the decoder returns what a sequence stands for exactly when no inner sequence takes 128 bytes or more. */
  lemma DecodeFaithful(decode: Decode, items: seq<Elem>)
    requires Wf(Sequence(items))
    ensures DecodeSeq(decode, Encode(Sequence(items))) == Some(MeaningAll(decode, items)) <==> AllShort(items)
  {
    SequenceRoundTrip(decode, items);
    FaithfulIffShort(decode, items);
  }

  /** The limit is met by one text of 126 bytes inside a SEQUENCE inside a SEQUENCE; one byte less and it comes back. */
  lemma NestedAtTheLimit(decode: Decode, text: Bytes)
    requires |text| == 125 || |text| == 126
    ensures var inner := [Text(0x0c, text)];
            && DecodeSeq(decode, Encode(Sequence(inner))) == Some([Str(decode(text))])
            && DecodeSeq(decode, Encode(Sequence([Sequence(inner)])))
               == Some([if |text| == 125 then List([Str(decode(text))]) else Nested])
  {
    var e := Text(0x0c, text);
    var inner := [e];
    var outer := [Sequence(inner)];
    OneElem(decode, e);
    SmallLength(|text|);
    SmallLength(|text| + 2);
    OneElem(decode, Sequence(inner));
    SmallLength(|Bodies(outer)|);
    SequenceRoundTrip(decode, inner);
    SequenceRoundTrip(decode, outer);
    assert DecodedAll(decode, inner) == [Str(decode(text))];
  }

  lemma OneElem(decode: Decode, e: Elem)
    ensures Bodies([e]) == Encode(e) && (WfAll([e]) <==> Wf(e)) && DecodedAll(decode, [e]) == [Decoded(decode, e)]
  {
    assert [e][1..] == [];
    assert Encode(e) + [] == Encode(e);
  }

  lemma SmallLength(n: nat)
    requires n < 0x1_0000
    ensures |MinBytes(n)| <= 2
    ensures n < 0x100 ==> |MinBytes(n)| <= 1
  {
    assert MinBytes(n / 256 / 256) == [];
  }

  // ---- Sequences that end too early ----

  /** The bytes of an element in front of its body. */
  function HeaderLength(body: Bytes): nat {
    if |body| < 0x80 then 2 else 2 + |MinBytes(|body|)|
  }

  /** What is left of the body when the element keeps `n` bytes. */
  function Kept(body: Bytes, n: nat): Bytes {
    if n <= HeaderLength(body) then [] else Take(body, n - HeaderLength(body))
  }

  /** Cutting the encodings of these elements after `n` bytes leaves one byte of an element, here or inside an inner
      sequence with less than 128 bytes left. */
  predicate Splits(es: seq<Elem>, n: nat)
    decreases es, 0
  {
    if |es| == 0 || n == 0 then false
    else if n >= |Encode(es[0])| then Splits(es[1..], n - |Encode(es[0])|)
    else n == 1 || SplitsInside(es[0], n)
  }

  predicate SplitsInside(e: Elem, n: nat)
    decreases e, 1
  {
    e.Sequence? && |Kept(Body(e), n)| < 0x80 && Splits(e.items, |Kept(Body(e), n)|)
  }

  /** An element cut after its first byte is read with what is left of its body. */
  lemma CutTlv(tag: byte, body: Bytes, n: nat)
    requires |MinBytes(|body|)| <= 126 && 2 <= n < |Tagged(tag, body)|
    ensures var tlv := DerTlv(Tagged(tag, body)[..n], 0);
            tlv.Some? && tlv.value.tag == tag && tlv.value.body == Kept(body, n) && tlv.value.next >= n
  {
    hide DerTlv, MinBytes, Be, Take;
    var len := MinBytes(|body|);
    MinBytesValue(|body|);
    if |body| < 0x80 {
      CutShort(tag, body, n);
    } else {
      CutLong([tag] + Length(|body|), tag, body, len, n);
    }
  }

  lemma CutShort(tag: byte, body: Bytes, n: nat)
    requires |body| < 0x80 && 2 <= n < 2 + |body|
    ensures DerTlv(([tag] + [|body|] + body)[..n], 0) == Some(Tlv(tag, Take(body, n - 2), 2 + |body|))
  {
    var s := ([tag] + [|body|] + body)[..n];
    assert s[2..] == body[..n - 2];
  }

  lemma CutLong(header: Bytes, tag: byte, body: Bytes, len: Bytes, n: nat)
    requires 0 < |len| <= 126 && Be(len) == |body| && 2 <= n < 2 + |len| + |body|
    requires header == [tag] + ([0x80 + |len|] + len)
    ensures var tlv := DerTlv((header + body)[..n], 0);
            && tlv.Some? && tlv.value.tag == tag && tlv.value.next >= n
            && tlv.value.body == if n <= 2 + |len| then [] else Take(body, n - 2 - |len|)
  {
    hide Be, DerTlv, Drop;
    LongHeader(header, tag, len, []);
    TakeConcat(header, body, n);
    if n <= 2 + |len| {
      CutInLength(header[..n], tag, |len|);
    } else {
      LongHeader(header, tag, len, body[..n - 2 - |len|]);
      CutLongBody(header, tag, len, body[..n - 2 - |len|], |body|);
    }
  }

  lemma LongHeader(header: Bytes, tag: byte, len: Bytes, more: Bytes)
    requires |len| <= 126 && header == [tag] + ([0x80 + |len|] + len)
    ensures |header| == 2 + |len| && header[0] == tag && header[1] == 0x80 + |len|
    ensures Drop(header + more, 2) == len + more && Drop(header + more, 2 + |len|) == more
  {
    LongShape(tag, 0x80 + |len|, len, more);
  }

  lemma CutLongBody(header: Bytes, tag: byte, len: Bytes, kept: Bytes, announced: nat)
    requires 0 < |len| <= 126 && Be(len) == announced && |kept| < announced
    requires |header| == 2 + |len| && header[0] == tag && header[1] == 0x80 + |len|
    requires Drop(header + kept, 2) == len + kept && Drop(header + kept, 2 + |len|) == kept
    ensures var tlv := DerTlv(header + kept, 0);
            tlv.Some? && tlv.value.tag == tag && tlv.value.body == kept && tlv.value.next >= |header + kept|
  {
    hide Be, DerTlv, Drop;
    CutInBody(header + kept, tag, len, kept, announced);
  }

  lemma CutInLength(s: Bytes, tag: byte, k: nat)
    requires 0 < k <= 126 && 2 <= |s| <= 2 + k && s[0] == tag && s[1] == 0x80 + k
    ensures var tlv := DerTlv(s, 0);
            tlv.Some? && tlv.value.tag == tag && tlv.value.body == [] && tlv.value.next >= |s|
  {
    hide Be;
  }

  lemma CutInBody(s: Bytes, tag: byte, len: Bytes, kept: Bytes, announced: nat)
    requires 0 < |len| <= 126 && Be(len) == announced && |kept| < announced
    requires |s| == 2 + |len| + |kept| && s[0] == tag && s[1] == 0x80 + |len|
    requires Drop(s, 2) == len + kept && Drop(s, 2 + |len|) == kept
    ensures var tlv := DerTlv(s, 0);
            tlv.Some? && tlv.value.tag == tag && tlv.value.body == kept && tlv.value.next >= |s|
  {
    TakeAppend(len, kept);
    hide Be;
  }

  /** The elements before the cut are decoded as they would be alone. */
  lemma ItemBefore(decode: Decode, e: Elem, rest: Bytes)
    requires Wf(e)
    ensures DecodeItems(decode, Encode(e) + rest).None? <==> DecodeItems(decode, rest).None?
  {
    TaggedRead(TagOf(e), Body(e), rest);
    ElemRoundTrip(decode, e);
    hide DerTlv, DecodeValue, Tagged, Body;
  }

  /** Elements cut after `n` bytes raise exactly when the cut leaves one byte of one of them, at any depth. Everything
      else is returned, the last value made of whatever is left of its bytes. */
  lemma {:induction false} CutItems(decode: Decode, es: seq<Elem>, n: nat)
    requires WfAll(es) && n <= |Bodies(es)|
    ensures DecodeItems(decode, Bodies(es)[..n]).None? <==> Splits(es, n)
    decreases es, 0
  {
    if es == [] || n == 0 {
    } else {
      var first := Encode(es[0]);
      assert Bodies(es) == first + Bodies(es[1..]);
      hide DecodeItems, Encode, Bodies, SplitsInside;
      if n >= |first| {
        assert Bodies(es)[..n] == first + Bodies(es[1..])[..n - |first|];
        ItemBefore(decode, es[0], Bodies(es[1..])[..n - |first|]);
        CutItems(decode, es[1..], n - |first|);
      } else {
        assert Bodies(es)[..n] == first[..n];
        CutElem(decode, es[0], n);
      }
    }
  }

  lemma {:induction false} CutElem(decode: Decode, e: Elem, n: nat)
    requires Wf(e) && 0 < n < |Encode(e)|
    ensures DecodeItems(decode, Encode(e)[..n]).None? <==> n == 1 || SplitsInside(e, n)
    decreases e, 1
  {
    if n > 1 {
      CutTlv(TagOf(e), Body(e), n);
      var kept := Kept(Body(e), n);
      LastItem(decode, Encode(e)[..n]);
      if e.Sequence? && |kept| < 0x80 {
        assert kept == Bodies(e.items)[..|kept|];
        CutItems(decode, e.items, |kept|);
        Rewrapped(decode, kept);
      }
    }
  }

  /** A body whose only element reaches past its end. */
  lemma LastItem(decode: Decode, body: Bytes)
    requires DerTlv(body, 0).Some? && DerTlv(body, 0).value.next >= |body|
    ensures var tlv := DerTlv(body, 0).value;
            DecodeItems(decode, body).None? <==> DecodeValue(decode, tlv.tag, tlv.body).None?
  {
    assert Drop(body, DerTlv(body, 0).value.next) == [];
    hide DerTlv, DecodeValue;
  }

  lemma Rewrapped(decode: Decode, v: Bytes)
    requires |v| < 0x80
    ensures DecodeSeq(decode, [SEQUENCE, |v|] + v) == DecodeItems(decode, v)
  {
    hide DecodeItems, DecodeValue, DerTlv;
    RewrappedTlv(v);
  }

  lemma RewrappedTlv(v: Bytes)
    requires |v| < 0x80
    ensures DerTlv([SEQUENCE, |v|] + v, 0) == Some(Tlv(SEQUENCE, v, 2 + |v|))
  {
    hide Be;
    var s := [SEQUENCE, |v|] + v;
    assert Drop(s, 2) == v && Take(v, |v|) == v;
  }

  /** The SEQUENCE of the INTEGER 256, and the same without its last byte. */
  lemma CutInteger(decode: Decode)
    ensures DecodeSeq(decode, [0x30, 4, 0x02, 2, 1, 0]) == Some([Int(256)])
    ensures DecodeSeq(decode, [0x30, 4, 0x02, 2, 1]) == Some([Int(1)])
  {
    OneInteger(decode, [0x30, 4, 0x02, 2, 1, 0], [1, 0]);
    OneInteger(decode, [0x30, 4, 0x02, 2, 1], [1]);
    assert [1, 0][..1] == [1] && [1][..0] == [];
    assert Be([1]) == 1 && Be([1, 0]) == 256;
  }

  lemma OneInteger(decode: Decode, s: Bytes, v: Bytes)
    requires s == [0x30, 4, 0x02, 2] + v && 0 < |v| <= 2
    ensures DecodeSeq(decode, s) == Some([Int(Signed(v))])
  {
    hide Be, Pow256;
    var body := [0x02, 2] + v;
    assert Drop(s, 2) == body && Drop(body, 2) == v;
    assert Take(body, 4) == body && Take(v, 2) == v;
    assert DerTlv(s, 0) == Some(Tlv(0x30, body, 6));
    assert DerTlv(body, 0) == Some(Tlv(0x02, v, 4));
    assert Drop(body, 4) == [];
    SimpleValue(decode, 0x02, v);
    assert DecodeItems(decode, []) == Some([]);
    hide DerTlv, DecodeValue, Signed;
    assert [Int(Signed(v))] + [] == [Int(Signed(v))];
    assert DecodeItems(decode, body) == Some([Int(Signed(v))]);
  }
}
