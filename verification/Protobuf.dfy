/** The protobuf decoder of gcp-cvm/gcp_verify.py and its inverse. */
module Protobuf {
  import opened Octets
  import opened Hexadecimal

  /** A decoded value: a number, or length-delimited bytes as text where they are printable and as hex elsewhere. */
  datatype Val = Number(n: nat) | Shown(text: string)

  /** Text of bytes that decode as UTF-8 and are printable. */
  type Printable = Bytes -> Option<string>

  function Show(p: Printable, raw: Bytes): Val {
    match p(raw)
    case Some(text) => Shown(text)
    case None => Shown(Hex(raw))
  }

  // ---- The decoder ----

  /** A base-128 varint at the front of `s`; `None` where the buffer ends inside it. */
  function Varint(s: Bytes): (r: Option<(nat, Bytes)>)
    ensures r.Some? ==> |r.value.1| < |s|
  {
    if |s| == 0 then None
    else if s[0] < 0x80 then Some((s[0], s[1..]))
    else
      var (v, rest) :- Varint(s[1..]);
      Some((s[0] - 0x80 + 0x80 * v, rest))
  }

  predicate IsWireType(wt: nat) {
    wt == 0 || wt == 1 || wt == 2 || wt == 5
  }

  /** The value of wire type `wt`, and what follows it. */
  function WireValue(p: Printable, wt: nat, s: Bytes): (r: Option<(Val, Bytes)>)
    requires IsWireType(wt)
    ensures r.Some? ==> |r.value.1| <= |s|
  {
    if wt == 0 then
      var (v, rest) :- Varint(s);
      Some((Number(v), rest))
    else if wt == 2 then
      var (n, rest) :- Varint(s);
      Some((Show(p, Take(rest, n)), Drop(rest, n)))
    else
      var k := if wt == 1 then 8 else 4;
      if |s| < k then None else Some((Number(Le(s[..k])), s[k..]))
  }

  datatype Field = Field(num: nat, val: Val)

  /** The fields in order, up to the first unknown wire type; `None` where the buffer ends inside a field. */
  function Fields(p: Printable, s: Bytes): Option<seq<Field>>
    decreases |s|
  {
    if |s| == 0 then Some([]) else
      var (tag, s1) :- Varint(s);
      if !IsWireType(tag % 8) then Some([]) else
        var (val, s2) :- WireValue(p, tag % 8, s1);
        var rest :- Fields(p, s2);
        Some([Field(tag / 8, val)] + rest)
  }

  /** `out.setdefault(fld, []).append(val)`. */
  function Added(out: map<nat, seq<Val>>, f: Field): map<nat, seq<Val>> {
    out[f.num := (if f.num in out then out[f.num] else []) + [f.val]]
  }

  function Grouped(out: map<nat, seq<Val>>, fields: seq<Field>): map<nat, seq<Val>>
    decreases fields
  {
    if |fields| == 0 then out else Grouped(Added(out, fields[0]), fields[1..])
  }

  /** The fields of the buffer by number. */
  function Table(p: Printable, buf: Bytes): Option<map<nat, seq<Val>>> {
    var fields :- Fields(p, buf);
    Some(Grouped(map[], fields))
  }

  method PbDecode(p: Printable, buf: Bytes) returns (r: Option<map<nat, seq<Val>>>)
    ensures r == Table(p, buf)
  {
    var out: map<nat, seq<Val>> := map[];
    var i := 0;
    assert Drop(buf, 0) == buf;
    while i < |buf|
      invariant Remaining(p, buf, out, Drop(buf, i))
      decreases |buf| - i
    {
      FieldRead(p, buf, out, Drop(buf, i));
      var tag := ReadVarint(buf, i);
      if tag.None? {
        return None;
      }
      i := tag.value.1;
      var fld, wt := tag.value.0 / 8, tag.value.0 % 8;
      if !IsWireType(wt) {
        break;
      }
      var val := ReadValue(p, wt, buf, i);
      if val.None? {
        return None;
      }
      i := val.value.1;
      out := Added(out, Field(fld, val.value.0));
    }
    return Some(out);
  }

  /** The value of wire type `wt` at cursor `start`, and the cursor behind it, which a cut field leaves past the end. */
  method ReadValue(p: Printable, wt: nat, buf: Bytes, start: nat) returns (r: Option<(Val, nat)>)
    requires IsWireType(wt) && start <= |buf|
    ensures var v := WireValue(p, wt, buf[start..]);
            if v.None? then r == None
            else r.Some? && r.value.0 == v.value.0 && start <= r.value.1 && Drop(buf, r.value.1) == v.value.1
  {
    if wt == 0 {
      var v := ReadVarint(buf, start);
      return if v.None? then None else Some((Number(v.value.0), v.value.1));
    } else if wt == 2 {
      var n := ReadVarint(buf, start);
      if n.None? {
        return None;
      }
      var i := n.value.1;
      DropDrop(buf, i, n.value.0);
      return Some((Show(p, Take(buf[i..], n.value.0)), i + n.value.0));
    } else {
      var k := if wt == 1 then 8 else 4;
      if |buf| < start + k {
        return None;
      }
      assert buf[start..][k..] == buf[start + k..];
      return Some((Number(Le(buf[start..][..k])), start + k));
    }
  }

  /** `x << 7 * k`. */
  function Shift(x: nat, k: nat): nat {
    if k == 0 then x else 0x80 * Shift(x, k - 1)
  }

  /** The inner `varint`: the value and the cursor behind it. Each seven bits land above those already read (`v` stays
      below them), so the source's `|` is a sum. */
  method ReadVarint(buf: Bytes, start: nat) returns (r: Option<(nat, nat)>)
    requires start <= |buf|
    ensures var v := Varint(buf[start..]);
            if v.None? then r == None
            else r.Some? && r.value.0 == v.value.0 && start < r.value.1 <= |buf| && buf[r.value.1..] == v.value.1
  {
    var i: nat, v: nat, sh: nat := start, 0, 0;
    while true
      invariant start <= i <= |buf| && v < Shift(1, sh)
      invariant VarintFrom(buf[start..], buf[i..], v, sh)
      decreases |buf| - i
    {
      if i >= |buf| {
        return None;
      }
      var c := buf[i];
      VarintStep(buf[start..], buf[i..], v, sh);
      assert buf[i..][1..] == buf[i + 1..];
      i := i + 1;
      v := v + Shift(c % 0x80, sh);
      sh := sh + 1;
      if c < 0x80 {
        return Some((v, i));
      }
    }
  }

  /** `v` holds the first `sh` groups of the varint `whole`; `rest` holds the others. */
  ghost predicate VarintFrom(whole: Bytes, rest: Bytes, v: nat, sh: nat) {
    var w, r := Varint(whole), Varint(rest);
    if r.None? then w.None? else w == Some((v + Shift(r.value.0, sh), r.value.1))
  }

  lemma VarintStep(whole: Bytes, rest: Bytes, v: nat, sh: nat)
    requires VarintFrom(whole, rest, v, sh) && v < Shift(1, sh) && rest != []
    ensures var v' := v + Shift(rest[0] % 0x80, sh);
            && v' < Shift(1, sh + 1)
            && (rest[0] >= 0x80 ==> VarintFrom(whole, rest[1..], v', sh + 1))
            && (rest[0] < 0x80 ==> Varint(whole) == Some((v', rest[1..])))
  {
    var low: nat := rest[0] % 0x80;
    ShiftSum(low, 0x7f - low, sh);
    ShiftSum(0x7f, 1, sh);
    ShiftUp(1, sh);
    var r := Varint(rest[1..]);
    if rest[0] >= 0x80 && r.Some? {
      ShiftUp(r.value.0, sh);
      ShiftSum(low, 0x80 * r.value.0, sh);
    }
  }

  lemma {:induction false} ShiftSum(x: nat, y: nat, k: nat)
    ensures Shift(x + y, k) == Shift(x, k) + Shift(y, k)
  {
    if k == 0 {
    } else {
      ShiftSum(x, y, k - 1);
    }
  }

  lemma {:induction false} ShiftUp(x: nat, k: nat)
    ensures Shift(0x80 * x, k) == Shift(x, k + 1)
  {
    if k == 0 {
    } else {
      ShiftUp(x, k - 1);
    }
  }

  /** The loop invariant: the fields still to come complete the table of the whole buffer. */
  ghost predicate Remaining(p: Printable, buf: Bytes, out: map<nat, seq<Val>>, rest: Bytes) {
    var whole, more := Fields(p, buf), Fields(p, rest);
    if more.None? then whole.None? else whole.Some? && Grouped(out, more.value) == Grouped(map[], whole.value)
  }

  lemma FieldRead(p: Printable, buf: Bytes, out: map<nat, seq<Val>>, rest: Bytes)
    requires Remaining(p, buf, out, rest) && rest != []
    ensures var tag := Varint(rest);
            if tag.None? then Fields(p, buf).None? else
            var wt, s := tag.value.0 % 8, tag.value.1;
            if !IsWireType(wt) then Fields(p, buf).Some? && out == Grouped(map[], Fields(p, buf).value) else
            var val := WireValue(p, wt, s);
            if val.None? then Fields(p, buf).None? else
            Remaining(p, buf, Added(out, Field(tag.value.0 / 8, val.value.0)), val.value.1)
  {
  }

  // ---- The encoder ----

  datatype Wire = Int(n: nat) | Fixed64(n: nat) | Data(raw: Bytes) | Fixed32(n: nat)

  datatype WireField = WireField(num: nat, wire: Wire)

  predicate Fits(f: WireField) {
    match f.wire
    case Fixed64(n) => n < 0x1_0000_0000_0000_0000
    case Fixed32(n) => n < 0x1_0000_0000
    case _ => true
  }

  function EncodeVarint(n: nat): Bytes {
    if n < 0x80 then [n] else [0x80 + n % 0x80] + EncodeVarint(n / 0x80)
  }

  function WireType(w: Wire): nat {
    match w
    case Int(_) => 0
    case Fixed64(_) => 1
    case Data(_) => 2
    case Fixed32(_) => 5
  }

  function Payload(w: Wire): Bytes {
    match w
    case Int(n) => EncodeVarint(n)
    case Fixed64(n) => LeBytes(n, 8)
    case Data(raw) => EncodeVarint(|raw|) + raw
    case Fixed32(n) => LeBytes(n, 4)
  }

  function EncodeField(f: WireField): Bytes {
    EncodeVarint(8 * f.num + WireType(f.wire)) + Payload(f.wire)
  }

  function Encode(fs: seq<WireField>): Bytes {
    if |fs| == 0 then [] else EncodeField(fs[0]) + Encode(fs[1..])
  }

  function Meaning(p: Printable, w: Wire): Val {
    match w
    case Int(n) => Number(n)
    case Fixed64(n) => Number(n)
    case Data(raw) => Show(p, raw)
    case Fixed32(n) => Number(n)
  }

  function Meanings(p: Printable, fs: seq<WireField>): seq<Field> {
    if |fs| == 0 then [] else [Field(fs[0].num, Meaning(p, fs[0].wire))] + Meanings(p, fs[1..])
  }

  // ---- Round trips ----

  lemma {:induction false} VarintRoundTrip(n: nat, rest: Bytes)
    ensures Varint(EncodeVarint(n) + rest) == Some((n, rest))
  {
    var s := EncodeVarint(n) + rest;
    if n < 0x80 {
      assert s[1..] == rest;
    } else {
      VarintRoundTrip(n / 0x80, rest);
      assert s[1..] == EncodeVarint(n / 0x80) + rest;
    }
  }

  lemma PayloadRoundTrip(p: Printable, w: Wire, rest: Bytes)
    requires Fits(WireField(0, w))
    ensures WireValue(p, WireType(w), Payload(w) + rest) == Some((Meaning(p, w), rest))
  {
    Powers();
    match w
    case Int(n) => VarintRoundTrip(n, rest);
    case Fixed64(n) =>
      LeOfBytes(n, 8);
      assert (LeBytes(n, 8) + rest)[..8] == LeBytes(n, 8);
    case Fixed32(n) =>
      LeOfBytes(n, 4);
      assert (LeBytes(n, 4) + rest)[..4] == LeBytes(n, 4);
    case Data(raw) =>
      Assoc(EncodeVarint(|raw|), raw, rest);
      VarintRoundTrip(|raw|, raw + rest);
      TakeAppend(raw, rest);
  }

  /** The fields come back in their place, and what follows them is decoded as it would be alone. */
  lemma {:induction false} FieldsBefore(p: Printable, fs: seq<WireField>, rest: Bytes)
    requires forall i :: 0 <= i < |fs| ==> Fits(fs[i])
    ensures var more := Fields(p, rest);
            Fields(p, Encode(fs) + rest) == if more.None? then None else Some(Meanings(p, fs) + more.value)
  {
    if fs == [] {
      assert Encode(fs) + rest == rest;
      assert Fields(p, rest).Some? ==> [] + Fields(p, rest).value == Fields(p, rest).value;
    } else {
      FieldsBefore(p, fs[1..], rest);
      Assoc(EncodeField(fs[0]), Encode(fs[1..]), rest);
      FieldBefore(p, fs[0], Encode(fs[1..]) + rest);
      if Fields(p, rest).Some? {
        Assoc([Field(fs[0].num, Meaning(p, fs[0].wire))], Meanings(p, fs[1..]), Fields(p, rest).value);
      }
    }
  }

  lemma FieldBefore(p: Printable, f: WireField, rest: Bytes)
    requires Fits(f)
    ensures var more := Fields(p, rest);
            Fields(p, EncodeField(f) + rest)
            == if more.None? then None else Some([Field(f.num, Meaning(p, f.wire))] + more.value)
  {
    var tag := 8 * f.num + WireType(f.wire);
    var s1 := Payload(f.wire) + rest;
    Assoc(EncodeVarint(tag), Payload(f.wire), rest);
    VarintRoundTrip(tag, s1);
    PayloadRoundTrip(p, f.wire, rest);
    TagParts(f.num, WireType(f.wire));
    FieldStep(p, EncodeVarint(tag) + s1, tag, s1);
  }

  /** One turn of the decoder on a known wire type. */
  lemma FieldStep(p: Printable, s: Bytes, tag: nat, s1: Bytes)
    requires Varint(s) == Some((tag, s1)) && IsWireType(tag % 8)
    ensures var val := WireValue(p, tag % 8, s1);
            Fields(p, s) ==
            if val.None? || Fields(p, val.value.1).None? then None
            else Some([Field(tag / 8, val.value.0)] + Fields(p, val.value.1).value)
  {
  }

  /** The whole buffer is consumed and every field comes back in its place. */
  lemma FieldsRoundTrip(p: Printable, fs: seq<WireField>)
    requires forall i :: 0 <= i < |fs| ==> Fits(fs[i])
    ensures Fields(p, Encode(fs)) == Some(Meanings(p, fs))
  {
    FieldsBefore(p, fs, []);
    assert Encode(fs) + [] == Encode(fs) && Meanings(p, fs) + [] == Meanings(p, fs);
  }

  lemma TagParts(num: nat, wt: nat)
    requires wt < 8
    ensures (8 * num + wt) / 8 == num && (8 * num + wt) % 8 == wt
  {
  }

  /** The values of one field, in order. */
  function Values(fields: seq<Field>, num: nat): seq<Val> {
    if |fields| == 0 then [] else
      (if fields[0].num == num then [fields[0].val] else []) + Values(fields[1..], num)
  }

  function Lookup(out: map<nat, seq<Val>>, num: nat): seq<Val> {
    if num in out then out[num] else []
  }

  lemma {:induction false} GroupedAfter(out: map<nat, seq<Val>>, fields: seq<Field>, num: nat)
    ensures Lookup(Grouped(out, fields), num) == Lookup(out, num) + Values(fields, num)
    ensures num in Grouped(out, fields) <==> num in out || Values(fields, num) != []
    decreases fields
  {
    if fields == [] {
    } else {
      var f := fields[0];
      GroupedAfter(Added(out, f), fields[1..], num);
      Assoc(Lookup(out, num), if f.num == num then [f.val] else [], Values(fields[1..], num));
    }
  }

  /** No value is lost, duplicated or moved: each field number holds exactly its values, in order. */
  lemma DecodeRoundTrip(p: Printable, fs: seq<WireField>, num: nat)
    requires forall i :: 0 <= i < |fs| ==> Fits(fs[i])
    ensures Table(p, Encode(fs)).Some?
    ensures var out := Table(p, Encode(fs)).value;
            && (num in out <==> Values(Meanings(p, fs), num) != [])
            && Lookup(out, num) == Values(Meanings(p, fs), num)
  {
    FieldsRoundTrip(p, fs);
    GroupedAfter(map[], Meanings(p, fs), num);
  }

  // ---- Any varint, and unknown wire types ----

  /** A number below 128. */
  type Group = g: int | 0 <= g < 128

  /** Seven bits to a byte, the top bit set on all but the last. */
  function GroupBytes(groups: seq<Group>): Bytes {
    if |groups| == 0 then [] else if |groups| == 1 then [groups[0]] else
      var g: int := groups[0];
      var more: byte := 128 + g;
      [more] + GroupBytes(groups[1..])
  }

  /** The groups as digits to base 128, the least significant first. */
  function GroupValue(groups: seq<Group>): nat {
    if |groups| == 0 then 0 else groups[0] + 128 * GroupValue(groups[1..])
  }

  /** Every varint, padded or not, is read as its groups say. */
  lemma {:induction false} VarintReads(groups: seq<Group>, rest: Bytes)
    requires groups != []
    ensures Varint(GroupBytes(groups) + rest) == Some((GroupValue(groups), rest))
  {
    var s := GroupBytes(groups) + rest;
    if |groups| == 1 {
      assert s[1..] == rest && groups[1..] == [];
    } else {
      VarintReads(groups[1..], rest);
      assert s[1..] == GroupBytes(groups[1..]) + rest;
    }
  }

  /** And nothing else is read: a number comes from some groups at the front of the buffer. */
  lemma {:induction false} VarintIsGroups(s: Bytes) returns (groups: seq<Group>)
    requires Varint(s).Some?
    ensures groups != [] && s == GroupBytes(groups) + Varint(s).value.1 && Varint(s).value.0 == GroupValue(groups)
  {
    if s[0] < 0x80 {
      groups := [s[0]];
      assert s == [s[0]] + s[1..];
    } else {
      var more := VarintIsGroups(s[1..]);
      groups := [s[0] - 128] + more;
      assert groups[1..] == more;
      assert s == [s[0]] + s[1..];
    }
  }

  /** From the first field of another wire type on, everything is ignored. */
  lemma UnknownStops(p: Printable, fs: seq<WireField>, num: nat, wt: nat, rest: Bytes)
    requires wt == 3 || wt == 4 || wt == 6 || wt == 7
    requires forall i :: 0 <= i < |fs| ==> Fits(fs[i])
    ensures Fields(p, Encode(fs) + (EncodeVarint(8 * num + wt) + rest)) == Some(Meanings(p, fs))
  {
    var s := EncodeVarint(8 * num + wt) + rest;
    VarintRoundTrip(8 * num + wt, rest);
    TagParts(num, wt);
    assert Fields(p, s) == Some([]);
    FieldsBefore(p, fs, s);
    assert Meanings(p, fs) + [] == Meanings(p, fs);
  }

  // ---- Messages that end too early ----

  /** A buffer cut before the end of a varint and what follows it: no number, or the number whole and the cut later. */
  lemma {:induction false} VarintCut(n: nat, rest: Bytes, s: Bytes)
    requires s < EncodeVarint(n) + rest
    ensures if |s| < |EncodeVarint(n)| then Varint(s).None?
            else Varint(s) == Some((n, s[|EncodeVarint(n)|..])) && s[|EncodeVarint(n)|..] < rest
  {
    var whole := EncodeVarint(n) + rest;
    assert s == whole[..|s|];
    if s == [] {
    } else if n < 0x80 {
      assert whole[1..] == rest && s[1..] == rest[..|s| - 1];
    } else {
      assert whole[1..] == EncodeVarint(n / 0x80) + rest;
      assert s[1..] == whole[1..][..|s| - 1];
      VarintCut(n / 0x80, rest, s[1..]);
      if |s| >= |EncodeVarint(n)| {
        assert s[1..][|EncodeVarint(n / 0x80)|..] == s[|EncodeVarint(n)|..];
      }
    }
  }

  /** The bytes of a field in front of its data. */
  function DataStart(f: WireField): nat {
    |EncodeVarint(8 * f.num + WireType(f.wire))| + if f.wire.Data? then |EncodeVarint(|f.wire.raw|)| else 0
  }

  /** A message that ends `keep` bytes into a field raises exactly when the cut comes before length-delimited data;
      inside such data, what is left of it is returned as if it were all. */
  lemma CutMessage(p: Printable, fs: seq<WireField>, f: WireField, keep: nat)
    requires forall i :: 0 <= i < |fs| ==> Fits(fs[i])
    requires Fits(f) && 0 < keep < |EncodeField(f)|
    ensures Fields(p, Encode(fs) + EncodeField(f)[..keep]) ==
            if f.wire.Data? && keep >= DataStart(f)
            then Some(Meanings(p, fs) + [Field(f.num, Show(p, f.wire.raw[..keep - DataStart(f)]))])
            else None
  {
    FieldsBefore(p, fs, EncodeField(f)[..keep]);
    CutField(p, f, keep);
  }

  lemma CutField(p: Printable, f: WireField, keep: nat)
    requires Fits(f) && 0 < keep < |EncodeField(f)|
    ensures Fields(p, EncodeField(f)[..keep]) ==
            if f.wire.Data? && keep >= DataStart(f)
            then Some([Field(f.num, Show(p, f.wire.raw[..keep - DataStart(f)]))])
            else None
  {
    var tag, s := 8 * f.num + WireType(f.wire), EncodeField(f)[..keep];
    VarintCut(tag, Payload(f.wire), s);
    if Varint(s).Some? {
      var s1 := Varint(s).value.1;
      TagParts(f.num, WireType(f.wire));
      CutPayload(p, f.wire, s1);
      FieldStep(p, s, tag, s1);
      assert Fields(p, []) == Some([]);
      var val := WireValue(p, WireType(f.wire), s1);
      assert val.Some? ==> [Field(f.num, val.value.0)] + [] == [Field(f.num, val.value.0)];
    }
  }

  lemma CutPayload(p: Printable, w: Wire, s: Bytes)
    requires Fits(WireField(0, w)) && s < Payload(w)
    ensures var start := if w.Data? then |EncodeVarint(|w.raw|)| else 0;
            WireValue(p, WireType(w), s) ==
            if w.Data? && |s| >= start then Some((Show(p, w.raw[..|s| - start]), [])) else None
  {
    match w
    case Int(n) =>
      assert EncodeVarint(n) + [] == EncodeVarint(n);
      VarintCut(n, [], s);
    case Data(raw) =>
      VarintCut(|raw|, raw, s);
      if Varint(s).Some? {
        var t := Varint(s).value.1;
        assert t == raw[..|t|];
      }
    case _ =>
  }

  // ---- What a decoded table no longer tells ----

  /** Different bytes decode to different text, as in UTF-8. */
  ghost predicate OneToOne(p: Printable) {
    forall a, b :: p(a).Some? && p(a) == p(b) ==> a == b
  }

  /** Equal, or one of them unprintable and the other the text of its hex digits. */
  predicate LooksLike(p: Printable, a: Bytes, b: Bytes) {
    || a == b
    || (p(a).None? && p(b) == Some(Hex(a)))
    || (p(b).None? && p(a) == Some(Hex(b)))
  }

  lemma ShowAlike(p: Printable, a: Bytes, b: Bytes)
    requires OneToOne(p)
    ensures Show(p, a) == Show(p, b) <==> LooksLike(p, a, b)
  {
    if p(a).None? && p(b).None? && Show(p, a) == Show(p, b) {
      HexUnique(a, b);
    }
  }

  /** Printable ASCII is shown as it is, and a stray UTF-8 continuation byte is not text. */
  ghost predicate IsUtf8(p: Printable) {
    && OneToOne(p)
    && (forall raw :: AllPrintable(raw) ==> p(raw) == Some(Latin(raw)))
    && (forall raw :: raw != [] && 0x80 <= raw[0] < 0xc0 ==> p(raw).None?)
  }

  /** For UTF-8 the confusion is exactly this: bytes that are not text look like the ASCII bytes of their own hex
      digits, and like nothing else. */
  lemma ShowAlikeUtf8(p: Printable, a: Bytes, b: Bytes)
    requires IsUtf8(p)
    ensures Show(p, a) == Show(p, b) <==> a == b || (p(a).None? && b == HexBytes(a)) || (p(b).None? && a == HexBytes(b))
  {
    ShowAlike(p, a, b);
    HexBytesSpell(a);
    HexBytesSpell(b);
  }

  /** The byte 0x80 and the two bytes of "80" are decoded alike. */
  lemma HexLooksLikeText(p: Printable)
    requires IsUtf8(p)
    ensures Show(p, [0x80]) == Show(p, [0x38, 0x30]) == Shown("80")
    ensures Table(p, Encode([WireField(1, Data([0x80]))])) == Table(p, Encode([WireField(1, Data([0x38, 0x30]))]))
  {
    var raw: Bytes := [0x80];
    var digits: Bytes := [0x38, 0x30];
    assert raw[1..] == [] && raw[0] == 0x80;
    assert Hex(raw) == "80";
    assert AllPrintable(digits) && Latin(digits) == "80";
    var fs, gs := [WireField(1, Data(raw))], [WireField(1, Data(digits))];
    FieldsRoundTrip(p, fs);
    FieldsRoundTrip(p, gs);
    assert fs[1..] == [] && gs[1..] == [];
    assert Meanings(p, fs) == [Field(1, Shown("80"))] == Meanings(p, gs);
  }

  /** A decoder of printable ASCII meets what is asked of UTF-8 here. */
  function AsciiText(raw: Bytes): Option<string> {
    if AllPrintable(raw) then Some(Latin(raw)) else None
  }

  lemma AsciiIsUtf8()
    ensures IsUtf8(AsciiText)
  {
    forall a, b | AsciiText(a).Some? && AsciiText(a) == AsciiText(b)
      ensures a == b
    {
      assert |a| == |b|;
      forall i | 0 <= i < |a|
        ensures a[i] == b[i]
      {
        assert Latin(a)[i] as int == a[i] && Latin(b)[i] as int == b[i];
      }
    }
  }

  /** Numbers lose their wire type, bytes may look like text. */
  predicate Alike(p: Printable, v: Wire, w: Wire) {
    if v.Data? && w.Data? then LooksLike(p, v.raw, w.raw) else !v.Data? && !w.Data? && v.n == w.n
  }

  lemma MeaningAlike(p: Printable, v: Wire, w: Wire)
    requires OneToOne(p)
    ensures Meaning(p, v) == Meaning(p, w) <==> Alike(p, v, w)
  {
    if v.Data? && w.Data? {
      ShowAlike(p, v.raw, w.raw);
    }
  }

  /** The contents sent under one field number, in order. */
  function Sent(fs: seq<WireField>, num: nat): seq<Wire> {
    if |fs| == 0 then [] else (if fs[0].num == num then [fs[0].wire] else []) + Sent(fs[1..], num)
  }

  predicate AllAlike(p: Printable, vs: seq<Wire>, ws: seq<Wire>) {
    |vs| == |ws| && forall i :: 0 <= i < |vs| ==> Alike(p, vs[i], ws[i])
  }

  lemma {:induction false} ValuesSent(p: Printable, fs: seq<WireField>, num: nat)
    ensures |Values(Meanings(p, fs), num)| == |Sent(fs, num)|
    ensures forall i :: 0 <= i < |Sent(fs, num)| ==> Values(Meanings(p, fs), num)[i] == Meaning(p, Sent(fs, num)[i])
  {
    if fs == [] {
    } else {
      ValuesSent(p, fs[1..], num);
      assert Meanings(p, fs)[1..] == Meanings(p, fs[1..]);
    }
  }

  lemma ValuesAlike(p: Printable, fs: seq<WireField>, gs: seq<WireField>, num: nat)
    requires OneToOne(p)
    ensures Values(Meanings(p, fs), num) == Values(Meanings(p, gs), num) <==> AllAlike(p, Sent(fs, num), Sent(gs, num))
  {
    var vs, ws := Sent(fs, num), Sent(gs, num);
    ValuesSent(p, fs, num);
    ValuesSent(p, gs, num);
    hide Values, Meanings, Meaning, Alike, Sent;
    if |vs| == |ws| {
      forall i | 0 <= i < |vs|
        ensures Values(Meanings(p, fs), num)[i] == Values(Meanings(p, gs), num)[i] <==> Alike(p, vs[i], ws[i])
      {
        MeaningAlike(p, vs[i], ws[i]);
      }
    }
  }

  predicate SameAt(s: map<nat, seq<Val>>, t: map<nat, seq<Val>>, num: nat) {
    (num in s <==> num in t) && Lookup(s, num) == Lookup(t, num)
  }

  lemma SameEverywhere(s: map<nat, seq<Val>>, t: map<nat, seq<Val>>)
    requires forall num :: SameAt(s, t, num)
    ensures s == t
  {
    forall num | num in s
      ensures num in t && s[num] == t[num]
    {
      assert SameAt(s, t, num);
    }
    forall num | num in t
      ensures num in s
    {
      assert SameAt(s, t, num);
    }
  }

  lemma AlikeAt(p: Printable, fs: seq<WireField>, gs: seq<WireField>, num: nat)
    requires OneToOne(p)
    requires forall i :: 0 <= i < |fs| ==> Fits(fs[i])
    requires forall i :: 0 <= i < |gs| ==> Fits(gs[i])
    ensures Table(p, Encode(fs)).Some? && Table(p, Encode(gs)).Some?
    ensures SameAt(Table(p, Encode(fs)).value, Table(p, Encode(gs)).value, num)
            <==> AllAlike(p, Sent(fs, num), Sent(gs, num))
  {
    DecodeRoundTrip(p, fs, num);
    DecodeRoundTrip(p, gs, num);
    ValuesAlike(p, fs, gs, num);
    hide *;
  }

  /** Under every number, contents that look alike. */
  ghost predicate SentAlike(p: Printable, fs: seq<WireField>, gs: seq<WireField>) {
    forall num :: AllAlike(p, Sent(fs, num), Sent(gs, num))
  }

  lemma AlikeTables(p: Printable, fs: seq<WireField>, gs: seq<WireField>, s: map<nat, seq<Val>>, t: map<nat, seq<Val>>)
    requires forall num :: SameAt(s, t, num) <==> AllAlike(p, Sent(fs, num), Sent(gs, num))
    ensures s == t <==> SentAlike(p, fs, gs)
  {
    hide SameAt, AllAlike, Sent;
    if SentAlike(p, fs, gs) {
      SameEverywhere(s, t);
    }
    if s == t {
      SameItself(s);
    }
  }

  lemma SameItself(s: map<nat, seq<Val>>)
    ensures forall num :: SameAt(s, s, num)
  {
  }

  /** Two messages decode to one table exactly when under each number they send the same contents in the same order, up
      to the wire type of numbers and to bytes that look like text. */
  lemma DecodeAlike(p: Printable, fs: seq<WireField>, gs: seq<WireField>)
    requires OneToOne(p)
    requires forall i :: 0 <= i < |fs| ==> Fits(fs[i])
    requires forall i :: 0 <= i < |gs| ==> Fits(gs[i])
    ensures Table(p, Encode(fs)) == Table(p, Encode(gs)) <==> SentAlike(p, fs, gs)
  {
    hide *;
    AlikeAt(p, fs, gs, 0);
    var s, t := Table(p, Encode(fs)).value, Table(p, Encode(gs)).value;
    forall num: nat
      ensures SameAt(s, t, num) <==> AllAlike(p, Sent(fs, num), Sent(gs, num))
    {
      AlikeAt(p, fs, gs, num);
    }
    AlikeTables(p, fs, gs, s, t);
  }
}
