/** Lower-case hexadecimal text, as `bytes.hex()` prints it. */
module Hexadecimal {
  import opened Octets
  import opened Decimal

  function HexChar(d: nat): (c: char)
    requires d < 16
    ensures IsDigit(c) || 'a' <= c <= 'f'
  {
    if d < 10 then DigitChar(d) else (d - 10) as char + 'a'
  }

  /** The value of a digit of either case, as `bytes.fromhex` takes them. */
  function HexValue(c: char): (d: Option<nat>)
    ensures d.Some? ==> d.value < 16
  {
    if IsDigit(c) then Some(DigitValue(c))
    else if 'a' <= c <= 'f' then Some(c as nat - 'a' as nat + 10)
    else if 'A' <= c <= 'F' then Some(c as nat - 'A' as nat + 10)
    else None
  }

  lemma HexDigit(d: nat)
    requires d < 16
    ensures HexValue(HexChar(d)) == Some(d)
    ensures HexChar(d) != '\'' && HexChar(d) != '\n'
  {
  }

  /** `b.hex()`. */
  function Hex(b: Bytes): (s: string)
    ensures |s| == 2 * |b|
  {
    if |b| == 0 then "" else [HexChar(b[0] / 16), HexChar(b[0] % 16)] + Hex(b[1..])
  }

  /** `b.hex().encode()`: the digits as bytes. */
  function HexBytes(b: Bytes): (s: Bytes)
    ensures |s| == 2 * |b|
  {
    if |b| == 0 then [] else [HexChar(b[0] / 16) as int, HexChar(b[0] % 16) as int] + HexBytes(b[1..])
  }

  /** Bytes read as the characters with their codes. */
  function Latin(s: Bytes): string {
    seq(|s|, i requires 0 <= i < |s| => s[i] as char)
  }

  predicate AllPrintable(s: Bytes) {
    forall i :: 0 <= i < |s| ==> 0x20 <= s[i] < 0x7f
  }

  lemma {:induction false} HexBytesSpell(b: Bytes)
    ensures Latin(HexBytes(b)) == Hex(b) && AllPrintable(HexBytes(b))
  {
    if b == [] {
    } else {
      HexBytesSpell(b[1..]);
      var two: Bytes := [HexChar(b[0] / 16) as int, HexChar(b[0] % 16) as int];
      assert Latin(two + HexBytes(b[1..])) == Latin(two) + Latin(HexBytes(b[1..]));
      assert Latin(two) == [HexChar(b[0] / 16), HexChar(b[0] % 16)];
    }
  }

  lemma {:induction false} HexUnique(a: Bytes, b: Bytes)
    requires Hex(a) == Hex(b)
    ensures a == b
  {
    if a == [] {
    } else {
      HexDigit(a[0] / 16);
      HexDigit(a[0] % 16);
      HexDigit(b[0] / 16);
      HexDigit(b[0] % 16);
      var s := Hex(a);
      assert s[0] == HexChar(a[0] / 16) == HexChar(b[0] / 16) && s[1] == HexChar(a[0] % 16) == HexChar(b[0] % 16);
      assert s[2..] == Hex(a[1..]) && s[2..] == Hex(b[1..]);
      HexUnique(a[1..], b[1..]);
      assert a == [a[0]] + a[1..] && b == [b[0]] + b[1..];
    }
  }
}
