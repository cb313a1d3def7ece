/** Bytes, Python-style slices, and fixed-width integers: the vocabulary shared by every parser in this project. */
module Octets {

  type byte = b: int | 0 <= b < 256
  type Bytes = seq<byte>

  /** The result of code that may raise: `None` stands for the exception. */
  datatype Option<+T> = None | Some(value: T) {
    predicate IsFailure() {
      None?
    }

    function PropagateFailure<U>(): Option<U>
      requires None?
    {
      None
    }

    function Extract(): T
      requires Some?
    {
      value
    }
  }

  /** `s[:n]`, which Python clamps to the length of `s`. */
  function Take<T>(s: seq<T>, n: nat): seq<T> {
    if n <= |s| then s[..n] else s
  }

  /** `s[n:]`, which Python clamps to the empty sequence. */
  function Drop<T>(s: seq<T>, n: nat): (r: seq<T>)
    ensures |r| <= |s|
  {
    if n <= |s| then s[n..] else []
  }

  lemma Assoc<T>(a: seq<T>, b: seq<T>, c: seq<T>)
    ensures (a + b) + c == a + (b + c)
  {
  }

  lemma DropDrop<T>(s: seq<T>, m: nat, n: nat)
    ensures Drop(Drop(s, m), n) == Drop(s, m + n)
  {
  }

  lemma TakeAppend<T>(a: seq<T>, b: seq<T>)
    ensures Take(a + b, |a|) == a
    ensures Drop(a + b, |a|) == b
  {
  }

  /** A prefix of a concatenation ends in the first part or in the second. */
  lemma TakeConcat<T>(a: seq<T>, b: seq<T>, n: nat)
    requires n <= |a| + |b|
    ensures (a + b)[..n] == if n <= |a| then a[..n] else a + b[..n - |a|]
  {
  }

  function Pow256(k: nat): (p: nat)
    ensures p > 0
  {
    if k == 0 then 1 else 256 * Pow256(k - 1)
  }

  /** `int.from_bytes(bs, "big")`. */
  function Be(bs: Bytes): nat {
    if |bs| == 0 then 0 else 256 * Be(bs[..|bs| - 1]) + bs[|bs| - 1]
  }

  /** `n.to_bytes(k, "big")` for an `n` that fits. */
  function BeBytes(n: nat, k: nat): (bs: Bytes)
    ensures |bs| == k
  {
    if k == 0 then [] else BeBytes(n / 256, k - 1) + [n % 256]
  }

  lemma {:induction false} BeOfBytes(n: nat, k: nat)
    requires n < Pow256(k)
    ensures Be(BeBytes(n, k)) == n
  {
    if k == 0 {
    } else {
      BeOfBytes(n / 256, k - 1);
      assert BeBytes(n, k)[..k - 1] == BeBytes(n / 256, k - 1);
    }
  }

  lemma {:induction false} BytesOfBe(bs: Bytes)
    ensures Be(bs) < Pow256(|bs|)
    ensures BeBytes(Be(bs), |bs|) == bs
  {
    if bs == [] {
    } else {
      BytesOfBe(bs[..|bs| - 1]);
      assert bs == bs[..|bs| - 1] + [bs[|bs| - 1]];
    }
  }

  /** `int.from_bytes(bs, "little")`. */
  function Le(bs: Bytes): nat {
    if |bs| == 0 then 0 else bs[0] + 256 * Le(bs[1..])
  }

  /** `n.to_bytes(k, "little")` for an `n` that fits. */
  function LeBytes(n: nat, k: nat): (bs: Bytes)
    ensures |bs| == k
  {
    if k == 0 then [] else [n % 256] + LeBytes(n / 256, k - 1)
  }

  lemma {:induction false} LeOfBytes(n: nat, k: nat)
    requires n < Pow256(k)
    ensures Le(LeBytes(n, k)) == n
  {
    if k == 0 {
    } else {
      LeOfBytes(n / 256, k - 1);
      assert LeBytes(n, k)[1..] == LeBytes(n / 256, k - 1);
    }
  }

  /** The powers behind `struct` formats `B`, `H`, `I` and `Q`, and a three-byte TLS length. */
  lemma Powers()
    ensures Pow256(1) == 0x100
    ensures Pow256(2) == 0x1_0000
    ensures Pow256(3) == 0x100_0000
    ensures Pow256(4) == 0x1_0000_0000
    ensures Pow256(8) == 0x1_0000_0000_0000_0000
  {
    assert Pow256(0) == 1;
    assert Pow256(5) == 0x100_0000_0000;
    assert Pow256(6) == 0x1_0000_0000_0000;
    assert Pow256(7) == 0x100_0000_0000_0000;
  }
}
