/** Byte strings as big-endian numbers. */
module Bytes {
  import opened Bits

  type Byte = n: int | 0 <= n < 256

  function FromBytes(b: seq<Byte>): nat {
    if b == [] then 0 else 256 * FromBytes(b[..|b| - 1]) + b[|b| - 1]
  }

  function ToBytes(n: nat, len: nat): (b: seq<Byte>)
    ensures |b| == len
  {
    if len == 0 then [] else ToBytes(n / 256, len - 1) + [n % 256]
  }

  lemma Pow2Eight()
    ensures Pow2(8) == 256
  {
    assert Pow2(4) == 16;
    Pow2Add(4, 4);
  }

  lemma Pow2Bytes(len: nat)
    requires len > 0
    ensures Pow2(8 * len) == 256 * Pow2(8 * (len - 1))
  {
    Pow2Eight();
    Pow2Add(8, 8 * (len - 1));
  }

  lemma {:induction false} FromBytesBound(b: seq<Byte>)
    ensures FromBytes(b) < Pow2(8 * |b|)
  {
    if b != [] {
      FromBytesBound(b[..|b| - 1]);
      Pow2Bytes(|b|);
    }
  }

  lemma {:induction false} BytesRoundTrip(n: nat, len: nat)
    requires n < Pow2(8 * len)
    ensures FromBytes(ToBytes(n, len)) == n
  {
    if len > 0 {
      Pow2Bytes(len);
      BytesRoundTrip(n / 256, len - 1);
      assert ToBytes(n, len)[..len - 1] == ToBytes(n / 256, len - 1);
    }
  }

  lemma {:induction false} BytesUnique(b: seq<Byte>)
    ensures ToBytes(FromBytes(b), |b|) == b
  {
    if b != [] {
      BytesUnique(b[..|b| - 1]);
      assert b == b[..|b| - 1] + [b[|b| - 1]];
    }
  }

  lemma {:induction false} FromBytesCat(a: seq<Byte>, b: seq<Byte>)
    ensures FromBytes(a + b) == FromBytes(a) * Pow2(8 * |b|) + FromBytes(b)
  {
    if b == [] {
      assert a + b == a;
    } else {
      var c := b[..|b| - 1];
      assert (a + b)[..|a + b| - 1] == a + c;
      FromBytesCat(a, c);
      Pow2Bytes(|b|);
      Shift(FromBytes(a), Pow2(8 * |c|));
    }
  }

  lemma Shift(n: nat, p: nat)
    ensures 256 * (n * p) == n * (256 * p)
  {
  }

  /** The C library's comparison of two buffers of the same length. */
  function MemCmp(a: seq<Byte>, b: seq<Byte>): int
    requires |a| == |b|
  {
    if a == [] then 0 else if a[0] != b[0] then a[0] - b[0] else MemCmp(a[1..], b[1..])
  }

  /** memcmp orders addresses of one length as numbers. */
  lemma {:induction false} MemCmpNumeric(a: seq<Byte>, b: seq<Byte>)
    requires |a| == |b|
    ensures MemCmp(a, b) >= 0 <==> FromBytes(a) >= FromBytes(b)
    ensures MemCmp(a, b) == 0 <==> a == b
  {
    if a != [] {
      FirstByte(a);
      FirstByte(b);
      FromBytesBound(a[1..]);
      FromBytesBound(b[1..]);
      MemCmpNumeric(a[1..], b[1..]);
      LeadingDigit(a[0], b[0], FromBytes(a[1..]), FromBytes(b[1..]), Pow2(8 * (|a| - 1)));
      assert a == [a[0]] + a[1..] && b == [b[0]] + b[1..];
    }
  }

  lemma FirstByte(a: seq<Byte>)
    requires a != []
    ensures FromBytes(a) == a[0] * Pow2(8 * (|a| - 1)) + FromBytes(a[1..])
  {
    assert a == [a[0]] + a[1..];
    FromBytesCat([a[0]], a[1..]);
    assert FromBytes([a[0]]) == a[0] by { assert [a[0]][..0] == []; }
  }

  lemma LeadingDigit(d: nat, e: nat, x: nat, y: nat, p: nat)
    requires x < p && y < p
    ensures d > e ==> d * p + x > e * p + y
    ensures d < e ==> d * p + x < e * p + y
  {
    if d > e { MulMono(p, e + 1, d); assert p * (e + 1) == e * p + p; }
    if d < e { MulMono(p, d + 1, e); assert p * (d + 1) == d * p + p; }
  }
}
