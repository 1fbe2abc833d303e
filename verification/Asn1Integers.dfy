/** Conversion between Python integers and ASN.1 INTEGERs. */
module Asn1Integers {
  import opened Bits
  import opened Bytes
  import opened Options

  const MAX_ASN1_INTEGER_LEN := 20

  /** asn1_twenty_octets, the largest manifest number check_manifest allows. */
  const TWENTY_OCTETS: nat := 0x7FFFFFFFFFFFFFFFFFFFFFFFFFFFFFFFFFFFFFFF

  /** _PyLong_NumBits: the number of binary digits. */
  function NumBits(n: nat): nat {
    if n == 0 then 0 else 1 + NumBits(n / 2)
  }

  lemma {:induction false} NumBitsMeaning(n: nat, k: nat)
    ensures NumBits(n) <= k <==> n < Pow2(k)
  {
    if n > 0 && k > 0 { NumBitsMeaning(n / 2, k - 1); }
  }

  /** ASN1_INTEGER_to_PyLong: the unsigned big-endian reading of the octets. */
  function ToPyLong(octets: seq<Byte>): nat {
    FromBytes(octets)
  }

  /** PyLong_to_ASN1_INTEGER: the octets, or None for OverflowError. */
  method FromPyLong(arg: int) returns (r: Option<seq<Byte>>)
    ensures r.Some? <==> 0 <= arg < Pow2(159)
    ensures r.Some? ==> ToPyLong(r.value) == arg && |r.value| <= MAX_ASN1_INTEGER_LEN
    ensures r.Some? ==> (if arg == 0 then r.value == [] else r.value != [] && r.value[0] != 0)
  {
    hide Pow2, NumBits, ToBytes;
    var buf := new Byte[MAX_ASN1_INTEGER_LEN];
    forall i | 0 <= i < MAX_ASN1_INTEGER_LEN { buf[i] := 0; }
    var magnitude: nat := if arg < 0 then -arg else arg;
    var len := NumBits(magnitude);
    NumBitsMeaning(magnitude, 159);
    if arg < 0 || len / 8 + 1 > buf.Length { return None; }
    NumBitsMeaning(magnitude, len);
    len := (len + 7) / 8;
    AsByteArray(magnitude, buf, len);
    ghost var octets := buf[..len];
    var data := new Byte[len + 1];
    data[len] := 0;
    forall i | 0 <= i < len { data[i] := buf[i]; }
    assert data[..len] == octets;
    Minimal(magnitude, len);
    r := Some(data[..len]);
  }

  /** _PyLong_AsByteArray, big-endian and unsigned, on a number that fits. */
  method AsByteArray(n: nat, buf: array<Byte>, len: nat)
    requires len <= buf.Length && NumBits(n) <= 8 * len
    modifies buf
    ensures buf[..len] == ToBytes(n, len)
    ensures FromBytes(buf[..len]) == n
  {
    NumBitsMeaning(n, 8 * len);
    BytesRoundTrip(n, len);
    var bytes := ToBytes(n, len);
    forall i | 0 <= i < len { buf[i] := bytes[i]; }
    assert buf[..len] == bytes;
  }

  /** The number of octets is the least that holds the number. */
  lemma Minimal(n: nat, len: nat)
    requires len == (NumBits(n) + 7) / 8
    ensures if n == 0 then len == 0 else len > 0 && ToBytes(n, len)[0] != 0
  {
    if n > 0 {
      NumBitsMeaning(n, 0);
      var b := ToBytes(n, len);
      NumBitsMeaning(n, 8 * len);
      NumBitsMeaning(n, 8 * (len - 1));
      BytesRoundTrip(n, len);
      FirstByte(b);
      FromBytesBound(b[1..]);
    }
  }

  /** The two conversions are inverse on everything the first one accepts. */
  lemma OctetsDetermined(a: seq<Byte>, b: seq<Byte>)
    requires ToPyLong(a) == ToPyLong(b)
    requires (a != [] ==> a[0] != 0) && (b != [] ==> b[0] != 0)
    ensures a == b
  {
    if |a| < |b| {
      LeadingByteBig(a, b);
    } else if |b| < |a| {
      LeadingByteBig(b, a);
    } else {
      BytesUnique(a);
      BytesUnique(b);
    }
  }

  lemma LeadingByteBig(a: seq<Byte>, b: seq<Byte>)
    requires |a| < |b| && b[0] != 0
    ensures FromBytes(a) < FromBytes(b)
  {
    FirstByte(b);
    FromBytesBound(a);
    Pow2Monotone(8 * |a|, 8 * (|b| - 1));
    MulMono(Pow2(8 * (|b| - 1)), 1, b[0]);
  }

  lemma TwentyOctets()
    ensures TWENTY_OCTETS == Pow2(159) - 1
  {
    hide Pow2;
    Pow2Eight();
    Pow2Add(8, 8);
    Pow2Add(16, 16);
    Pow2Add(32, 32);
    Pow2Add(64, 64);
    Pow2Add(128, 32);
    Pow2Next(159);
  }

  lemma Pow2Next(k: nat)
    ensures Pow2(k + 1) == 2 * Pow2(k)
  {
  }

  /** The comparison in check_manifest; true for a number it does not report. */
  predicate ManifestNumberAllowed(n: int) {
    0 <= n <= TWENTY_OCTETS
  }

  /** check_manifest allows exactly the numbers FromPyLong accepts. */
  lemma ManifestRange(n: int)
    ensures ManifestNumberAllowed(n) <==> 0 <= n < Pow2(159)
  {
    TwentyOctets();
  }
}
