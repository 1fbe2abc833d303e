/** The BIT STRING form of a ROA prefix: the encoder of setPrefixes and the two
    decoders, in check_roa and in getPrefixes. */
module RoaBitStrings {
  import opened Bits
  import opened Bytes
  import opened Options

  datatype Result<+T> = Ok(value: T) | Error(message: string)

  datatype Afi = IPv4 | IPv6 | Unknown

  /** The length of an address of the family, in bytes. */
  function AddressLength(afi: Afi): nat {
    match afi case IPv4 => 4 case IPv6 => 16 case Unknown => 0
  }

  /** An ASN.1 BIT STRING with its flag word, and the optional maxLength as
      ASN1_INTEGER_get reads it. */
  datatype RoaIPAddress = RoaIPAddress(data: seq<Byte>, flags: nat, maxLength: Option<int>)

  const BITS_LEFT: nat := 8

  const WORD: nat := 0x1_0000_0000

  /** A C integer stored in a 32-bit unsigned variable. */
  function Unsigned(n: int): nat {
    n % WORD
  }

  /** PyInt_AsLong returns the number; on any other it raises OverflowError. */
  predicate FitsLong(n: int) {
    -0x8000_0000_0000_0000 <= n < 0x8000_0000_0000_0000
  }

  /** n >> k */
  function ShiftRight(n: nat, k: nat): nat {
    if k == 0 then n else ShiftRight(n / 2, k - 1)
  }

  lemma {:induction false} ShiftOnes(w: nat, k: nat)
    requires k <= w
    ensures ShiftRight(Pow2(w) - 1, k) == Pow2(w - k) - 1
  {
    if k > 0 {
      ShiftOnes(w - 1, k - 1);
      assert (Pow2(w) - 1) / 2 == Pow2(w - 1) - 1;
    }
  }

  /** b & ~m on bytes. */
  function AndNot(b: Byte, m: Byte): nat {
    And(b, 255 - m)
  }

  /** The number of unused bits that the flag word announces. */
  function Unused(flags: nat): (u: nat)
    ensures u < 8 && u == flags % 8
  {
    AndLowMask(flags, 3);
    assert Pow2(3) == 8;
    And(flags, 7)
  }

  // ----- The bytes the three functions store

  function ClearLow(b: Byte, k: nat): (c: Byte)
    ensures c <= b
  {
    b - Low(b, k)
  }

  /** The bytes with the k low bits of the last one cleared. */
  function MaskLast(data: seq<Byte>, k: nat): (m: seq<Byte>)
    ensures |m| == |data|
  {
    if data == [] then data else data[..|data| - 1] + [ClearLow(data[|data| - 1], k)]
  }

  function Zeros(n: nat): (z: seq<Byte>)
    ensures |z| == n
  {
    seq(n, _ => 0)
  }

  /** The address buffer a decoder leaves: the masked bytes, padded with zeros. */
  function Decoded(length: nat, ra: RoaIPAddress): (b: seq<Byte>)
    requires |ra.data| <= length
    ensures |b| == length
  {
    MaskLast(ra.data, Unused(ra.flags)) + Zeros(length - |ra.data|)
  }

  /** A buffer with the masked bytes in front and zeros behind is the decoded one. */
  lemma DecodedHolds(b: seq<Byte>, ra: RoaIPAddress)
    requires |ra.data| <= |b| && b[..|ra.data|] == MaskLast(ra.data, Unused(ra.flags))
    requires forall i :: |ra.data| <= i < |b| ==> b[i] == 0
    ensures b == Decoded(|b|, ra)
  {
    assert b == b[..|ra.data|] + b[|ra.data|..];
  }

  /** Each byte of the buffer: as given, but for the unused bits of the last one. */
  lemma DecodedBytes(length: nat, ra: RoaIPAddress)
    requires |ra.data| <= length
    ensures forall i :: 0 <= i < length ==>
      Decoded(length, ra)[i] == (if i >= |ra.data| then 0 else if i == |ra.data| - 1
                                 then ra.data[i] - ra.data[i] % Pow2(ra.flags % 8) else ra.data[i])
  {
    MaskedAt(ra.data, Unused(ra.flags));
  }

  /** data[last] &= ~(0xFF >> (8 - k)) clears the k low bits. */
  lemma ClearByMask(b: Byte, k: nat)
    requires k <= 8
    ensures 0 <= ShiftRight(255, 8 - k) < 256 && AndNot(b, ShiftRight(255, 8 - k)) == ClearLow(b, k)
  {
    Pow2Eight();
    ShiftOnes(8, 8 - k);
    Pow2Monotone(k, 8);
    AndHighDigits(b, k, 8);
  }

  // ----- The encoder

  /** The entry setPrefixes builds for one prefix. */
  function EncodeEntry(addr: seq<Byte>, prefixlen: nat, maxprefixlen: nat): RoaIPAddress
    requires prefixlen <= 8 * |addr|
  {
    var bytelen, bitlen := (prefixlen + 7) / 8, prefixlen % 8;
    RoaIPAddress(MaskLast(addr[..bytelen], if bitlen > 0 then 8 - bitlen else 0),
                 BITS_LEFT + (if bitlen > 0 then 8 - bitlen else 0),
                 if prefixlen == maxprefixlen then None else Some(maxprefixlen))
  }

  /** The maximum length that is meant: that of the prefix when None is given. */
  function MaxOf(prefixlen: int, maxlen: Option<int>): int {
    match maxlen case None => prefixlen case Some(m) => m
  }

  /** The conversions and checks of setPrefixes and the entry it builds. */
  function Encoded(addr: seq<Byte>, prefixlen: int, maxlen: Option<int>): Result<RoaIPAddress> {
    if !FitsLong(prefixlen) || !FitsLong(MaxOf(prefixlen, maxlen)) then Error("OverflowError")
    else
      var p, m := Unsigned(prefixlen), Unsigned(MaxOf(prefixlen, maxlen));
      if p > 8 * |addr| then Error("Bad prefix length")
      else if m > 8 * |addr| || m < p then Error("Bad maxLength value")
      else Ok(EncodeEntry(addr, p, m))
  }

  /** One iteration of setPrefixes. What it stores decodes to the address with
      the bits past the length cleared, the length and the maximum length. */
  method SetPrefix(afi: Afi, addr: seq<Byte>, prefixlen: int, maxlen: Option<int>) returns (r: Result<RoaIPAddress>)
    requires afi != Unknown && |addr| == AddressLength(afi)
    ensures r == Encoded(addr, prefixlen, maxlen)
    ensures r.Ok? ==> Extractable(afi, r.value)
    ensures r.Ok? ==> DecodedLength(r.value) == Unsigned(prefixlen) <= 8 * |addr|
    ensures r.Ok? ==> DecodedMax(r.value) == Unsigned(MaxOf(prefixlen, maxlen))
    ensures r.Ok? ==>
      FromBytes(Decoded(|addr|, r.value)) == ClearPast(FromBytes(addr), 8 * |addr| - Unsigned(prefixlen))
    ensures var limit := 0x8000_0000_0000_0000;
      var fits := -limit <= prefixlen < limit && (maxlen.Some? ==> -limit <= maxlen.value < limit);
      var bits, p := (if afi.IPv4? then 32 else 128), prefixlen % 0x1_0000_0000;
      var m := if maxlen.Some? then maxlen.value % 0x1_0000_0000 else p;
      && (r == Error("OverflowError") <==> !fits)
      && (r == Error("Bad prefix length") <==> fits && p > bits)
      && (r == Error("Bad maxLength value") <==> fits && p <= bits && (m > bits || m < p))
      && (r.Ok? <==> fits && p <= m <= bits)
    ensures r.Ok? ==>
      var p, data := prefixlen % 0x1_0000_0000, r.value.data;
      && |data| == (p + 7) / 8 <= |addr| && r.value.flags == 8 + (8 * |data| - p)
      && (forall i :: 0 <= i < |data| ==>
            data[i] == if i == |data| - 1 then addr[i] - addr[i] % Pow2(8 * |data| - p) else addr[i])
      && r.value.maxLength == if maxlen.None? || maxlen.value % 0x1_0000_0000 == p then None
                              else Some(maxlen.value % 0x1_0000_0000)
  {
    r := BuildEntry(addr, prefixlen, maxlen);
    if r.Ok? {
      EncodedDecodes(afi, addr, prefixlen, maxlen);
      EncodedStores(addr, prefixlen, maxlen);
    }
  }

  /** What is stored: as many octets as the length needs, the bits of the last one
      past it zero and counted in the flag word, and a maximum length that differs. */
  lemma EncodedStores(addr: seq<Byte>, prefixlen: int, maxlen: Option<int>)
    requires Encoded(addr, prefixlen, maxlen).Ok?
    ensures var ra := Encoded(addr, prefixlen, maxlen).value;
      var p, m := Unsigned(prefixlen), Unsigned(MaxOf(prefixlen, maxlen));
      && |ra.data| == (p + 7) / 8 <= |addr| && ra.flags == 8 + (8 * |ra.data| - p)
      && (forall i :: 0 <= i < |ra.data| ==>
            ra.data[i] == if i == |ra.data| - 1 then addr[i] - addr[i] % Pow2(8 * |ra.data| - p) else addr[i])
      && ra.maxLength == if m == p then None else Some(m)
  {
    hide Unsigned, MaskLast, Pow2;
    var p := Unsigned(prefixlen);
    var n := (p + 7) / 8;
    assert 8 * n - p == if p % 8 > 0 then 8 - p % 8 else 0;
    MaskedAt(addr[..n], 8 * n - p);
  }

  lemma MaskedAt(data: seq<Byte>, k: nat)
    ensures forall i :: 0 <= i < |data| ==>
      MaskLast(data, k)[i] == if i == |data| - 1 then data[i] - data[i] % Pow2(k) else data[i]
  {
    if data != [] { LowIsRemainder(data[|data| - 1], k); }
  }

  /** The BIT STRING is filled and masked in place. */
  method BuildEntry(addr: seq<Byte>, prefixlen: int, maxlen: Option<int>) returns (r: Result<RoaIPAddress>)
    ensures r == Encoded(addr, prefixlen, maxlen)
  {
    hide AndNot, Or, ShiftRight, ClearLow;
    if !FitsLong(prefixlen) { return Error("OverflowError"); }
    var plen := Unsigned(prefixlen);
    var maxplen := plen;
    if maxlen.Some? {
      if !FitsLong(maxlen.value) { return Error("OverflowError"); }
      maxplen := Unsigned(maxlen.value);
    }
    if plen > 8 * |addr| { return Error("Bad prefix length"); }
    if maxplen > 8 * |addr| || maxplen < plen { return Error("Bad maxLength value"); }
    var bytelen := (plen + 7) / 8;
    var bitlen := plen % 8;
    var data := new Byte[bytelen];
    forall i | 0 <= i < bytelen { data[i] := addr[i]; }
    assert data[..] == addr[..bytelen];
    var flags := BITS_LEFT;
    if bitlen > 0 {
      ClearByMask(data[bytelen - 1], 8 - bitlen);
      OrFlags(8 - bitlen);
      data[bytelen - 1] := AndNot(data[bytelen - 1], ShiftRight(255, bitlen));
      flags := Or(flags, 8 - bitlen);
    } else {
      MaskNothing(addr[..bytelen]);
    }
    assert data[..] == EncodeEntry(addr, plen, maxplen).data;
    var maxLength := None;
    if plen != maxplen { maxLength := Some(maxplen); }
    r := Ok(RoaIPAddress(data[..], flags, maxLength));
  }

  lemma OrFlags(u: nat)
    requires u < 8
    ensures Or(8, u) == 8 + u
  {
    assert u == 0 || u == 1 || u == 2 || u == 3 || u == 4 || u == 5 || u == 6 || u == 7;
  }

  lemma MaskNothing(data: seq<Byte>)
    ensures MaskLast(data, 0) == data
  {
    if data != [] { assert data == data[..|data| - 1] + [data[|data| - 1]]; }
  }

  // ----- The decoder of check_roa

  /** The lines the two decoders share: memcpy, then the mask on the last byte. */
  method CopyAndMask(data: seq<Byte>, unused: nat, buf: array<Byte>)
    requires |data| <= buf.Length && unused < 8
    modifies buf
    ensures buf[..|data|] == MaskLast(data, unused)
    ensures forall i :: |data| <= i < buf.Length ==> buf[i] == old(buf[i])
  {
    var n := |data|;
    if n > 0 {
      forall i | 0 <= i < n { buf[i] := data[i]; }
      if unused != 0 {
        ClearByMask(buf[n - 1], unused);
        buf[n - 1] := AndNot(buf[n - 1], ShiftRight(255, 8 - unused));
      } else {
        MaskNothing(data);
      }
    }
  }

  predicate Extractable(afi: Afi, ra: RoaIPAddress) {
    afi != Unknown && |ra.data| <= AddressLength(afi)
    && (ra.maxLength.Some? ==> 0 <= ra.maxLength.value <= 8 * AddressLength(afi))
  }

  function DecodedLength(ra: RoaIPAddress): nat {
    Unsigned(8 * |ra.data| - Unused(ra.flags))
  }

  /** The maximum length: that of the prefix when it is left out. */
  function DecodedMax(ra: RoaIPAddress): int {
    match ra.maxLength case None => DecodedLength(ra) case Some(m) => m
  }

  /** check_roa_extract_roa_prefix, filling the caller's address buffer. */
  method ExtractRoaPrefix(ra: RoaIPAddress, afi: Afi, addr: array<Byte>)
    returns (ok: bool, prefixlen: nat, maxPrefixlen: nat)
    requires addr.Length == 16
    modifies addr
    ensures ok <==> Extractable(afi, ra)
    ensures ok ==> addr[..AddressLength(afi)] == Decoded(AddressLength(afi), ra)
    ensures ok ==> addr[AddressLength(afi)..] == old(addr[AddressLength(afi)..])
    ensures ok ==> prefixlen == DecodedLength(ra)
    ensures ok ==> maxPrefixlen == DecodedMax(ra)
    ensures !ok ==> addr[..] == old(addr[..])
    ensures var width := if afi.IPv4? then 4 else 16;
      ok <==> afi != Unknown && |ra.data| <= width && (ra.maxLength.Some? ==> 0 <= ra.maxLength.value <= 8 * width)
    ensures var width := if afi.IPv4? then 4 else 16;
      ok ==> forall i :: 0 <= i < 16 ==>
        addr[i] == if i >= width then old(addr[i]) else if i >= |ra.data| then 0 else if i == |ra.data| - 1
                   then ra.data[i] - ra.data[i] % Pow2(ra.flags % 8) else ra.data[i]
    ensures ok ==> prefixlen == (8 * |ra.data| - ra.flags % 8) % 0x1_0000_0000
    ensures ok ==> maxPrefixlen == if ra.maxLength.Some? then ra.maxLength.value else prefixlen
  {
    hide Unused, MaskLast, Decoded;
    ghost var before := addr[..];
    ok, prefixlen, maxPrefixlen := false, 0, 0;
    var maxlen := match ra.maxLength case None => 0 case Some(m) => m;
    if afi == Unknown { return; }
    var length := AddressLength(afi);
    var n := |ra.data|;
    if n > length || maxlen < 0 || maxlen > 8 * length { return; }
    CopyAndMask(ra.data, Unused(ra.flags), addr);
    forall i | n <= i < length { addr[i] := 0; }
    DecodedHolds(addr[..length], ra);
    DecodedBytes(length, ra);
    assert forall i :: 0 <= i < length ==> addr[i] == Decoded(length, ra)[i];
    assert forall i :: length <= i < 16 ==> addr[i] == before[i];
    prefixlen := Unsigned(8 * n - Unused(ra.flags));
    maxPrefixlen := if ra.maxLength.Some? then maxlen else prefixlen;
    ok := true;
  }

  // ----- The decoder of getPrefixes

  datatype PrefixTuple = PrefixTuple(addr: seq<Byte>, prefixlen: nat, maxlen: Option<int>)

  /** One iteration of getPrefixes for a known address family. */
  method GetPrefix(ra: RoaIPAddress, afi: Afi) returns (r: Result<PrefixTuple>)
    requires afi != Unknown
    ensures r == if |ra.data| > AddressLength(afi) then Error("ROAIPAddress BIT STRING too long for AFI")
                 else Ok(PrefixTuple(Decoded(AddressLength(afi), ra), DecodedLength(ra), ra.maxLength))
    ensures r.Ok? <==> |ra.data| <= if afi.IPv4? then 4 else 16
    ensures r.Ok? ==>
      && |r.value.addr| == (if afi.IPv4? then 4 else 16)
      && (forall i :: 0 <= i < |r.value.addr| ==>
            r.value.addr[i] == if i >= |ra.data| then 0 else if i == |ra.data| - 1
                               then ra.data[i] - ra.data[i] % Pow2(ra.flags % 8) else ra.data[i])
      && r.value.prefixlen == (8 * |ra.data| - ra.flags % 8) % 0x1_0000_0000
      && r.value.maxlen == ra.maxLength
  {
    var length := AddressLength(afi);
    var n := |ra.data|;
    var prefixlen := Unsigned(8 * n - Unused(ra.flags));
    var address := new Byte[length];
    forall i | 0 <= i < length { address[i] := 0; }
    if n > length { return Error("ROAIPAddress BIT STRING too long for AFI"); }
    CopyAndMask(ra.data, Unused(ra.flags), address);
    DecodedHolds(address[..], ra);
    DecodedBytes(length, ra);
    r := Ok(PrefixTuple(address[..], prefixlen, ra.maxLength));
  }

  // ----- What decoding an encoding gives

  /** n << k */
  function ShiftLeft(n: nat, k: nat): nat {
    if k == 0 then n else 2 * ShiftLeft(n, k - 1)
  }

  lemma {:induction false} ShiftLeftNumber(n: nat, k: nat)
    ensures ShiftLeft(n, k) == n * Pow2(k)
  {
    if k > 0 {
      ShiftLeftNumber(n, k - 1);
      Double(n, Pow2(k - 1));
    }
  }

  lemma Double(n: nat, h: nat)
    ensures 2 * (n * h) == n * (2 * h)
  {
  }

  lemma {:induction false} LowShift(a: nat, b: nat, s: nat, u: nat)
    requires b < Pow2(s)
    ensures Low(ShiftLeft(a, s) + b, u + s) == ShiftLeft(Low(a, u), s) + b
  {
    if s > 0 {
      assert (ShiftLeft(a, s) + b) / 2 == ShiftLeft(a, s - 1) + b / 2;
      LowShift(a, b / 2, s - 1, u);
    }
  }

  lemma {:induction false} LowOfSum(x: nat, y: nat, u: nat)
    requires Multiple(x, u)
    ensures Low(x + y, u) == Low(y, u)
  {
    if u > 0 {
      assert (x + y) / 2 == x / 2 + y / 2;
      LowOfSum(x / 2, y / 2, u - 1);
    }
  }

  lemma {:induction false} LowCleared(n: nat, k: nat)
    ensures Low(n - Low(n, k), k) == 0
  {
    if k > 0 {
      var m := n - Low(n, k);
      assert m / 2 == n / 2 - Low(n / 2, k - 1) && m % 2 == 0;
      LowCleared(n / 2, k - 1);
    }
  }

  lemma MaskTwice(data: seq<Byte>, k: nat)
    ensures MaskLast(MaskLast(data, k), k) == MaskLast(data, k)
  {
    if data != [] { LowCleared(data[|data| - 1], k); }
  }

  /** Masking the last byte clears low bits of the number. */
  lemma MaskedNumber(data: seq<Byte>, k: nat)
    requires k <= 8 && (data == [] ==> k == 0)
    ensures FromBytes(MaskLast(data, k)) == FromBytes(data) - Low(FromBytes(data), k)
  {
    if data != [] {
      var init, last := data[..|data| - 1], data[|data| - 1];
      var m := MaskLast(data, k);
      assert m[..|m| - 1] == init;
      Pow2Eight();
      MultipleMeaning(256 * FromBytes(init), 8);
      MultipleDown(256 * FromBytes(init), 8, k);
      LowOfSum(256 * FromBytes(init), last, k);
    }
  }

  lemma {:induction false} ZerosNumber(n: nat)
    ensures FromBytes(Zeros(n)) == 0
  {
    if n > 0 {
      assert Zeros(n)[..n - 1] == Zeros(n - 1);
      ZerosNumber(n - 1);
    }
  }

  /** Keeping the first p bits of an address and padding with zeros clears the
      bits past p. */
  lemma PaddedNumber(addr: seq<Byte>, p: nat)
    requires p <= 8 * |addr|
    ensures var n := (p + 7) / 8;
      FromBytes(MaskLast(addr[..n], 8 * n - p) + Zeros(|addr| - n))
        == FromBytes(addr) - Low(FromBytes(addr), 8 * |addr| - p)
  {
    hide Low, FromBytes, MaskLast, Zeros;
    var n := (p + 7) / 8;
    var u := 8 * n - p;
    var a, b := addr[..n], addr[n..];
    assert addr == a + b && u + 8 * |b| == 8 * |addr| - p;
    MaskedPrefix(a, b, u);
  }

  lemma MaskedPrefix(a: seq<Byte>, b: seq<Byte>, u: nat)
    requires u < 8 && (a == [] ==> u == 0)
    ensures FromBytes(MaskLast(a, u) + Zeros(|b|)) == FromBytes(a + b) - Low(FromBytes(a + b), u + 8 * |b|)
  {
    hide Low, ShiftLeft, FromBytes, MaskLast, Zeros, Pow2;
    CatNumber(a, b);
    CatNumber(MaskLast(a, u), Zeros(|b|));
    ZerosNumber(|b|);
    MaskedNumber(a, u);
    FromBytesBound(b);
    ClearAboveShift(FromBytes(a), FromBytes(b), 8 * |b|, u);
  }

  lemma ClearAboveShift(x: nat, y: nat, s: nat, u: nat)
    requires y < Pow2(s)
    ensures ShiftLeft(x - Low(x, u), s) == (ShiftLeft(x, s) + y) - Low(ShiftLeft(x, s) + y, u + s)
  {
    LowShift(x, y, s, u);
    ShiftLeftMinus(x, Low(x, u), s);
  }

  lemma CatNumber(a: seq<Byte>, b: seq<Byte>)
    ensures FromBytes(a + b) == ShiftLeft(FromBytes(a), 8 * |b|) + FromBytes(b)
  {
    FromBytesCat(a, b);
    ShiftLeftNumber(FromBytes(a), 8 * |b|);
  }

  lemma {:induction false} ShiftLeftMinus(x: nat, y: nat, k: nat)
    requires y <= x
    ensures ShiftLeft(x - y, k) == ShiftLeft(x, k) - ShiftLeft(y, k)
  {
    if k > 0 { ShiftLeftMinus(x, y, k - 1); }
  }

  lemma UnusedOfFlags(u: nat)
    requires u < 8
    ensures Unused(BITS_LEFT + u) == u
  {
    AndLowMask(8 + u, 3);
    assert Pow2(3) == 8;
  }

  lemma EncodedEntry(addr: seq<Byte>, p: nat, m: nat)
    requires |addr| <= 16 && p <= m <= 8 * |addr|
    ensures Encoded(addr, p, Some(m)) == Ok(EncodeEntry(addr, p, m))
    ensures m == p ==> Encoded(addr, p, None) == Ok(EncodeEntry(addr, p, m))
  {
    assert Unsigned(p) == p && Unsigned(m) == m;
  }

  lemma EntryUnused(addr: seq<Byte>, p: nat, m: nat)
    requires |addr| <= 16 && p <= m <= 8 * |addr|
    ensures var n := (p + 7) / 8; var ra := EncodeEntry(addr, p, m);
      && Unused(ra.flags) == 8 * n - p && |ra.data| == n <= |addr| && DecodedLength(ra) == p
      && ra.data == MaskLast(addr[..n], 8 * n - p)
  {
    var u := 8 * ((p + 7) / 8) - p;
    assert u == if p % 8 > 0 then 8 - p % 8 else 0;
    UnusedOfFlags(u);
  }

  lemma EntryLength(addr: seq<Byte>, p: nat, m: nat)
    requires p <= 8 * |addr|
    ensures EncodeEntry(addr, p, m).maxLength == if m == p then None else Some(m)
  {
  }

  lemma EntryDecodes(addr: seq<Byte>, p: nat, m: nat)
    requires |addr| <= 16 && p <= m <= 8 * |addr|
    ensures var ra := EncodeEntry(addr, p, m); var v := FromBytes(addr);
      |ra.data| <= |addr| && FromBytes(Decoded(|addr|, ra)) == v - Low(v, 8 * |addr| - p)
  {
    hide Low, FromBytes, MaskLast, Zeros, Unused, Pow2, EncodeEntry;
    EntryUnused(addr, p, m);
    var n := (p + 7) / 8;
    MaskTwice(addr[..n], 8 * n - p);
    PaddedNumber(addr, p);
  }

  /** The number with its k low bits cleared. */
  function ClearPast(n: nat, k: nat): int {
    n - n % Pow2(k)
  }

  lemma ClearPastLow(n: nat, k: nat)
    ensures ClearPast(n, k) == n - Low(n, k)
  {
    LowIsRemainder(n, k);
  }

  /** Both decoders, applied to what setPrefixes stores for an address, a prefix
      length p and a maximum length m, give back p, m (None if m is p) and the
      address with the bits past p cleared. */
  lemma EntryRoundTrip(afi: Afi, addr: seq<Byte>, p: nat, m: nat)
    requires afi != Unknown && |addr| == AddressLength(afi) && p <= m <= 8 * |addr|
    ensures Encoded(addr, p, Some(m)).Ok?
    ensures m == p ==> Encoded(addr, p, None) == Encoded(addr, p, Some(m))
    ensures var ra := Encoded(addr, p, Some(m)).value;
      && Extractable(afi, ra) && DecodedLength(ra) == p
      && ra.maxLength == (if m == p then None else Some(m))
      && FromBytes(Decoded(|addr|, ra)) == ClearPast(FromBytes(addr), 8 * |addr| - p)
  {
    hide Low, FromBytes, EncodeEntry, Decoded, DecodedLength, ClearPast, Pow2;
    EncodedEntry(addr, p, m);
    EntryUnused(addr, p, m);
    EntryLength(addr, p, m);
    EntryDecodes(addr, p, m);
    ClearPastLow(FromBytes(addr), 8 * |addr| - p);
  }

  /** EntryRoundTrip for whatever arguments the encoder accepts. */
  lemma EncodedDecodes(afi: Afi, addr: seq<Byte>, prefixlen: int, maxlen: Option<int>)
    requires afi != Unknown && |addr| == AddressLength(afi) && Encoded(addr, prefixlen, maxlen).Ok?
    ensures var ra := Encoded(addr, prefixlen, maxlen).value; var p := Unsigned(prefixlen);
      && Extractable(afi, ra) && DecodedLength(ra) == p <= 8 * |addr|
      && DecodedMax(ra) == Unsigned(MaxOf(prefixlen, maxlen))
      && FromBytes(Decoded(|addr|, ra)) == ClearPast(FromBytes(addr), 8 * |addr| - p)
  {
    hide FromBytes, EncodeEntry, Decoded, DecodedLength, ClearPast, Pow2, Encoded, Unsigned;
    var p, m := Unsigned(prefixlen), Unsigned(MaxOf(prefixlen, maxlen));
    EncodedOk(addr, prefixlen, maxlen);
    EncodedEntry(addr, p, m);
    EntryRoundTrip(afi, addr, p, m);
  }

  lemma EncodedOk(addr: seq<Byte>, prefixlen: int, maxlen: Option<int>)
    requires Encoded(addr, prefixlen, maxlen).Ok?
    ensures var p, m := Unsigned(prefixlen), Unsigned(MaxOf(prefixlen, maxlen));
      p <= m <= 8 * |addr| && Encoded(addr, prefixlen, maxlen) == Ok(EncodeEntry(addr, p, m))
  {
  }

  // ----- Which lengths the encoder accepts

  /** What the checks are for. */
  predicate LengthsInRange(bits: nat, p: int, m: int) {
    0 <= p <= m <= bits
  }

  /** The lengths fall into the range once whole words are taken off them. */
  predicate InRangeWithout(bits: nat, p: int, m: int, j: int, k: int) {
    LengthsInRange(bits, p - j * WORD, m - k * WORD)
  }

  lemma UnsignedWithout(bits: nat, n: int, k: int)
    requires bits < WORD && 0 <= n - k * WORD <= bits
    ensures Unsigned(n) == n - k * WORD && k == n / WORD
  {
  }

  /** setPrefixes accepts exactly the lengths that a C long can hold and that are
      in range after whole 32-bit words are taken off; for lengths that fit a
      C int, exactly those in range. */
  lemma EncodeAccepts(addr: seq<Byte>, p: int, maxlen: Option<int>)
    requires |addr| <= 16
    ensures var bits, m := 8 * |addr|, MaxOf(p, maxlen);
      && (Encoded(addr, p, maxlen).Ok? <==>
            FitsLong(p) && FitsLong(m) && exists j, k :: InRangeWithout(bits, p, m, j, k))
      && (FitsInt(p) && FitsInt(m) ==> (Encoded(addr, p, maxlen).Ok? <==> LengthsInRange(bits, p, m)))
  {
    hide EncodeEntry, Unsigned;
    var bits, m := 8 * |addr|, MaxOf(p, maxlen);
    ChecksPass(addr, p, maxlen);
    WordsTakenOff(bits, p, m);
    if FitsInt(p) && FitsInt(m) {
      UnsignedInt(p);
      UnsignedInt(m);
    }
  }

  predicate FitsInt(n: int) {
    -0x8000_0000 <= n < 0x8000_0000
  }

  lemma UnsignedInt(n: int)
    requires FitsInt(n)
    ensures Unsigned(n) == if n >= 0 then n else n + WORD
  {
  }

  lemma ChecksPass(addr: seq<Byte>, p: int, maxlen: Option<int>)
    ensures Encoded(addr, p, maxlen).Ok? <==>
      && FitsLong(p) && FitsLong(MaxOf(p, maxlen))
      && Unsigned(p) <= Unsigned(MaxOf(p, maxlen)) <= 8 * |addr|
  {
  }

  lemma WordsTakenOff(bits: nat, p: int, m: int)
    requires bits < WORD
    ensures Unsigned(p) <= Unsigned(m) <= bits <==> exists j, k :: InRangeWithout(bits, p, m, j, k)
  {
    hide Unsigned;
    UnsignedQuotient(p);
    UnsignedQuotient(m);
    if j, k :| InRangeWithout(bits, p, m, j, k) {
      UnsignedWithout(bits, p, j);
      UnsignedWithout(bits, m, k);
    }
    if Unsigned(p) <= Unsigned(m) <= bits {
      assert InRangeWithout(bits, p, m, p / WORD, m / WORD);
    }
  }

  lemma UnsignedQuotient(n: int)
    ensures Unsigned(n) == n - (n / WORD) * WORD
  {
  }

  /** So the checks do what they are for exactly when the lengths are not such
      that taking off words, at least one in all, brings them into range. */
  lemma EncodeExact(addr: seq<Byte>, p: int, maxlen: Option<int>)
    requires |addr| <= 16
    ensures var bits, m := 8 * |addr|, MaxOf(p, maxlen);
      (Encoded(addr, p, maxlen).Ok? <==> LengthsInRange(bits, p, m)) <==>
      !(FitsLong(p) && FitsLong(m) && exists j, k :: (j != 0 || k != 0) && InRangeWithout(bits, p, m, j, k))
  {
    var bits, m := 8 * |addr|, MaxOf(p, maxlen);
    EncodeAccepts(addr, p, maxlen);
    if LengthsInRange(bits, p, m) {
      forall j, k | InRangeWithout(bits, p, m, j, k) ensures j == 0 && k == 0 {
        UnsignedWithout(bits, p, j);
        UnsignedWithout(bits, m, k);
      }
      assert InRangeWithout(bits, p, m, 0, 0);
    } else {
      assert !InRangeWithout(bits, p, m, 0, 0);
    }
  }

  /** The same with no maximum length given. */
  lemma EncodeExactAlone(addr: seq<Byte>, p: int)
    requires |addr| <= 16 && FitsLong(p)
    ensures (Encoded(addr, p, None).Ok? <==> 0 <= p <= 8 * |addr|) <==>
      !(exists k: int :: k != 0 && InRangeWithout(8 * |addr|, p, p, k, k))
  {
    var bits := 8 * |addr|;
    EncodeExact(addr, p, None);
    if j, k :| (j != 0 || k != 0) && InRangeWithout(bits, p, p, j, k) {
      UnsignedWithout(bits, p, j);
      UnsignedWithout(bits, p, k);
    }
  }

  /** A length of 2^32 + 8 is accepted, as the length 8. */
  lemma EncodeWraps(addr: seq<Byte>)
    requires |addr| == 4 || |addr| == 16
    ensures Encoded(addr, 0x1_0000_0008, None) == Encoded(addr, 8, None) && Encoded(addr, 8, None).Ok?
  {
    assert Unsigned(0x1_0000_0008) == 8 && Unsigned(8) == 8;
  }

  /** More generally a length of a C long may lose a word. */
  lemma EncodePeriodic(addr: seq<Byte>, p: int, maxlen: Option<int>)
    requires FitsLong(p) && FitsLong(p + WORD)
    ensures Encoded(addr, p + WORD, maxlen) == Encoded(addr, p, maxlen)
  {
    assert Unsigned(p + WORD) == Unsigned(p);
  }

  /** Whatever the BIT STRING, the decoded address has no bits past the decoded
      length, which is in range unless an empty string announces unused bits. */
  lemma DecodedIsPrefix(afi: Afi, ra: RoaIPAddress)
    requires afi != Unknown && |ra.data| <= AddressLength(afi)
    ensures var bits := 8 * AddressLength(afi);
      && (DecodedLength(ra) <= bits <==> ra.data != [] || Unused(ra.flags) == 0)
      && FromBytes(Decoded(AddressLength(afi), ra)) < Pow2(bits)
      && (DecodedLength(ra) <= bits ==> Multiple(FromBytes(Decoded(AddressLength(afi), ra)), bits - DecodedLength(ra)))
  {
    var length := AddressLength(afi);
    var u := Unused(ra.flags);
    FromBytesBound(Decoded(length, ra));
    if ra.data != [] || u == 0 {
      DecodedMultiple(length, ra, u);
    }
  }

  /** An empty string with one unused bit decodes to the length 2^32 - 1. */
  lemma EmptyWithUnusedBit(ra: RoaIPAddress)
    requires ra == RoaIPAddress([], BITS_LEFT + 1, None)
    ensures Extractable(IPv4, ra) && Extractable(IPv6, ra) && DecodedLength(ra) == 0xFFFF_FFFF
  {
    UnusedOfFlags(1);
  }

  lemma DecodedMultiple(length: nat, ra: RoaIPAddress, u: nat)
    requires |ra.data| <= length <= 16 && u == Unused(ra.flags) && (ra.data == [] ==> u == 0)
    ensures DecodedLength(ra) == 8 * |ra.data| - u
    ensures Multiple(FromBytes(Decoded(length, ra)), 8 * length - DecodedLength(ra))
  {
    hide Low, FromBytes, MaskLast, Zeros, Pow2;
    var z := Zeros(length - |ra.data|);
    MaskedPrefix(ra.data, z, u);
    var v := FromBytes(ra.data + z);
    LowCleared(v, u + 8 * |z|);
    MultipleLow(v - Low(v, u + 8 * |z|), u + 8 * |z|);
  }

  /** The form setPrefixes stores: the unused bits are zero and announced with
      the BITS_LEFT flag, and maxLength is left out when it says nothing. */
  predicate StoredForm(length: nat, ra: RoaIPAddress) {
    var p := 8 * |ra.data| - Unused(ra.flags);
    && p >= 0
    && ra.flags == BITS_LEFT + Unused(ra.flags)
    && MaskLast(ra.data, Unused(ra.flags)) == ra.data
    && (ra.maxLength.Some? ==> p < ra.maxLength.value <= 8 * length)
  }

  /** Encoding what a decoder returns gives the same entry back exactly when the
      entry was in the form setPrefixes stores. */
  lemma ReencodeExact(afi: Afi, ra: RoaIPAddress)
    requires afi != Unknown && |ra.data| <= AddressLength(afi)
    ensures Encoded(Decoded(AddressLength(afi), ra), DecodedLength(ra), ra.maxLength) == Ok(ra)
      <==> StoredForm(AddressLength(afi), ra)
  {
    hide Decoded, MaskLast, Unused, EncodeEntry, Encoded;
    var length := AddressLength(afi);
    var p := 8 * |ra.data| - Unused(ra.flags);
    if p >= 0 {
      ReencodeEntry(length, ra, p);
      ReencodeLength(Decoded(length, ra), ra, p);
      assert DecodedLength(ra) == p;
    } else {
      NegativeFails(Decoded(length, ra), ra);
    }
  }

  /** A decoded length that wrapped around is rejected. */
  lemma NegativeFails(addr: seq<Byte>, ra: RoaIPAddress)
    requires |addr| <= 16 && 8 * |ra.data| < Unused(ra.flags)
    ensures Encoded(addr, DecodedLength(ra), ra.maxLength).Error?
  {
    hide EncodeEntry, Unused;
    assert DecodedLength(ra) == 8 * |ra.data| - Unused(ra.flags) + WORD;
    assert Unsigned(DecodedLength(ra)) == DecodedLength(ra);
  }

  /** The entry encoded anew, for whatever maximum length. */
  lemma ReencodeEntry(length: nat, ra: RoaIPAddress, p: nat)
    requires |ra.data| <= length <= 16 && p == 8 * |ra.data| - Unused(ra.flags)
    ensures Reencodes(Decoded(length, ra), ra, p)
  {
    hide Unused, MaskLast, Zeros;
    var u := Unused(ra.flags);
    assert (p + 7) / 8 == |ra.data|;
    assert u == if p % 8 > 0 then 8 - p % 8 else 0;
    assert Decoded(length, ra)[..|ra.data|] == MaskLast(ra.data, u);
    MaskTwice(ra.data, u);
  }

  ghost predicate Reencodes(addr: seq<Byte>, ra: RoaIPAddress, p: nat) {
    p <= 8 * |addr| && forall m: nat ::
      EncodeEntry(addr, p, m).data == MaskLast(ra.data, Unused(ra.flags)) &&
      EncodeEntry(addr, p, m).flags == BITS_LEFT + Unused(ra.flags)
  }

  lemma ReencodeLength(addr: seq<Byte>, ra: RoaIPAddress, p: nat)
    requires |addr| <= 16 && Reencodes(addr, ra, p)
    ensures Encoded(addr, p, ra.maxLength) == Ok(ra) <==>
      && ra.flags == BITS_LEFT + Unused(ra.flags)
      && MaskLast(ra.data, Unused(ra.flags)) == ra.data
      && (ra.maxLength.Some? ==> p < ra.maxLength.value <= 8 * |addr|)
  {
    hide EncodeEntry, MaskLast, Unused;
    assert FitsLong(p) && Unsigned(p) == p;
    var m := Unsigned(MaxOf(p, ra.maxLength));
    var e := EncodeEntry(addr, p, m);
    assert e.data == MaskLast(ra.data, Unused(ra.flags)) && e.flags == BITS_LEFT + Unused(ra.flags);
    EntryLength(addr, p, m);
  }
}
