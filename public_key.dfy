/** The source's `getPublicKey`: decode 32 bytes little-endian, reduce modulo
    n, clear bits 252-254 and set bit 254, multiply the base point, and encode
    y little-endian. The parity of x is meant for the top bit of the last
    byte, but line 135 as written throws a TypeError first; both readings
    are modelled (GetPublicKeyAsWritten, GetPublicKeyIntended). This is neither the SHA-512 expansion nor the clamping of section 5.1.5
    of RFC 8032; the encoding follows section 5.1.2. */
module PublicKey {
  import opened Arith
  import opened Curve
  import opened Points

  /** An element of a Uint8Array. */
  type Byte = b: int | 0 <= b < 256

  /** The integer Σ bytes[i]·256^i, built from the last byte down. */
  function LittleEndian(bytes: seq<Byte>): (v: nat)
    ensures v < TwoPow(8 * |bytes|)
  {
    if |bytes| == 0 then 0
    else
      var k := |bytes| - 1;
      var low, m := LittleEndian(bytes[..k]), TwoPow(8 * k);
      TwoPowAdd(8 * k, 8);
      assert 8 * |bytes| == 8 * k + 8;
      NextDigitFits(low, bytes[k], m);
      low + bytes[k] * m
  }

  /** Adding one more base-256 digit above a value below m stays below
      256·m = 2^8·m. */
  lemma NextDigitFits(low: int, digit: Byte, m: int)
    requires 0 <= low < m
    ensures 0 <= low + digit * m < m * TwoPow(8)
  {
    assert TwoPow(8) == 256;
    assert digit * m <= 255 * m;
  }

  /** `s &= ~(7n << 252n)`: bits 252, 253 and 254 cleared, all others kept. */
  function ClearBits252To254(s: int): (r: int)
    ensures r % TwoPow(252) == s % TwoPow(252)
    ensures (r / TwoPow(252)) % 8 == 0
    ensures r / TwoPow(255) == s / TwoPow(255)
  {
    var r := s - ((s / TwoPow(252)) % 8) * TwoPow(252);
    ClearBitsLayout(s, r);
    r
  }

  /** Subtracting (q mod 8)·2^252 leaves the bits below 252 and from 255 up,
      and zeroes the three in between. */
  lemma ClearBitsLayout(s: int, r: int)
    requires r == s - ((s / TwoPow(252)) % 8) * TwoPow(252)
    ensures r % TwoPow(252) == s % TwoPow(252)
    ensures (r / TwoPow(252)) % 8 == 0
    ensures r / TwoPow(255) == s / TwoPow(255)
  {
    TwoPowAdd(252, 3);
    assert TwoPow(3) == 8;
    ClearDigit(s, TwoPow(252), 8);
  }

  /** Subtracting the base-m digit of s taken mod k zeroes that digit and
      leaves the lower part and everything of weight m·k and up. */
  lemma ClearDigit(s: int, m: int, k: int)
    requires m > 0 && k > 0
    ensures var r := s - ((s / m) % k) * m;
      r % m == s % m && (r / m) % k == 0 && r / (m * k) == s / (m * k)
  {
    var q, lo := s / m, s % m;
    var t := q / k;
    var r := s - (q % k) * m;
    assert q == t * k + q % k;
    assert s == q * m + lo;
    assert q * m == (t * k) * m + (q % k) * m;
    assert r == (t * k) * m + lo;
    DivModUnique(r, m, t * k, lo);
    ModAddMultiple(t, 0, k);
    assert (t * k) / k == t;
    DivModSplit(r, m, k);
    DivModSplit(s, m, k);
  }

  /** `s |= (1n << 254n)`: bit 254 set, all others kept. */
  function SetBit254(s: int): (r: int)
    ensures Bit(r, 254) == 1
    ensures r % TwoPow(254) == s % TwoPow(254)
    ensures r / TwoPow(255) == s / TwoPow(255)
  {
    if Bit(s, 254) == 1 then s else SetBitLayout(s); s + TwoPow(254)
  }

  /** Adding 2^254 to a value whose bit 254 is clear sets that bit and
      changes no other. */
  lemma SetBitLayout(s: int)
    requires Bit(s, 254) == 0
    ensures var r := s + TwoPow(254);
      Bit(r, 254) == 1 && r % TwoPow(254) == s % TwoPow(254) && r / TwoPow(255) == s / TwoPow(255)
  {
    TwoPowAdd(254, 1);
    AddClearDigit(s, TwoPow(254));
  }

  /** Adding m to a value whose digit of weight m is even makes that digit
      odd and leaves the rest. */
  lemma AddClearDigit(s: int, m: int)
    requires m > 0 && (s / m) % 2 == 0
    ensures ((s + m) / m) % 2 == 1
    ensures (s + m) % m == s % m
    ensures (s + m) / (m * 2) == s / (m * 2)
  {
    var q := s / m;
    ModAddMultiple(1, s, m);
    assert (s + m) / m == q + 1;
    DivModSplit(s + m, m, 2);
    DivModSplit(s, m, 2);
  }

  /** A value below n, so below 2^253, loses only bit 252 to the clearing. */
  lemma ClearedBelowN(t: int)
    requires 0 <= t < N
    ensures ClearBits252To254(t) == t % TwoPow(252)
  {
    PowersOfTwo();
    ConstantRanges();
    var m := TwoPow(252);
    DivBelow(t, m, 2);
    assert (t / m) % 8 == t / m;
  }

  /** A value below 2^252 gains exactly 2^254 from setting bit 254. */
  lemma SetBitOfSmall(c: int)
    requires 0 <= c < TwoPow(252)
    ensures SetBit254(c) == c + TwoPow(254)
  {
    BitsAboveAreClear(c, 252, 254);
  }

  /** Lines 120-122: the scalar the source multiplies the base point by.
      Because n < 2^253 it is (decoded mod n) mod 2^252 plus 2^254. */
  function Clamp(decoded: int): (s: int)
    ensures s == Mod(decoded, N) % TwoPow(252) + TwoPow(254)
    ensures TwoPow(254) <= s < TwoPow(255)
  {
    var t := Mod(decoded, N);
    ClearedBelowN(t);
    SetBitOfSmall(ClearBits252To254(t));
    PowersOfTwo();
    SetBit254(ClearBits252To254(t))
  }

  /** The clamped scalar has bits 252 and 253 clear, bit 254 set, and
      nothing at or above bit 255 set. */
  lemma ClampLayout(decoded: int)
    ensures Clamp(decoded) == Mod(decoded, N) % TwoPow(252) + TwoPow(254)
    ensures TwoPow(254) <= Clamp(decoded) < TwoPow(255)
    ensures Bit(Clamp(decoded), 252) == 0 && Bit(Clamp(decoded), 253) == 0
    ensures Bit(Clamp(decoded), 254) == 1
    ensures forall j :: 255 <= j ==> Bit(Clamp(decoded), j) == 0
  {
    PowersOfTwo();
    var m := TwoPow(252);
    var r := Clamp(decoded);
    var lo := Mod(decoded, N) % m;
    ModAddMultiple(4, lo, m);
    DivModUnique(lo, m, 0, lo);
    assert r / m == 4;
    DivModSplit(r, m, 2);
    DivModSplit(r, m, 4);
    forall j | 255 <= j
      ensures Bit(r, j) == 0
    {
      BitsAboveAreClear(r, 255, j);
    }
  }

  /** Line 133: byte i of y, `Number((y >> BigInt(8 * i)) & 255n)`: bits
      8i to 8i + 7 of y. */
  function ByteOf(y: int, i: nat): (b: Byte)
    ensures b == (y % TwoPow(8 * i + 8)) / TwoPow(8 * i)
  {
    ByteIsBitField(y, i);
    (y / TwoPow(8 * i)) % 256
  }

  lemma ByteIsBitField(y: int, i: nat)
    ensures (y / TwoPow(8 * i)) % 256 == (y % TwoPow(8 * i + 8)) / TwoPow(8 * i)
  {
    var m := TwoPow(8 * i);
    var b := (y / m) % 256;
    TwoPowAdd(8 * i, 8);
    assert TwoPow(8) == 256;
    DivModSplit(y, m, 256);
    ModAddMultiple(b, y % m, m);
    DivModUnique(y % m, m, 0, y % m);
  }

  /** The 32 bytes of y, least significant first. */
  function EncodeY(y: int): (bytes: seq<Byte>)
    ensures |bytes| == 32
    ensures forall i :: 0 <= i < 32 ==> bytes[i] == ByteOf(y, i)
  {
    seq(32, i requires 0 <= i => ByteOf(y, i))
  }

  /** `b | (bit << 7)` for a byte b and a bit, the `|=` of line 135 as
      intended: the top bit becomes set when the bit is, and the low seven
      bits stay. */
  function OrTopBit(b: Byte, bit: int): (r: Byte)
    requires bit == 0 || bit == 1
    ensures r % 128 == b % 128
    ensures r / 128 == if bit == 1 then 1 else b / 128
  {
    if bit == 1 && b < 128 then b + 128 else b
  }

  /** Lines 128-135 with line 135 read as intended: the encoding of the
      public point, y little-endian with the parity of x in the top bit of
      byte 31. */
  function EncodePoint(p: Point): (bytes: seq<Byte>)
    ensures |bytes| == 32
    ensures forall i :: 0 <= i < 31 ==> bytes[i] == ByteOf(p.y, i)
    ensures bytes[31] % 128 == ByteOf(p.y, 31) % 128
    ensures bytes[31] / 128 == if p.x % 2 == 1 then 1 else ByteOf(p.y, 31) / 128
  {
    var ys := EncodeY(p.y);
    ys[31 := OrTopBit(ys[31], p.x % 2)]
  }

  /** y read back from an encoding: the bytes little-endian with the top
      bit of the last one cleared. */
  function DecodeY(bytes: seq<Byte>): (y: nat)
    requires |bytes| == 32
  {
    LittleEndian(bytes[..31] + [bytes[31] % 128])
  }

  /** The parity bit read back from an encoding. */
  function DecodeParity(bytes: seq<Byte>): (bit: int)
    requires |bytes| == 32
  {
    bytes[31] / 128
  }

  /** The first k bytes of the encoding hold y modulo 2^(8k). */
  lemma {:induction false} EncodeYPrefix(y: int, k: nat)
    requires k <= 32
    ensures LittleEndian(EncodeY(y)[..k]) == y % TwoPow(8 * k)
  {
    var e := EncodeY(y);
    if k > 0 {
      EncodeYPrefix(y, k - 1);
      assert e[..k][..k - 1] == e[..k - 1];
      var m := TwoPow(8 * (k - 1));
      assert LittleEndian(e[..k]) == y % m + ((y / m) % 256) * m;
      DivModSplit(y, m, 256);
      TwoPowAdd(8 * (k - 1), 8);
      assert TwoPow(8) == 256;
    }
  }

  /** For y below 2^255 the last byte of y is below 128, so its top bit is
      free for the parity. */
  lemma LastByteOfSmall(y: int)
    requires 0 <= y < TwoPow(255)
    ensures ByteOf(y, 31) == y / TwoPow(248) < 128
  {
    TwoPowAdd(248, 7);
    assert TwoPow(7) == 128;
    DivBelow(y, TwoPow(248), 128);
    DivModUnique(y / TwoPow(248), 256, 0, y / TwoPow(248));
  }

  /** Clearing the top bit of the last byte of an encoding gives back the
      bytes of y. */
  lemma EncodingWithoutParity(p: Point)
    requires ByteOf(p.y, 31) < 128
    ensures var bytes := EncodePoint(p);
      bytes[..31] + [bytes[31] % 128] == EncodeY(p.y)
  {
    var ys := EncodeY(p.y);
    var bytes := EncodePoint(p);
    assert bytes[..31] == ys[..31];
    assert bytes[31] % 128 == ys[31];
    assert ys == ys[..31] + [ys[31]];
  }

  /** All 32 bytes of y read back little-endian give y, for y below 2^255. */
  lemma EncodeYRoundTrip(y: int)
    requires 0 <= y < TwoPow(255)
    ensures LittleEndian(EncodeY(y)) == y
  {
    var ys := EncodeY(y);
    EncodeYPrefix(y, 32);
    assert ys[..32] == ys;
    TwoPowMonotone(255, 256);
    DivModUnique(y, TwoPow(256), 0, y);
  }

  /** For y below 2^255, the encoding gives back y and the parity of x. */
  lemma EncodeRoundTrip(p: Point)
    requires 0 <= p.y < TwoPow(255)
    ensures DecodeY(EncodePoint(p)) == p.y
    ensures DecodeParity(EncodePoint(p)) == p.x % 2
  {
    LastByteOfSmall(p.y);
    EncodingWithoutParity(p);
    EncodeYRoundTrip(p.y);
  }

  /** Bytes of y with the parity OR-ed into the last one are the encoding. */
  lemma EncodingFromBytes(bytes: seq<Byte>, p: Point)
    requires bytes == EncodeY(p.y) && Reduced(p)
    ensures var encoded := bytes[31 := OrTopBit(bytes[31], p.x % 2)];
      encoded == EncodePoint(p) && DecodeY(encoded) == p.y && DecodeParity(encoded) == p.x % 2
  {
    ConstantRanges();
    EncodeRoundTrip(p);
  }

  /** One more byte of the little-endian sum at line 116. */
  lemma LittleEndianNextByte(bytes: seq<Byte>, i: nat)
    requires i < |bytes|
    ensures LittleEndian(bytes[..i + 1]) == LittleEndian(bytes[..i]) + bytes[i] * TwoPow(8 * i)
  {
    assert bytes[..i + 1][..i] == bytes[..i];
  }

  /** The point `getPublicKey` multiplies out for a 32-byte key. */
  function PublicPoint(privateKey: seq<Byte>): (p: Point)
    ensures Reduced(p)
  {
    ScalarMult(G, Clamp(LittleEndian(privateKey)))
  }

  /** Lines 113-125 for a key whose length line 109 has checked: the
      little-endian decoding loop, the clamping and the multiplication of
      the base point. */
  method ClampedPoint(privateKey: seq<Byte>) returns (point: Point)
    requires |privateKey| == 32
    ensures point == PublicPoint(privateKey)
  {
    var scalar := 0;
    for i := 0 to 32
      invariant scalar == LittleEndian(privateKey[..i])
    {
      LittleEndianNextByte(privateKey, i);
      scalar := scalar + privateKey[i] * TwoPow(8 * i);
    }
    assert privateKey[..32] == privateKey;

    scalar := Mod(scalar, N);
    scalar := ClearBits252To254(scalar);
    scalar := SetBit254(scalar);
    assert scalar == Clamp(LittleEndian(privateKey));

    point := PointMultiply(G, scalar);
  }

  /** Lines 130-134: a new `Uint8Array(32)` filled with the bytes of y,
      least significant first. */
  method FillY(y: int) returns (result: array<Byte>)
    ensures fresh(result)
    ensures result[..] == EncodeY(y)
  {
    result := new Byte[32];
    for i := 0 to 32
      invariant result[..i] == EncodeY(y)[..i]
    {
      result[i] := ByteOf(y, i);
      assert result[..i + 1] == result[..i] + [result[i]];
    }
    assert result[..] == result[..32];
  }

  /** Line 135 shifts `x & 1n`, a BigInt, by the Number 7, which throws a
      TypeError; shifting `Number(x & 1n)` instead gives 128 times the
      parity of x. */
  lemma ParityShiftThrows(x: int)
    ensures ShiftLeft(BigInt(x % 2), Number(7)) == Err(MixedBigIntNumber)
    ensures ShiftLeft(Number(x % 2), Number(7)) == Ok(Number(128 * (x % 2)))
  {
    var b := x % 2;
    assert TwoPow(7) == 128;
    assert ToInt32(b) == b;
    var shifted := b * TwoPow(7 % 32);
    assert shifted == 128 * b;
    assert ToInt32(shifted) == shifted;
  }

  /** The source's `getPublicKey(privateKey)` as written. Line 135 mixes a
      BigInt and a Number in `<<`, so every 32-byte key ends in a TypeError
      there and the `|=` into byte 31 is never reached. */
  method GetPublicKeyAsWritten(privateKey: seq<Byte>) returns (r: Result<seq<Byte>>)
    ensures r.Err?
    ensures r.error == if |privateKey| != 32 then InvalidInput else MixedBigIntNumber
  {
    if |privateKey| != 32 {
      return Err(InvalidInput);
    }
    var point := ClampedPoint(privateKey);
    var x := point.x;
    var result := FillY(point.y);
    var shifted := ShiftLeft(BigInt(x % 2), Number(7));
    if shifted.Err? {
      return Err(shifted.error);
    }
    assert false;
  }

  /** `getPublicKey(privateKey)` with line 135 read as the evidently
      intended `Number(x & 1n) << 7`: the parity of x goes into the top bit
      of byte 31. */
  method GetPublicKeyIntended(privateKey: seq<Byte>) returns (r: Result<seq<Byte>>)
    ensures r.Err? <==> |privateKey| != 32
    ensures r.Err? ==> r.error == InvalidInput
    ensures r.Ok? ==> r.value == EncodePoint(PublicPoint(privateKey))
    ensures r.Ok? ==> |r.value| == 32 && DecodeY(r.value) == PublicPoint(privateKey).y
    ensures r.Ok? ==> DecodeParity(r.value) == PublicPoint(privateKey).x % 2
  {
    if |privateKey| != 32 {
      return Err(InvalidInput);
    }
    var point := ClampedPoint(privateKey);
    var x := point.x;
    var result := FillY(point.y);
    ghost var bytes := result[..];
    EncodingFromBytes(bytes, point);
    result[31] := OrTopBit(result[31], x % 2);
    assert result[..] == bytes[31 := OrTopBit(bytes[31], x % 2)];
    r := Ok(result[..]);
  }
}
