/**
 The content octets of an ASN.1 INTEGER (and ENUMERATED): two's complement,
 big-endian, as in section 8.3 of ITU-T X.690.

 `IntValueToDer` follows the source's sizing, which computes Ruby's
 `bit_length` -- for a negative v that is the bit length of ~v = -v-1 -- and
 adds a sign octet only for positive values. Negative values whose `bit_length`
 is a positive multiple of 8 therefore lose their sign octet (`SignLost`).
 `EncodeMinimal` is the encoder with the sign octet counted for every value.
 */
module IntegerCodec {
  import opened Numeric
  import opened Octets

  /** Ruby's Integer#~ (bitwise not of an unbounded two's complement integer). */
  function Complement(x: int): int
  {
    -x - 1
  }

  function Abs(x: int): nat
  {
    if x < 0 then -x else x
  }

  /** Ruby's Integer#bit_length: for a negative v, the bit length of ~v. */
  function RubyBitLength(v: int): nat
  {
    if v >= 0 then BitLen(v) else BitLen(Complement(v))
  }

  /** Ruby's `x & ((1 << k) - 1)`: the k low bits of x. */
  function LowBits(x: int, k: nat): int
  {
    x % Pow2(k)
  }

  /** v is representable in n octets of two's complement. */
  predicate Fits(v: int, n: nat)
  {
    n >= 1 && -(Pow2(8 * n - 1) as int) <= v < Pow2(8 * n - 1)
  }

  /** The number of octets a minimal encoding of v uses: its bits plus a sign bit. */
  function MinSize(v: int): nat
  {
    RubyBitLength(v) / 8 + 1
  }

  /** The negative values whose as-written encoding has no room for the sign bit. */
  predicate SignLost(v: int)
  {
    v < 0 && RubyBitLength(v) > 0 && RubyBitLength(v) % 8 == 0
  }

  lemma MulMonotone(a: int, b: int, w: int)
    requires a <= b && w >= 0
    ensures a * w <= b * w
  {
    assert b * w - a * w == (b - a) * w;
  }

  /** With 0 <= r < h, comparing a*h + r against k*h compares a against k. */
  lemma ScaleCompare(a: int, k: int, r: int, h: int)
    requires 0 <= r < h
    ensures a * h + r < k * h <==> a < k
  {
    if a < k {
      MulMonotone(a, k - 1, h);
      assert (k - 1) * h + h == k * h;
    } else {
      MulMonotone(k, a, h);
    }
  }

  /** MinSize(v) is the least octet count that can hold v. */
  lemma FitsIff(v: int, n: nat)
    requires n >= 1
    ensures Fits(v, n) <==> MinSize(v) <= n
  {
    if v >= 0 {
      BitLenFits(v, 8 * n - 1);
    } else {
      BitLenFits(Complement(v), 8 * n - 1);
    }
  }

  /** integer.rb:85-90: the octet count the source computes for v. */
  function EncodedSize(v: int): nat
  {
    var bits := RubyBitLength(v);
    var size := bits / 8 + (if bits % 8 > 0 then 1 else 0);
    var size := if size == 0 then 1 else size;
    if v > 0 && v / Pow2(size * 8 - 1) == 1 then size + 1 else size
  }

  /** The source's octet count is the minimal one, except where the sign is lost. */
  lemma EncodedSizeIsMinimal(v: int)
    ensures EncodedSize(v) == if SignLost(v) then MinSize(v) - 1 else MinSize(v)
  {
    var bits := RubyBitLength(v);
    if v > 0 {
      BitLenFits(v, bits);
      BitLenFits(v, bits - 1);
      assert Pow2(bits - 1) <= v < Pow2(bits);
      var size := bits / 8 + (if bits % 8 > 0 then 1 else 0);
      var p := Pow2(size * 8 - 1);
      if bits % 8 > 0 {
        Pow2Monotone(bits, size * 8 - 1);
        DivModUnique(v, p, 0, v);
      } else {
        assert size * 8 - 1 == bits - 1;
        assert Pow2(bits) == 2 * p;
        DivModUnique(v, p, 1, v - p);
      }
    }
  }

  /**
   integer.rb:83-98 (int_value_to_der): the content octets the source writes
   for v -- never empty, and exactly v modulo 256^|der|. A non-negative v is
   written as itself, with a clear top bit, in its minimal octet count.
   */
  function IntValueToDer(v: int): (der: seq<byte>)
    ensures |der| >= 1
    ensures ToNat(der) == v % Pow2(8 * |der|)
    ensures v >= 0 ==> |der| == MinSize(v) && ToNat(der) == v && !IsNegativeOctet(der[0])
  {
    var size := EncodedSize(v);
    var comp := if v > 0 then v else Complement(Abs(v)) + 1;
    EncodedSizeIsMinimal(v);
    assert comp == v;
    SerializeValue(comp, size);
    var der := Serialize(comp, size);
    if v >= 0 then
      FitsIff(v, size);
      Pow2Add(1, 8 * size - 1);
      DivModUnique(v, Pow2(8 * size), 0, v);
      TopBitIff(der);
      der
    else
      der
  }

  /** X.690 section 8.3.3: the value of content octets read as two's complement. */
  function Signed(der: seq<byte>): int
    requires |der| >= 1
  {
    var u := ToNat(der);
    if u < Pow2(8 * |der| - 1) then u else u - Pow2(8 * |der|)
  }

  /** The top bit of the first octet is set exactly when the unsigned value reaches 2^(8n-1). */
  lemma TopBitIff(der: seq<byte>)
    requires |der| >= 1
    ensures IsNegativeOctet(der[0]) <==> ToNat(der) >= Pow2(8 * |der| - 1)
  {
    var w := Pow2(8 * (|der| - 1));
    ToNatFirst(der);
    ToNatBound(der[1..]);
    assert Pow2(8 * |der| - 1) == 128 * w by {
      Pow2Add(7, 8 * (|der| - 1));
      assert Pow2(7) == 128;
    }
    ScaleCompare(der[0] as int, 128, ToNat(der[1..]), w);
  }

  /** Ruby's `b & 0x80 == 0x80` on an octet: its top bit, the sign bit, is set. */
  predicate IsNegativeOctet(b: byte)
  {
    b >= 0x80
  }

  /** The comparison above is the source's mask test. */
  lemma IsNegativeOctetIsMask(b: byte)
    ensures IsNegativeOctet(b) <==> (b as bv8) & 0x80 == 0x80
  {
  }

  /**
   integer.rb:111-116 (der_to_int_value): the value of non-empty content
   octets read as two's complement; it always fits in their octet count.
   */
  function DerToIntValue(der: seq<byte>): (v: int)
    requires |der| >= 1
    ensures v == Signed(der)
    ensures Fits(v, |der|)
  {
    var u := ToNat(der);
    var n := |der|;
    ToNatBound(der);
    Pow2Add(1, 8 * n - 1);
    TopBitIff(der);
    if IsNegativeOctet(der[0]) then
      BitLenFits(u, 8 * n);
      BitLenFits(u, 8 * n - 1);
      DivModUnique(Complement(u), Pow2(8 * n), -1, Pow2(8 * n) - u - 1);
      -(LowBits(Complement(u), BitLen(u)) + 1)
    else
      u
  }

  /**
   integer.rb:111-116 on any content, empty included: no octets decode to 0,
   the seed of the fold (`ary[0]` is nil, `nil & 0x80` is false, so the sign
   branch is skipped).
   */
  function DecodeContent(der: seq<byte>): (v: int)
    ensures |der| == 0 ==> v == 0
    ensures |der| >= 1 ==> v == Signed(der) && Fits(v, |der|)
  {
    if |der| == 0 then 0 else DerToIntValue(der)
  }

  /** Reading back n octets written from v gives v exactly when v fits in n octets. */
  lemma DecodeSerialize(v: int, n: nat)
    requires n >= 1
    ensures DerToIntValue(Serialize(v, n)) == v <==> Fits(v, n)
  {
    var m := Pow2(8 * n);
    SerializeValue(v, n);
    Pow2Add(1, 8 * n - 1);
    if Fits(v, n) {
      if v >= 0 {
        DivModUnique(v, m, 0, v);
      } else {
        DivModUnique(v, m, -1, v + m);
      }
    }
  }

  /** Decoding the source's encoding gives v back exactly when v does not lose its sign. */
  lemma RoundTrip(v: int)
    ensures DerToIntValue(IntValueToDer(v)) == v <==> !SignLost(v)
  {
    var size := EncodedSize(v);
    EncodedSizeIsMinimal(v);
    FitsIff(v, size);
    assert IntValueToDer(v) == Serialize(v, size);
    DecodeSerialize(v, size);
  }

  /** Every non-negative integer survives encode then decode. */
  lemma RoundTripNonNegative(v: int)
    requires v >= 0
    ensures DerToIntValue(IntValueToDer(v)) == v
  {
    RoundTrip(v);
  }

  /** The source's encoding is v written in its (as-written) octet count. */
  lemma EncodeIs(v: int)
    ensures IntValueToDer(v) == Serialize(v, if SignLost(v) then MinSize(v) - 1 else MinSize(v))
  {
    EncodedSizeIsMinimal(v);
  }

  /** Values in -128..127 are written as the single octet v mod 256. */
  lemma EncodeOneOctet(v: int)
    requires -128 <= v < 128
    ensures IntValueToDer(v) == [(v % 256) as byte]
  {
    Pow2Table();
    if v >= 0 {
      BitLenFits(v, 7);
    } else {
      BitLenFits(Complement(v), 7);
    }
    EncodeIs(v);
  }

  /** Values in 128..32767 are written as two octets, the high one first. */
  lemma EncodeTwoOctets(v: int)
    requires 128 <= v < 32768
    ensures IntValueToDer(v) == [(v / 256) as byte, (v % 256) as byte]
  {
    Pow2Table();
    BitLenFits(v, 7);
    BitLenFits(v, 15);
    EncodeIs(v);
    assert Serialize(v, 2) == Serialize(v / 256, 1) + [(v % 256) as byte];
  }

  lemma EncodeZero()
    ensures IntValueToDer(0) == [0x00]
  {
    assert IntValueToDer(0) == Serialize(0, 1) by {
      EncodeIs(0);
    }
  }

  lemma Encode127()
    ensures IntValueToDer(127) == [0x7F]
  {
    Pow2Table();
    BitLenIs(127, 7);
    assert IntValueToDer(127) == Serialize(127, 1) by {
      EncodeIs(127);
    }
  }

  lemma Encode128()
    ensures IntValueToDer(128) == [0x00, 0x80]
  {
    Pow2Table();
    BitLenIs(128, 8);
    assert IntValueToDer(128) == Serialize(128, 2) by {
      EncodeIs(128);
    }
  }

  lemma EncodeMinusOne()
    ensures IntValueToDer(-1) == [0xFF]
  {
    assert IntValueToDer(-1) == Serialize(-1, 1) by {
      EncodeIs(-1);
    }
  }

  lemma EncodeMinus128()
    ensures IntValueToDer(-128) == [0x80]
  {
    Pow2Table();
    BitLenIs(127, 7);
    assert IntValueToDer(-128) == Serialize(-128, 1) by {
      EncodeIs(-128);
    }
  }

  /** The boundary values of the two's-complement encoding: 0, 127/128 and -1/-128. */
  lemma EncodeExamples()
    ensures IntValueToDer(0) == [0x00]
    ensures IntValueToDer(127) == [0x7F]
    ensures IntValueToDer(128) == [0x00, 0x80]
    ensures IntValueToDer(-1) == [0xFF]
    ensures IntValueToDer(-128) == [0x80]
  {
    EncodeZero();
    Encode127();
    Encode128();
    EncodeMinusOne();
    EncodeMinus128();
  }

  /** Decoding reads the first octet's top bit as the sign. */
  lemma DecodeExamples()
    ensures DerToIntValue([0xFF]) == -1
    ensures DerToIntValue([0x80]) == -128
    ensures DerToIntValue([0x00, 0x80]) == 128
  {
    assert ToNat([0xFF]) == 255 by {
      assert [0xFF][..0] == [];
    }
    assert ToNat([0x80]) == 128 by {
      assert [0x80][..0] == [];
    }
    assert ToNat([0x00, 0x80]) == 128 by {
      assert [0x00, 0x80][..1] == [0x00];
      assert [0x00][..0] == [];
    }
    Pow2Table();
  }

  lemma EncodeMinus129()
    ensures SignLost(-129) && IntValueToDer(-129) == [0x7F]
  {
    Pow2Table();
    BitLenIs(128, 8);
    assert IntValueToDer(-129) == Serialize(-129, 1) by {
      EncodeIs(-129);
    }
  }

  lemma EncodeMinus256()
    ensures SignLost(-256) && IntValueToDer(-256) == [0x00]
  {
    Pow2Table();
    BitLenIs(255, 8);
    assert IntValueToDer(-256) == Serialize(-256, 1) by {
      EncodeIs(-256);
    }
  }

  /** -129 and -256 lose their sign octet: they come back as 127 and 0. */
  lemma SignLostExamples()
    ensures IntValueToDer(-129) == [0x7F] && DerToIntValue([0x7F]) == 127
    ensures IntValueToDer(-256) == [0x00] && DerToIntValue([0x00]) == 0
  {
    EncodeMinus129();
    EncodeMinus256();
    assert ToNat([0x7F]) == 127 by {
      assert [0x7F][..0] == [];
    }
    assert ToNat([0x00]) == 0 by {
      assert [0x00][..0] == [];
    }
    Pow2Table();
  }

  /**
   X.690 section 8.3.2: when there is more than one content octet, the first
   nine bits are neither all zero nor all one.
   */
  predicate Minimal(der: seq<byte>)
  {
    |der| >= 1 &&
    (|der| == 1 ||
     !((der[0] == 0x00 && !IsNegativeOctet(der[1])) || (der[0] == 0xFF && IsNegativeOctet(der[1]))))
  }

  /** The first two octets, read together, weigh 256^(n-2). */
  lemma LeadingPair(der: seq<byte>)
    requires |der| >= 2
    ensures ToNat(der) == LeadingPairValue(der) * Pow2(8 * (|der| - 2)) + ToNat(der[2..])
    ensures ToNat(der[2..]) < Pow2(8 * (|der| - 2))
  {
    var n := |der|;
    var h, hh := Pow2(8 * (n - 2)), Pow2(8 * (n - 1));
    var u, u1, u2 := ToNat(der), ToNat(der[1..]), ToNat(der[2..]);
    assert u == der[0] as int * hh + u1 by {
      ToNatFirst(der);
    }
    assert u1 == der[1] as int * h + u2 by {
      var tail := der[1..];
      ToNatFirst(tail);
      assert tail[0] == der[1] && tail[1..] == der[2..];
      assert Pow2(8 * (|tail| - 1)) == h;
    }
    assert hh == 256 * h by {
      Pow2Octet(n - 2);
    }
    TwoOctets(u, u1, der[0] as int, der[1] as int, u2, h, hh);
    assert u2 < h by {
      ToNatBound(der[2..]);
    }
  }

  /** The powers of two that bound n and n-1 octets, in units of 256^(n-2). */
  lemma OctetPowers(n: nat)
    requires n >= 2
    ensures Pow2(8 * (n - 1) - 1) == 128 * Pow2(8 * (n - 2))
    ensures Pow2(8 * n - 1) == 32768 * Pow2(8 * (n - 2))
    ensures Pow2(8 * n) == 65536 * Pow2(8 * (n - 2))
  {
    var h := Pow2(8 * (n - 2));
    Pow2Table();
    assert Pow2(8 * (n - 1) - 1) == 128 * h by {
      Pow2Add(7, 8 * (n - 2));
    }
    assert Pow2(8 * n - 1) == 32768 * h by {
      Pow2Add(15, 8 * (n - 2));
    }
    assert Pow2(8 * n) == 65536 * h by {
      Pow2Add(16, 8 * (n - 2));
    }
  }

  /**
   Content octets whose first two octets read as a (weight h) hold a value
   that fits one octet fewer exactly when a starts with nine equal bits.
   */
  lemma ShorterRange(u: int, a: int, r: int, h: int, d: int)
    requires 0 <= a < 65536 && 0 <= r < h && u == a * h + r
    requires d == if u < 32768 * h then u else u - 65536 * h
    ensures -128 * h <= d < 128 * h <==> a < 128 || a >= 65408
  {
    ScaleCompare(a, 128, r, h);
    ScaleCompare(a, 32768, r, h);
    ScaleCompare(a, 65408, r, h);
    ScaleCompare(a, 65536, r, h);
  }

  /** The value fits one octet fewer exactly when the leading pair starts with nine equal bits. */
  lemma ShorterFitsIff(der: seq<byte>)
    requires |der| >= 2
    ensures Fits(DerToIntValue(der), |der| - 1) <==> LeadingPairValue(der) < 128 || LeadingPairValue(der) >= 65408
  {
    var n := |der|;
    var h, a, r := Pow2(8 * (n - 2)), LeadingPairValue(der), ToNat(der[2..]);
    var u, d := ToNat(der), DerToIntValue(der);
    assert u == a * h + r && r < h by {
      LeadingPair(der);
    }
    assert d == if u < 32768 * h then u else u - 65536 * h by {
      OctetPowers(n);
    }
    assert Fits(d, n - 1) <==> -128 * h <= d < 128 * h by {
      OctetPowers(n);
    }
    ShorterRange(u, a, r, h, d);
  }

  /** The first two octets as one 16-bit number. */
  function LeadingPairValue(der: seq<byte>): int
    requires |der| >= 2
  {
    der[0] as int * 256 + der[1] as int
  }

  /** The X.690 rule, read on the 16-bit leading pair. */
  lemma MinimalOnLeadingPair(der: seq<byte>)
    requires |der| >= 2
    ensures Minimal(der) <==> !(LeadingPairValue(der) < 128 || LeadingPairValue(der) >= 65408)
  {
  }

  /** An encoding obeys the X.690 rule exactly when no shorter encoding holds its value. */
  lemma MinimalIff(der: seq<byte>)
    requires |der| >= 1
    ensures Minimal(der) <==> |der| == 1 || !Fits(DerToIntValue(der), |der| - 1)
  {
    if |der| >= 2 {
      ShorterFitsIff(der);
      MinimalOnLeadingPair(der);
    }
  }

  lemma TwoOctets(u: int, u1: int, b0: int, b1: int, r: int, h: int, hh: int)
    requires u == b0 * hh + u1 && u1 == b1 * h + r && hh == 256 * h
    ensures u == (b0 * 256 + b1) * h + r
  {
  }

  /** Non-negative values, and negative ones that keep their sign, are encoded minimally. */
  lemma EncodingMinimal(v: int)
    requires !SignLost(v)
    ensures Minimal(IntValueToDer(v))
  {
    var der := IntValueToDer(v);
    RoundTrip(v);
    EncodedSizeIsMinimal(v);
    MinimalIff(der);
    if |der| > 1 {
      FitsIff(v, |der| - 1);
    }
  }

  /**
   The corrected encoder: the source's algorithm with the sign bit counted for
   negative values too. It always round-trips and obeys X.690 section 8.3.2.
   */
  function EncodeMinimal(v: int): (der: seq<byte>)
    ensures |der| == MinSize(v)
    ensures DerToIntValue(der) == v
    ensures Minimal(der)
  {
    var der := Serialize(v, MinSize(v));
    FitsIff(v, MinSize(v));
    DecodeSerialize(v, MinSize(v));
    MinimalIff(der);
    if |der| > 1 then
      FitsIff(v, |der| - 1);
      der
    else
      der
  }

  /** The corrected encoder unfolded, for concrete values. */
  lemma EncodeMinimalIs(v: int)
    ensures EncodeMinimal(v) == Serialize(v, MinSize(v))
  {
  }

  /** Minimal content octets are reproduced exactly by re-encoding their value. */
  lemma CanonicalMinimal(der: seq<byte>)
    requires Minimal(der)
    ensures EncodeMinimal(DerToIntValue(der)) == der
  {
    var n := |der|;
    var d := DerToIntValue(der);
    var u := ToNat(der);
    ToNatBound(der);
    MinimalIff(der);
    FitsIff(d, n);
    if n > 1 {
      FitsIff(d, n - 1);
    }
    assert MinSize(d) == n;
    SerializeMod(d, n);
    if d == u {
      DivModUnique(d, Pow2(8 * n), 0, u);
    } else {
      DivModUnique(d, Pow2(8 * n), -1, u);
    }
    SerializeToNat(der);
  }

  /** The source's encoder agrees with the corrected one exactly where no sign is lost. */
  lemma AsWrittenAgreesWithMinimal(v: int)
    ensures IntValueToDer(v) == EncodeMinimal(v) <==> !SignLost(v)
  {
    EncodedSizeIsMinimal(v);
  }

  /** Minimal content octets whose value keeps its sign are reproduced by the source's encoder. */
  lemma CanonicalAsWritten(der: seq<byte>)
    requires Minimal(der) && !SignLost(DerToIntValue(der))
    ensures IntValueToDer(DerToIntValue(der)) == der
  {
    CanonicalMinimal(der);
    AsWrittenAgreesWithMinimal(DerToIntValue(der));
  }

  /** -65536 needs 17 bits, but the source writes two octets and loses the sign. */
  lemma EncodeMinus65536()
    ensures IntValueToDer(-65536) == [0x00, 0x00]
  {
    Pow2Table();
    BitLenIs(65535, 16);
    assert IntValueToDer(-65536) == Serialize(-65536, 2) by {
      EncodeIs(-65536);
    }
  }

  /** The minimal two's-complement octets of -129. */
  lemma DecodeFF7F()
    ensures Minimal([0xFF, 0x7F]) && DerToIntValue([0xFF, 0x7F]) == -129
  {
    assert ToNat([0xFF, 0x7F]) == 65407 by {
      assert [0xFF, 0x7F][..1] == [0xFF];
      assert [0xFF][..0] == [];
    }
    Pow2Table();
  }

  /** The corrected encoder writes -129 with its sign octet. */
  lemma EncodeMinimalMinus129()
    ensures EncodeMinimal(-129) == [0xFF, 0x7F]
  {
    Pow2Table();
    BitLenIs(128, 8);
    assert EncodeMinimal(-129) == Serialize(-129, 2) by {
      EncodeMinimalIs(-129);
    }
  }

  /**
   Counterexamples to canonical re-encoding in the source: the minimal
   [0xFF, 0x7F] (-129) re-encodes as [0x7F], which the corrected encoder
   does not do, and -65536 encodes as the non-minimal [0x00, 0x00].
   */
  lemma NotCanonicalExamples()
    ensures Minimal([0xFF, 0x7F]) && DerToIntValue([0xFF, 0x7F]) == -129
    ensures IntValueToDer(-129) == [0x7F]
    ensures EncodeMinimal(-129) == [0xFF, 0x7F]
    ensures IntValueToDer(-65536) == [0x00, 0x00] && !Minimal([0x00, 0x00])
  {
    DecodeFF7F();
    EncodeMinus129();
    EncodeMinimalMinus129();
    EncodeMinus65536();
  }
}
