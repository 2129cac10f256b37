/** The DHT11 single-wire frame: 40 sampled symbols packed into 5 bytes,
    most-significant bit first, guarded by an 8-bit wrap-around checksum. */
module Dht11 {
  import opened Bits

  /** Length of `received_message` and of `data`. */
  const FrameBits := 40
  const FrameBytes := 5

  /** The symbol stored for one bit slot: the line level read at the sample
      point, a fixed delay after the rising edge. */
  function Symbol(high: bool): (s: Byte)
    ensures s <= 1
    ensures s == 1 <==> high
  {
    if high then 1 else 0
  }

  /** Every symbol is 0 or 1, as the sampling loop stores them. */
  ghost predicate IsBits(m: seq<Byte>)
  {
    forall k :: 0 <= k < |m| ==> m[k] <= 1
  }

  /** `data[i]` after `j` rounds of the inner loop of `decode_message`, for
      the group of symbols starting at `base = 8 * i`: cleared, then
      `received_message[base + j'] << (7 - j')` ORed in for each earlier
      `j'`, the result stored back into an 8-bit `char`. */
  function PackPrefix(m: seq<Byte>, base: nat, j: nat): Byte
    requires j <= 8 && base + 8 <= |m|
  {
    if j == 0 then 0
    else Or(PackPrefix(m, base, j - 1), m[base + j - 1] * Pow2(8 - j)) % 256
  }

  /** One more loop step of `decode_message`: OR in the next symbol. */
  lemma PackPrefixNext(m: seq<Byte>, base: nat, j: nat)
    requires j < 8 && base + 8 <= |m|
    ensures PackPrefix(m, base, j + 1) == Or(PackPrefix(m, base, j), m[base + j] * Pow2(7 - j)) % 256
  {
  }

  /** The arithmetic reading of a byte: the sum over its first `j` symbols
      of `bit << (7 - j')`. */
  function WeightedSum(m: seq<Byte>, base: nat, j: nat): nat
    requires j <= 8 && base + 8 <= |m|
  {
    if j == 0 then 0
    else WeightedSum(m, base, j - 1) + m[base + j - 1] * Pow2(8 - j)
  }

  /** The first `j` symbols of a group read as a binary number, most
      significant first. */
  ghost function Msb(m: seq<Byte>, base: nat, j: nat): nat
    requires j <= 8 && base + 8 <= |m|
  {
    if j == 0 then 0 else 2 * Msb(m, base, j - 1) + m[base + j - 1]
  }

  /** The frame `decode_message` leaves in `data`. */
  function Decode(m: seq<Byte>): (d: seq<Byte>)
    requires |m| == FrameBits
    ensures |d| == FrameBytes
  {
    seq(FrameBytes, i requires 0 <= i < FrameBytes => PackPrefix(m, 8 * i, 8))
  }

  /** The 40 symbols a sensor sends for the bytes `d`: bit `7 - j` of byte
      `i` in slot `8 * i + j`. */
  function Encode(d: seq<Byte>): (m: seq<Byte>)
    requires |d| == FrameBytes
    ensures |m| == FrameBits && IsBits(m)
  {
    seq(FrameBits, k requires 0 <= k < FrameBits => Bit(d[k / 8], 7 - k % 8))
  }

  /** The value `main` stores in `checksum`: the sum of the first four
      bytes, truncated to 8 bits by the `char` it is stored in. */
  function Checksum(d: seq<Byte>): (c: Byte)
    requires |d| == FrameBytes
    ensures (c as int - (d[0] as int + d[1] + d[2] + d[3])) % 256 == 0
  {
    var s := d[0] as int + d[1] + d[2] + d[3];
    DropRemainder(s, 256, -1);
    s % 256
  }

  /** The test `checksum != data[4]` fails: the reading is valid. */
  predicate ChecksumOk(d: seq<Byte>)
    requires |d| == FrameBytes
    ensures ChecksumOk(d) <==> (d[4] as int - (d[0] as int + d[1] + d[2] + d[3])) % 256 == 0
  {
    Checksum(d) == d[4]
  }

  /** The frame a sensor sends for a 4-byte payload: the payload followed by
      the low 8 bits of its sum. */
  function Seal(p: seq<Byte>): (d: seq<Byte>)
    requires |p| == 4
    ensures |d| == FrameBytes && d[..4] == p
  {
    p + [(p[0] as int + p[1] + p[2] + p[3]) % 256]
  }

  // ---------------------------------------------------------------------
  // Bit assembly

  /** With 0/1 symbols, ORing them in is adding them: each lands on a bit
      the earlier ones left clear, and nothing is lost to the truncation. */
  lemma {:induction false} PackPrefixIsWeightedSum(m: seq<Byte>, base: nat, j: nat)
    requires j <= 8 && base + 8 <= |m|
    requires forall k :: base <= k < base + 8 ==> m[k] <= 1
    ensures PackPrefix(m, base, j) == WeightedSum(m, base, j) == Msb(m, base, j) * Pow2(8 - j)
    ensures Msb(m, base, j) < Pow2(j)
  {
    if j > 0 {
      var x, h, s := PackPrefix(m, base, j - 1), Msb(m, base, j - 1), m[base + j - 1];
      PackPrefixIsWeightedSum(m, base, j - 1);
      PackPrefixStep(m, base, j);
      ShiftInBit(x, h, s, j);
      assert PackPrefix(m, base, j) == (2 * h + s) * Pow2(8 - j);
    }
  }

  lemma PackPrefixStep(m: seq<Byte>, base: nat, j: nat)
    requires 1 <= j <= 8 && base + 8 <= |m|
    ensures PackPrefix(m, base, j) == Or(PackPrefix(m, base, j - 1), m[base + j - 1] * Pow2(8 - j)) % 256
    ensures WeightedSum(m, base, j) == WeightedSum(m, base, j - 1) + m[base + j - 1] * Pow2(8 - j)
    ensures Msb(m, base, j) == 2 * Msb(m, base, j - 1) + m[base + j - 1]
  {
  }

  /** One round of the inner loop on values: shifting the bits read so far
      up by one and bringing in the next symbol below them, by `|` or by
      `+`, stays below 256. */
  lemma ShiftInBit(x: nat, h: nat, s: nat, j: nat)
    requires 1 <= j <= 8 && s <= 1 && h < Pow2(j - 1) && x == h * Pow2(8 - (j - 1))
    ensures Or(x, s * Pow2(8 - j)) % 256 == (2 * h + s) * Pow2(8 - j)
    ensures x + s * Pow2(8 - j) == (2 * h + s) * Pow2(8 - j) && 2 * h + s < Pow2(j)
  {
    var p := Pow2(8 - j);
    assert Pow2(8 - (j - 1)) == 2 * p;
    OrFreshBit(x, h, s, 8 - j);
    ShiftIn(h, s, p);
    FitsInByte(h, s, j);
  }

  /** The `j` bits read so far, shifted into place, fit in a byte. */
  lemma FitsInByte(h: nat, s: nat, j: nat)
    requires 1 <= j <= 8 && s <= 1 && h < Pow2(j - 1)
    ensures 2 * h + s < Pow2(j) && 0 <= (2 * h + s) * Pow2(8 - j) < 256
  {
    var a, b, p := 2 * h + s, Pow2(j), Pow2(8 - j);
    assert a < b;
    Pow2Add(j, 8 - j);
    Pow2Small();
    assert b * p == 256;
    MulStrict(a, b, p);
  }

  lemma ShiftIn(h: nat, s: nat, p: nat)
    ensures h * (2 * p) + s * p == (2 * h + s) * p
  {
  }

  /** Byte `i` of the decoded frame is the sum over `j` of
      `bit[8 * i + j] << (7 - j)`. */
  lemma DecodeIsWeightedSum(m: seq<Byte>, i: nat)
    requires |m| == FrameBits && IsBits(m) && i < FrameBytes
    ensures Decode(m)[i] == WeightedSum(m, 8 * i, 8)
  {
    PackPrefixIsWeightedSum(m, 8 * i, 8);
  }

  /** The leading `j` symbols of an encoded byte read as the top `j` bits of
      the byte. */
  lemma {:induction false} MsbOfBits(m: seq<Byte>, base: nat, b: Byte, j: nat)
    requires j <= 8 && base + 8 <= |m|
    requires forall k :: base <= k < base + 8 ==> m[k] == Bit(b, 7 - (k - base))
    ensures Msb(m, base, j) == b / Pow2(8 - j)
  {
    if j == 0 {
      Pow2Small();
    } else {
      MsbOfBits(m, base, b, j - 1);
      DivTwice(b, 8 - j);
      var y := b / Pow2(8 - j);
      assert m[base + j - 1] == y % 2;
      assert Msb(m, base, j) == 2 * (y / 2) + y % 2;
    }
  }

  /** Dropping the `n - j` trailing symbols of a prefix divides its value by
      `2^(n - j)`. */
  lemma {:induction false} MsbDiv(m: seq<Byte>, base: nat, j: nat, n: nat)
    requires j <= n <= 8 && base + 8 <= |m|
    requires forall k :: base <= k < base + 8 ==> m[k] <= 1
    ensures Msb(m, base, n) / Pow2(n - j) == Msb(m, base, j)
  {
    if n > j {
      MsbDiv(m, base, j, n - 1);
      DivHalf(Msb(m, base, n), n - 1 - j);
      assert Msb(m, base, n) / 2 == Msb(m, base, n - 1);
    }
  }

  /** Encoding 5 bytes to 40 symbols and decoding them returns the bytes. */
  lemma DecodeEncode(d: seq<Byte>)
    requires |d| == FrameBytes
    ensures Decode(Encode(d)) == d
  {
    var m := Encode(d);
    forall i | 0 <= i < FrameBytes
      ensures Decode(m)[i] == d[i]
    {
      forall k | 8 * i <= k < 8 * i + 8
        ensures m[k] == Bit(d[i], 7 - (k - 8 * i))
      {
        assert k / 8 == i && k % 8 == k - 8 * i;
      }
      MsbOfBits(m, 8 * i, d[i], 8);
      PackPrefixIsWeightedSum(m, 8 * i, 8);
      Pow2Small();
    }
  }

  /** Decoding 40 symbols of 0/1 and encoding the bytes returns the symbols:
      no two frames of symbols decode alike. */
  lemma EncodeDecode(m: seq<Byte>)
    requires |m| == FrameBits && IsBits(m)
    ensures Encode(Decode(m)) == m
  {
    var d := Decode(m);
    forall k | 0 <= k < FrameBits
      ensures Encode(d)[k] == m[k]
    {
      var i, j := k / 8, k % 8;
      assert 8 * i + j == k;
      DecodedByteIsMsb(m, i);
      BitOfMsb(m, 8 * i, j);
    }
  }

  /** Byte `i` of the decoded frame is its group of symbols read as a
      binary number. */
  lemma DecodedByteIsMsb(m: seq<Byte>, i: nat)
    requires |m| == FrameBits && IsBits(m) && i < FrameBytes
    ensures Decode(m)[i] == Msb(m, 8 * i, 8)
  {
    PackPrefixIsWeightedSum(m, 8 * i, 8);
    Pow2Small();
  }

  /** Bit `7 - j` of a group read as a binary number is its symbol `j`. */
  lemma BitOfMsb(m: seq<Byte>, base: nat, j: nat)
    requires j < 8 && base + 8 <= |m|
    requires forall k :: base <= k < base + 8 ==> m[k] <= 1
    ensures Bit(Msb(m, base, 8), 7 - j) == m[base + j]
  {
    MsbDiv(m, base, j + 1, 8);
    assert Msb(m, base, j + 1) == 2 * Msb(m, base, j) + m[base + j];
  }

  // ---------------------------------------------------------------------
  // Checksum

  /** A frame is accepted exactly when its fifth byte is the one the sensor
      would seal its first four with. */
  lemma ChecksumOkIffSealed(d: seq<Byte>)
    requires |d| == FrameBytes
    ensures ChecksumOk(d) <==> d == Seal(d[..4])
  {
    var s := Seal(d[..4]);
    assert s[4] == Checksum(d);
    if ChecksumOk(d) {
      assert d == s by {
        forall k | 0 <= k < FrameBytes ensures d[k] == s[k] { }
      }
    }
  }

  /** Every sealed frame is accepted, and sealing with any other byte makes
      it rejected. */
  lemma SealedAccepted(p: seq<Byte>, c: Byte)
    requires |p| == 4
    ensures ChecksumOk(Seal(p))
    ensures ChecksumOk(p + [c]) <==> c == Seal(p)[4]
  {
    var s, t := Seal(p), p + [c];
    assert s[..4] == t[..4] == p;
    assert Checksum(s) == Checksum(t) == s[4];
  }

  /** The checksum detects every error confined to one byte: replacing one
      byte of an accepted frame by a different value makes it rejected. */
  lemma CorruptedByteDetected(d: seq<Byte>, i: nat, v: Byte)
    requires |d| == FrameBytes && ChecksumOk(d)
    requires i < FrameBytes && v != d[i]
    ensures !ChecksumOk(d[i := v])
  {
    var e := d[i := v];
    if i < 4 {
      assert e[4] == d[4];
      var s, t := d[0] as int + d[1] + d[2] + d[3], e[0] as int + e[1] + e[2] + e[3];
      assert t == s - d[i] + v;
      ResidueDiffers(s, t);
    } else {
      assert e[..4] == d[..4];
      assert Checksum(e) == Checksum(d);
    }
  }

  /** Two sums closer than 256 apart but different keep different low bytes. */
  lemma ResidueDiffers(s: int, t: int)
    requires s != t && -256 < t - s < 256
    ensures t % 256 != s % 256
  {
    assert s == 256 * (s / 256) + s % 256;
    assert t == 256 * (t / 256) + t % 256;
  }
}
