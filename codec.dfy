/**
 * The reconciliation-data codec of NewHope: `encode_rec` packs a polynomial
 * whose coefficients are 2-bit values into bytes, four coefficients per
 * byte, low bits first; `decode_rec` unpacks them again.
 */
module RecCodec {
  import opened NewHopeParams

  type Byte = bv8

  /** A coefficient of a polynomial, stored as a 16-bit unsigned integer. */
  type Coeff = bv16

  /** Every coefficient is a 2-bit value, as reconciliation data must be. */
  predicate IsRecData(c: seq<Coeff>)
  {
    forall k :: 0 <= k < |c| ==> c[k] <= 3
  }

  /**
   * One byte of `encode_rec`: coefficient j goes to bits 2j..2j+1. The
   * coefficients are promoted to 32-bit integers, shifted, or-ed and the
   * result is truncated to 8 bits when it is stored.
   */
  function PackByte(c0: Coeff, c1: Coeff, c2: Coeff, c3: Coeff): (b: Byte)
  {
    var w: bv32 := (c0 as bv32) | ((c1 as bv32) << 2) | ((c2 as bv32) << 4) | ((c3 as bv32) << 6);
    (w & 0xFF) as Byte
  }

  /**
   * Coefficient j of a byte as `decode_rec` extracts it. The last one is
   * shifted down by 6 and not masked; it is in range because a byte has
   * only 8 bits.
   */
  function UnpackCoeff(b: Byte, j: nat): (x: Coeff)
    requires j < 4
    ensures x <= 3
  {
    if j == 0 then (b & 0x03) as Coeff
    else if j == 1 then ((b >> 2) & 0x03) as Coeff
    else if j == 2 then ((b >> 4) & 0x03) as Coeff
    else (b >> 6) as Coeff
  }

  /** The bytes `encode_rec` writes for the coefficients `c`. */
  function EncodeRec(c: seq<Coeff>): (r: seq<Byte>)
    requires |c| % 4 == 0
    ensures |r| == |c| / 4
  {
    seq(|c| / 4, i requires 0 <= i < |c| / 4 => PackByte(c[4 * i], c[4 * i + 1], c[4 * i + 2], c[4 * i + 3]))
  }

  /** The coefficients `decode_rec` writes for the bytes `r`. */
  function DecodeRec(r: seq<Byte>): (c: seq<Coeff>)
    ensures |c| == 4 * |r|
    ensures IsRecData(c)
  {
    seq(4 * |r|, k requires 0 <= k < 4 * |r| => UnpackCoeff(r[k / 4], k % 4))
  }

  /** Unpacking a byte packed from four 2-bit coefficients gives them back. */
  lemma UnpackPackByte(c0: Coeff, c1: Coeff, c2: Coeff, c3: Coeff)
    requires c0 <= 3 && c1 <= 3 && c2 <= 3 && c3 <= 3
    ensures UnpackCoeff(PackByte(c0, c1, c2, c3), 0) == c0
    ensures UnpackCoeff(PackByte(c0, c1, c2, c3), 1) == c1
    ensures UnpackCoeff(PackByte(c0, c1, c2, c3), 2) == c2
    ensures UnpackCoeff(PackByte(c0, c1, c2, c3), 3) == c3
  {
  }

  /** Packing the four coefficients unpacked from a byte gives the byte back. */
  lemma PackUnpackByte(b: Byte)
    ensures PackByte(UnpackCoeff(b, 0), UnpackCoeff(b, 1), UnpackCoeff(b, 2), UnpackCoeff(b, 3)) == b
  {
  }

  /** Decoding the encoding of 2-bit coefficients reproduces them exactly. */
  lemma DecodeEncodeRec(c: seq<Coeff>)
    requires |c| % 4 == 0 && IsRecData(c)
    ensures DecodeRec(EncodeRec(c)) == c
  {
    var r := EncodeRec(c);
    forall k | 0 <= k < |c|
      ensures DecodeRec(r)[k] == c[k]
    {
      var i, j := k / 4, k % 4;
      assert k == 4 * i + j;
      UnpackPackByte(c[4 * i], c[4 * i + 1], c[4 * i + 2], c[4 * i + 3]);
    }
  }

  /** Encoding the decoding of any bytes reproduces them: every bit is used. */
  lemma EncodeDecodeRec(r: seq<Byte>)
    ensures EncodeRec(DecodeRec(r)) == r
  {
    var c := DecodeRec(r);
    forall i | 0 <= i < |r|
      ensures EncodeRec(c)[i] == r[i]
    {
      DecodeRecAt(r, i, 0);
      DecodeRecAt(r, i, 1);
      DecodeRecAt(r, i, 2);
      DecodeRecAt(r, i, 3);
      PackUnpackByte(r[i]);
    }
  }

  lemma DecodeRecAt(r: seq<Byte>, i: nat, j: nat)
    requires i < |r| && j < 4
    ensures DecodeRec(r)[4 * i + j] == UnpackCoeff(r[i], j)
  {
    assert (4 * i + j) / 4 == i && (4 * i + j) % 4 == j;
  }

  /**
   * Byte i of the encoding holds coefficient 4i+j in bits 2j..2j+1 when the
   * coefficients are 2-bit values: read as a number, the byte has the four
   * coefficients as its base-4 digits, lowest first.
   */
  lemma EncodeRecDigits(c: seq<Coeff>, i: nat)
    requires |c| % 4 == 0 && IsRecData(c) && i < |c| / 4
    ensures EncodeRec(c)[i] as int
      == c[4 * i] as int + 4 * (c[4 * i + 1] as int) + 16 * (c[4 * i + 2] as int) + 64 * (c[4 * i + 3] as int)
  {
    var c0, c1, c2, c3 := c[4 * i], c[4 * i + 1], c[4 * i + 2], c[4 * i + 3];
    assert c0 <= 3 && c1 <= 3 && c2 <= 3 && c3 <= 3;
    PackDigits(c0, c1, c2, c3);
  }

  lemma PackDigits(c0: Coeff, c1: Coeff, c2: Coeff, c3: Coeff)
    requires c0 <= 3 && c1 <= 3 && c2 <= 3 && c3 <= 3
    ensures PackByte(c0, c1, c2, c3) as int == c0 as int + 4 * (c1 as int) + 16 * (c2 as int) + 64 * (c3 as int)
  {
  }

  /**
   * Each byte is read back as four 2-bit fields: as a number, byte i has
   * coefficients 4i..4i+3 of the decoding as its base-4 digits, lowest first.
   */
  lemma DecodeRecDigits(r: seq<Byte>, i: nat)
    requires i < |r|
    ensures r[i] as int == DecodeRec(r)[4 * i] as int + 4 * (DecodeRec(r)[4 * i + 1] as int)
      + 16 * (DecodeRec(r)[4 * i + 2] as int) + 64 * (DecodeRec(r)[4 * i + 3] as int)
  {
    var c := DecodeRec(r);
    DecodeRecAt(r, i, 0);
    DecodeRecAt(r, i, 1);
    DecodeRecAt(r, i, 2);
    DecodeRecAt(r, i, 3);
    PackUnpackByte(r[i]);
    PackDigits(c[4 * i], c[4 * i + 1], c[4 * i + 2], c[4 * i + 3]);
  }

  /** Byte i of the encoding depends on coefficients 4i..4i+3 only. */
  lemma EncodeRecLocal(c: seq<Coeff>, c': seq<Coeff>, i: nat)
    requires |c| == |c'| && |c| % 4 == 0 && i < |c| / 4
    requires c[4 * i..4 * i + 4] == c'[4 * i..4 * i + 4]
    ensures EncodeRec(c)[i] == EncodeRec(c')[i]
  {
    assert c[4 * i] == c[4 * i..4 * i + 4][0] == c'[4 * i];
    assert c[4 * i + 1] == c[4 * i..4 * i + 4][1] == c'[4 * i + 1];
    assert c[4 * i + 2] == c[4 * i..4 * i + 4][2] == c'[4 * i + 2];
    assert c[4 * i + 3] == c[4 * i..4 * i + 4][3] == c'[4 * i + 3];
  }

  /** Distinct reconciliation data never share an encoding. */
  lemma EncodeRecInjective(c: seq<Coeff>, c': seq<Coeff>)
    requires |c| % 4 == 0 && IsRecData(c) && |c'| % 4 == 0 && IsRecData(c')
    requires EncodeRec(c) == EncodeRec(c')
    ensures c == c'
  {
    DecodeEncodeRec(c);
    DecodeEncodeRec(c');
  }

  /** Distinct byte strings never decode alike: changing any bit changes the decoded data. */
  lemma DecodeRecInjective(r: seq<Byte>, r': seq<Byte>)
    requires DecodeRec(r) == DecodeRec(r')
    ensures r == r'
  {
    EncodeDecodeRec(r);
    EncodeDecodeRec(r');
  }

  /**
   * The 2-bit range is needed: `encode_rec` does not mask its inputs, so a
   * coefficient of 4 spills into the field of its neighbour and the
   * encoding no longer determines the coefficients.
   */
  lemma EncodeRecOutOfRange()
    ensures EncodeRec([4, 0, 0, 0]) == EncodeRec([0, 1, 0, 0])
    ensures DecodeRec(EncodeRec([4, 0, 0, 0])) != [4, 0, 0, 0]
  {
    assert EncodeRec([4, 0, 0, 0]) == [PackByte(4, 0, 0, 0)];
    assert EncodeRec([0, 1, 0, 0]) == [PackByte(0, 1, 0, 0)];
    assert DecodeRec([PackByte(4, 0, 0, 0)])[0] == 0;
  }

  /**
   * `encode_rec`: writes the N/4 bytes encoding the polynomial `c` into `r`
   * starting at `off`, and no other byte of `r`.
   */
  method EncodeRecInto(c: array<Coeff>, r: array<Byte>, off: nat)
    requires c.Length == N && off + N / 4 <= r.Length
    modifies r
    ensures r[off..off + N / 4] == EncodeRec(c[..])
    ensures r[..off] == old(r[..off]) && r[off + N / 4..] == old(r[off + N / 4..])
  {
    for i := 0 to N / 4
      invariant forall k :: 0 <= k < i ==> r[off + k] == PackByte(c[4 * k], c[4 * k + 1], c[4 * k + 2], c[4 * k + 3])
      invariant forall k :: 0 <= k < off ==> r[k] == old(r[k])
      invariant forall k :: off + i <= k < r.Length ==> r[k] == old(r[k])
    {
      var w: bv32 := (c[4 * i] as bv32) | ((c[4 * i + 1] as bv32) << 2) |
                     ((c[4 * i + 2] as bv32) << 4) | ((c[4 * i + 3] as bv32) << 6);
      r[off + i] := (w & 0xFF) as Byte;
    }
  }

  /**
   * `decode_rec`: fills the polynomial `c` with the coefficients decoded
   * from the N/4 bytes of `r` that start at `off`.
   */
  method DecodeRecFrom(r: array<Byte>, off: nat, c: array<Coeff>)
    requires c.Length == N && off + N / 4 <= r.Length
    modifies c
    ensures c[..] == DecodeRec(r[off..off + N / 4])
  {
    for i := 0 to N / 4
      invariant forall k :: 0 <= k < 4 * i ==> c[k] == UnpackCoeff(r[off + k / 4], k % 4)
    {
      c[4 * i + 0] := (r[off + i] & 0x03) as Coeff;
      c[4 * i + 1] := ((r[off + i] >> 2) & 0x03) as Coeff;
      c[4 * i + 2] := ((r[off + i] >> 4) & 0x03) as Coeff;
      c[4 * i + 3] := (r[off + i] >> 6) as Coeff;
      assert (4 * i) / 4 == i && (4 * i + 1) / 4 == i && (4 * i + 2) / 4 == i && (4 * i + 3) / 4 == i;
      assert (4 * i) % 4 == 0 && (4 * i + 1) % 4 == 1 && (4 * i + 2) % 4 == 2 && (4 * i + 3) % 4 == 3;
    }
  }
}
