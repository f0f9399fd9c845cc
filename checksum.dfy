/**
 * Integrity values over firmware bytes: the CRC-32 that closes a loader
 * image, the additive 32-bit checksum, and the CRC comparison.
 *
 * `crc32_rk` is `binascii.crc32(data) & 0xFFFFFFFF`, the standard reflected
 * CRC-32 of the IEEE 802.3 frame check sequence (clause 3.2.9): polynomial
 * 0x04C11DB7 processed least significant bit first (0xEDB88320 reversed),
 * register preset to all ones and complemented at the end.  It is spelled out
 * here shift by shift on a 32-bit register so that the model has no foreign
 * call, and the standard check value is proved of it.
 */
module Checksum {
  import opened Bytes

  const Two32: nat := 0x1_0000_0000
  /** The IEEE 802.3 generator polynomial in its bit-reversed form. */
  const Crc32Polynomial: bv32 := 0xEDB8_8320

  /** One shift of the CRC register: shift right, folding in the polynomial when a one falls out. */
  function CrcShift(c: bv32): (r: bv32)
  {
    if c & 1 == 1 then (c >> 1) ^ Crc32Polynomial else c >> 1
  }

  function CrcShifts(c: bv32, k: nat): (r: bv32)
    decreases k
  {
    if k == 0 then c else CrcShifts(CrcShift(c), k - 1)
  }

  /** The register after one more input byte, least significant bit first. */
  function CrcByte(c: bv32, b: byte): (r: bv32)
  {
    CrcShifts(c ^ b as bv32, 8)
  }

  /** The register after feeding `data`, first byte first. */
  function CrcUpdate(c: bv32, data: seq<byte>): (r: bv32)
    decreases data
  {
    if data == [] then c else CrcUpdate(CrcByte(c, data[0]), data[1..])
  }

  /** `crc32_rk(data)`: the register is preset to all ones and complemented at the end. */
  function Crc32(data: seq<byte>): (r: nat)
    ensures r < Two32
  {
    (CrcUpdate(0xFFFF_FFFF, data) ^ 0xFFFF_FFFF) as nat
  }

  /** Feeding `a + b` is feeding `a` and then `b`: the CRC can be computed over a file in pieces. */
  lemma {:induction false} CrcUpdateConcat(c: bv32, a: seq<byte>, b: seq<byte>)
    ensures CrcUpdate(c, a + b) == CrcUpdate(CrcUpdate(c, a), b)
    decreases a
  {
    if a != [] {
      assert (a + b)[0] == a[0];
      assert (a + b)[1..] == a[1..] + b;
      CrcUpdateConcat(CrcByte(c, a[0]), a[1..], b);
    } else {
      assert a + b == b;
    }
  }

  /** The CRC-32 of no bytes is 0: the preset and the final complement cancel. */
  lemma Crc32Empty()
    ensures Crc32([]) == 0
  {
  }

  /*
   * The register over the nine ASCII bytes "123456789", one byte at a time:
   * each lemma runs the eight shifts of one byte on a concrete register.
   */
  lemma CheckByte1()
    ensures CrcUpdate(0xFFFF_FFFF, [0x31, 0x32, 0x33, 0x34, 0x35, 0x36, 0x37, 0x38, 0x39]) == CrcUpdate(0x7C23_1048, [0x32, 0x33, 0x34, 0x35, 0x36, 0x37, 0x38, 0x39])
  {
    assert CrcByte(0xFFFF_FFFF, 0x31) == 0x7C23_1048;
  }

  lemma CheckByte2()
    ensures CrcUpdate(0x7C23_1048, [0x32, 0x33, 0x34, 0x35, 0x36, 0x37, 0x38, 0x39]) == CrcUpdate(0xB0AC_BB32, [0x33, 0x34, 0x35, 0x36, 0x37, 0x38, 0x39])
  {
    assert CrcByte(0x7C23_1048, 0x32) == 0xB0AC_BB32;
  }

  lemma CheckByte3()
    ensures CrcUpdate(0xB0AC_BB32, [0x33, 0x34, 0x35, 0x36, 0x37, 0x38, 0x39]) == CrcUpdate(0x77B7_9C2D, [0x34, 0x35, 0x36, 0x37, 0x38, 0x39])
  {
    assert CrcByte(0xB0AC_BB32, 0x33) == 0x77B7_9C2D;
  }

  lemma CheckByte4()
    ensures CrcUpdate(0x77B7_9C2D, [0x34, 0x35, 0x36, 0x37, 0x38, 0x39]) == CrcUpdate(0x641C_1F5C, [0x35, 0x36, 0x37, 0x38, 0x39])
  {
    assert CrcByte(0x77B7_9C2D, 0x34) == 0x641C_1F5C;
  }

  lemma CheckByte5()
    ensures CrcUpdate(0x641C_1F5C, [0x35, 0x36, 0x37, 0x38, 0x39]) == CrcUpdate(0x340A_C5E3, [0x36, 0x37, 0x38, 0x39])
  {
    assert CrcByte(0x641C_1F5C, 0x35) == 0x340A_C5E3;
  }

  lemma CheckByte6()
    ensures CrcUpdate(0x340A_C5E3, [0x36, 0x37, 0x38, 0x39]) == CrcUpdate(0xF68D_2C9E, [0x37, 0x38, 0x39])
  {
    assert CrcByte(0x340A_C5E3, 0x36) == 0xF68D_2C9E;
  }

  lemma CheckByte7()
    ensures CrcUpdate(0xF68D_2C9E, [0x37, 0x38, 0x39]) == CrcUpdate(0xAFFC_9660, [0x38, 0x39])
  {
    assert CrcByte(0xF68D_2C9E, 0x37) == 0xAFFC_9660;
  }

  lemma CheckByte8()
    ensures CrcUpdate(0xAFFC_9660, [0x38, 0x39]) == CrcUpdate(0x651F_2550, [0x39])
  {
    assert CrcByte(0xAFFC_9660, 0x38) == 0x651F_2550;
  }

  lemma CheckByte9()
    ensures CrcUpdate(0x651F_2550, [0x39]) == CrcUpdate(0x340B_C6D9, [])
  {
    assert CrcByte(0x651F_2550, 0x39) == 0x340B_C6D9;
  }

  /** The standard CRC-32 check value: "123456789" gives 0xCBF43926. */
  lemma Crc32Check()
    ensures Crc32([0x31, 0x32, 0x33, 0x34, 0x35, 0x36, 0x37, 0x38, 0x39]) == 0xCBF4_3926
  {
    CheckByte1();
    CheckByte2();
    CheckByte3();
    CheckByte4();
    CheckByte5();
    CheckByte6();
    CheckByte7();
    CheckByte8();
    CheckByte9();
  }

  /** Python's `sum(data)` over a byte string. */
  function Sum(data: seq<byte>): (r: nat)
    ensures r <= 255 * |data|
  {
    if data == [] then 0 else data[0] + Sum(data[1..])
  }

  lemma {:induction false} SumConcat(a: seq<byte>, b: seq<byte>)
    ensures Sum(a + b) == Sum(a) + Sum(b)
  {
    if a == [] {
      assert a + b == b;
    } else {
      assert (a + b)[0] == a[0];
      assert (a + b)[1..] == a[1..] + b;
      SumConcat(a[1..], b);
    }
  }

  /** `calculate_checksum(data)`: the byte sum masked to 32 bits (`& 0xFFFFFFFF` is `% 2^32` on a non-negative sum). */
  function CalculateChecksum(data: seq<byte>): (r: nat)
    ensures r < Two32
    ensures Sum(data) < Two32 ==> r == Sum(data)
  {
    Sum(data) % Two32
  }

  lemma ChecksumEmpty()
    ensures CalculateChecksum([]) == 0
  {
  }

  /** The checksum of a concatenation is the sum of the two checksums, wrapped to 32 bits. */
  lemma ChecksumConcat(a: seq<byte>, b: seq<byte>)
    ensures CalculateChecksum(a + b) == (CalculateChecksum(a) + CalculateChecksum(b)) % Two32
  {
    SumConcat(a, b);
    ModAdd32(Sum(a), Sum(b));
  }

  lemma ModAdd32(x: nat, y: nat)
    ensures (x + y) % Two32 == (x % Two32 + y % Two32) % Two32
  {
    var qx, qy := x / Two32, y / Two32;
    assert x == qx * Two32 + x % Two32;
    assert y == qy * Two32 + y % Two32;
    assert x + y == (qx + qy) * Two32 + (x % Two32 + y % Two32);
  }

  /** `verify_crc(data, expected_crc)`. */
  predicate VerifyCrc(data: seq<byte>, expectedCrc: int)
    ensures VerifyCrc(data, expectedCrc) ==> 0 <= expectedCrc < Two32
  {
    Crc32(data) == expectedCrc
  }

  /** The CRC of the data itself always verifies, and no other expected value does. */
  lemma VerifyCrcExactly(data: seq<byte>, expectedCrc: int)
    ensures VerifyCrc(data, Crc32(data))
    ensures VerifyCrc(data, expectedCrc) <==> expectedCrc == Crc32(data)
    ensures VerifyCrc(data, expectedCrc) ==> 0 <= expectedCrc < Two32
  {
  }
}
