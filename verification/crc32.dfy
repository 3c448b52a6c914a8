/** The table-free CRC-32 of the download service (`crc32_calc`): the reflected
    polynomial 0xEDB88320, register complemented on entry and on exit. This is
    the frame check sequence of clause 3.2.9 of IEEE 802.3. */
module Crc32 {

  /** The reflected IEEE 802.3 generator polynomial. */
  const POLY: bv32 := 0xEDB88320

  /** One clock of the reflected shift register: shift right, and fold the
      polynomial in when the bit shifted out was set. */
  function Clock(c: bv32): bv32 {
    (c >> 1) ^ (if c & 1 == 1 then POLY else 0)
  }

  /** `k` clocks of the shift register. */
  function ClockN(c: bv32, k: nat): bv32
    decreases k
  {
    if k == 0 then c else Clock(ClockN(c, k - 1))
  }

  /** Absorbs one byte: XOR it into the low byte, then eight clocks. */
  function AbsorbByte(c: bv32, b: bv8): bv32 {
    ClockN(c ^ (b as bv32), 8)
  }

  /** The checksum continued over one byte: the C code keeps the register
      complemented between bytes, so a checksum value is the complement of the
      register. */
  function UpdateByte(crc: bv32, b: bv8): bv32 {
    !AbsorbByte(!crc, b)
  }

  /** Runs a byte-consuming step function over `data`, front to back. */
  function Fold<S>(step: (S, bv8) -> S, s: S, data: seq<bv8>): S
    decreases |data|
  {
    if |data| == 0 then s else Fold(step, step(s, data[0]), data[1..])
  }

  /** `crc32_calc(crc, data, len)`: continues the checksum `crc` over `data`.
      A new download starts from 0. */
  function Crc32Calc(crc: bv32, data: seq<bv8>): (r: bv32)
    ensures |data| == 0 ==> r == crc
  {
    Fold(UpdateByte, crc, data)
  }

  /** Folding over a concatenation is folding over its parts in turn. */
  lemma {:induction false} FoldAppend<S>(step: (S, bv8) -> S, s: S, a: seq<bv8>, b: seq<bv8>)
    ensures Fold(step, s, a + b) == Fold(step, Fold(step, s, a), b)
    decreases |a|
  {
    if |a| == 0 {
      assert a + b == b;
    } else {
      assert (a + b)[0] == a[0];
      assert (a + b)[1..] == a[1..] + b;
      FoldAppend(step, step(s, a[0]), a[1..], b);
    }
  }

  /** Chunking law: checksumming `a` and then continuing over `b` gives the
      checksum of `a + b`, whatever the split point. */
  lemma {:induction false} Crc32Chunks(c: bv32, a: seq<bv8>, b: seq<bv8>)
    ensures Crc32Calc(Crc32Calc(c, a), b) == Crc32Calc(c, a + b)
  {
    FoldAppend(UpdateByte, c, a, b);
  }

  /** The ASCII digits "123456789", the standard CRC-32 check input. */
  const CHECK_INPUT: seq<bv8> := [0x31, 0x32, 0x33, 0x34, 0x35, 0x36, 0x37, 0x38, 0x39]

  /** The checksum over bytes 1 to 3 of `CHECK_INPUT`, one byte at a time. */
  lemma CheckInputFirst()
    ensures Crc32Calc(0x00000000, CHECK_INPUT[0..]) == Crc32Calc(0x884863D2, CHECK_INPUT[3..])
  {
    var s := CHECK_INPUT;
    assert UpdateByte(0x00000000, 0x31) == 0x83DCEFB7;
    assert s[0..][0] == 0x31 && s[0..][1..] == s[1..];
    Crc32CalcCons(0x00000000, s[0..]);
    assert UpdateByte(0x83DCEFB7, 0x32) == 0x4F5344CD;
    assert s[1..][0] == 0x32 && s[1..][1..] == s[2..];
    Crc32CalcCons(0x83DCEFB7, s[1..]);
    assert UpdateByte(0x4F5344CD, 0x33) == 0x884863D2;
    assert s[2..][0] == 0x33 && s[2..][1..] == s[3..];
    Crc32CalcCons(0x4F5344CD, s[2..]);
  }

  /** The checksum over bytes 4 to 6 of `CHECK_INPUT`, one byte at a time. */
  lemma CheckInputMiddle()
    ensures Crc32Calc(0x884863D2, CHECK_INPUT[3..]) == Crc32Calc(0x0972D361, CHECK_INPUT[6..])
  {
    var s := CHECK_INPUT;
    assert UpdateByte(0x884863D2, 0x34) == 0x9BE3E0A3;
    assert s[3..][0] == 0x34 && s[3..][1..] == s[4..];
    Crc32CalcCons(0x884863D2, s[3..]);
    assert UpdateByte(0x9BE3E0A3, 0x35) == 0xCBF53A1C;
    assert s[4..][0] == 0x35 && s[4..][1..] == s[5..];
    Crc32CalcCons(0x9BE3E0A3, s[4..]);
    assert UpdateByte(0xCBF53A1C, 0x36) == 0x0972D361;
    assert s[5..][0] == 0x36 && s[5..][1..] == s[6..];
    Crc32CalcCons(0xCBF53A1C, s[5..]);
  }

  /** The checksum over bytes 7 to 9 of `CHECK_INPUT`, one byte at a time. */
  lemma CheckInputLast()
    ensures Crc32Calc(0x0972D361, CHECK_INPUT[6..]) == Crc32Calc(0xCBF43926, CHECK_INPUT[9..])
  {
    var s := CHECK_INPUT;
    assert UpdateByte(0x0972D361, 0x37) == 0x5003699F;
    assert s[6..][0] == 0x37 && s[6..][1..] == s[7..];
    Crc32CalcCons(0x0972D361, s[6..]);
    assert UpdateByte(0x5003699F, 0x38) == 0x9AE0DAAF;
    assert s[7..][0] == 0x38 && s[7..][1..] == s[8..];
    Crc32CalcCons(0x5003699F, s[7..]);
    assert UpdateByte(0x9AE0DAAF, 0x39) == 0xCBF43926;
    assert s[8..][0] == 0x39 && s[8..][1..] == s[9..];
    Crc32CalcCons(0x9AE0DAAF, s[8..]);
  }

  /** The published check value of the IEEE 802.3 CRC-32. */
  lemma CheckValue()
    ensures Crc32Calc(0, CHECK_INPUT) == 0xCBF43926
  {
    CheckInputFirst();
    CheckInputMiddle();
    CheckInputLast();
    assert CHECK_INPUT[0..] == CHECK_INPUT;
  }

  lemma DoubleComplement(x: bv32)
    ensures !!x == x
  {
  }

  /** Continuing a checksum over one byte runs the register on its complement. */
  lemma UpdateOfComplement(c: bv32, b: bv8)
    ensures UpdateByte(!c, b) == !AbsorbByte(c, b)
  {
    DoubleComplement(c);
  }

  /** The checksum over a non-empty string continues from its first byte. */
  lemma Crc32CalcCons(crc: bv32, data: seq<bv8>)
    requires |data| > 0
    ensures Crc32Calc(crc, data) == Crc32Calc(UpdateByte(crc, data[0]), data[1..])
  {
  }

  /** The eight shift-and-conditional-XOR steps the C code runs per byte. */
  method ShiftInByte(c: bv32, b: bv8) returns (x: bv32)
    ensures x == AbsorbByte(c, b)
  {
    x := c ^ (b as bv32);
    var k := 0;
    while k < 8
      invariant 0 <= k <= 8
      invariant x == ClockN(c ^ (b as bv32), k)
    {
      x := Clock(x);
      k := k + 1;
    }
  }

  /** The C loop of `crc32_calc`: complement the checksum once on entry, run
      the register over every byte, complement once on exit. Keeping the
      register complemented across the whole loop computes the same checksum
      as complementing around every byte. */
  method Crc32Loop(crc: bv32, data: seq<bv8>) returns (r: bv32)
    ensures r == Crc32Calc(crc, data)
  {
    var c := !crc;
    DoubleComplement(crc);
    var i := 0;
    while i < |data|
      invariant 0 <= i <= |data|
      invariant Crc32Calc(!c, data[i..]) == Crc32Calc(crc, data)
    {
      assert data[i..][1..] == data[i + 1..];
      Crc32CalcCons(!c, data[i..]);
      UpdateOfComplement(c, data[i]);
      c := ShiftInByte(c, data[i]);
      i := i + 1;
    }
    r := !c;
  }
}
