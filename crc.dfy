/**
 * `crc32_calculate` of proto_cpp/src/frame.cpp: the CRC-32/MPEG-2 parameter set
 * (ISO/IEC 13818-1, Annex A) computed bit by bit -- polynomial 0x04C11DB7, register
 * preset to 0xFFFFFFFF, each byte XORed into the top eight bits, eight MSB-first
 * shift steps per byte, no reflection and no final complement.  The register is a
 * 32-bit `unsigned int`, so shifts drop the bits that leave it.
 */
module Crc {
  import opened Bytes

  const POLY: bv32 := 0x04C11DB7
  const INIT: bv32 := 0xFFFFFFFF

  /**
   * One step of polynomial division, as the C++ writes it: shift left, and XOR in
   * the polynomial under the mask `0 - msb`, which is all ones exactly when the bit
   * shifted out was set.
   */
  function ShiftStep(crc: bv32): bv32
  {
    (crc << 1) ^ ((0 - (crc >> 31)) & POLY)
  }

  /** The mask selects the polynomial exactly when the top bit was set. */
  lemma ShiftStepMeaning(crc: bv32)
    ensures crc & 0x8000_0000 == 0 ==> ShiftStep(crc) == crc << 1
    ensures crc & 0x8000_0000 != 0 ==> ShiftStep(crc) == (crc << 1) ^ POLY
  {
    if crc & 0x8000_0000 == 0 {
      assert crc >> 31 == 0;
    } else {
      assert crc >> 31 == 1;
    }
  }

  /** `k` shift steps. */
  function Shifts(crc: bv32, k: nat): bv32
  {
    if k == 0 then crc else ShiftStep(Shifts(crc, k - 1))
  }

  /** A byte moved into the top eight bits of a register word. */
  function TopWord(b: byte): bv32
  {
    ((b as bv8) as bv32) << 24
  }

  /** The register after one input byte, given as its `TopWord`: XOR it in, then eight steps. */
  function ByteStep(crc: bv32, w: bv32): bv32
  {
    Shifts(crc ^ w, 8)
  }

  /** The register after feeding `data`, starting from `crc`. */
  function CrcUpdate(crc: bv32, data: seq<byte>): bv32
  {
    if data == [] then crc else ByteStep(CrcUpdate(crc, data[..|data| - 1]), TopWord(data[|data| - 1]))
  }

  /** The CRC of `data`: the register after all of it, preset and not complemented. */
  function Crc32(data: seq<byte>): bv32
  {
    CrcUpdate(INIT, data)
  }

  /** `crc32_calculate`: the nested loops compute `Crc32`. */
  method Crc32Calculate(data: seq<byte>) returns (crc: bv32)
    ensures crc == Crc32(data)
  {
    crc := 0xFFFFFFFF;
    for i := 0 to |data|
      invariant crc == CrcUpdate(INIT, data[..i])
    {
      assert data[..i + 1][..i] == data[..i];
      CastThroughBv8(data[i]);
      crc := crc ^ ((data[i] as bv32) << 24);
      ghost var start := crc;
      for j := 0 to 8
        invariant crc == Shifts(start, j)
      {
        var msb := crc >> 31;
        crc := crc << 1;
        crc := crc ^ ((0 - msb) & 0x04C11DB7);
      }
    }
    assert data[..|data|] == data;
  }

  /** The inverse of a shift step: the low bit tells whether the polynomial was XORed in. */
  function Unshift(r: bv32): bv32
  {
    if r & 1 == 0 then r >> 1 else ((r ^ POLY) >> 1) | 0x8000_0000
  }

  lemma TopBit(x: bv32)
    ensures x >> 31 == 0 || x >> 31 == 1
  {
  }

  lemma StepTop0(x: bv32)
    requires x >> 31 == 0
    ensures ShiftStep(x) == x << 1
  {
  }

  lemma StepTop1(x: bv32)
    requires x >> 31 == 1
    ensures ShiftStep(x) == (x << 1) ^ POLY
  {
  }

  lemma ShiftedOut0(x: bv32)
    requires x >> 31 == 0
    ensures (x << 1) & 1 == 0 && (x << 1) >> 1 == x
  {
  }

  lemma ShiftedOut1(x: bv32)
    requires x >> 31 == 1
    ensures ((x << 1) ^ POLY) & 1 == 1 && ((x << 1) >> 1) | 0x8000_0000 == x
  {
  }

  lemma XorTwice(y: bv32, m: bv32)
    ensures (y ^ m) ^ m == y
  {
  }

  /** `Unshift` undoes a shift step, so a step loses no information. */
  lemma UnshiftShift(x: bv32)
    ensures Unshift(ShiftStep(x)) == x
  {
    TopBit(x);
    if x >> 31 == 0 {
      StepTop0(x);
      ShiftedOut0(x);
    } else {
      StepTop1(x);
      ShiftedOut1(x);
      XorTwice(x << 1, POLY);
    }
  }

  /** Different registers stay different after a shift step. */
  lemma ShiftStepInjective(a: bv32, b: bv32)
    requires ShiftStep(a) == ShiftStep(b)
    ensures a == b
  {
    UnshiftShift(a);
    UnshiftShift(b);
  }

  lemma {:induction false} ShiftsInjective(a: bv32, b: bv32, k: nat)
    requires Shifts(a, k) == Shifts(b, k)
    ensures a == b
  {
    if k > 0 {
      ShiftStepInjective(Shifts(a, k - 1), Shifts(b, k - 1));
      ShiftsInjective(a, b, k - 1);
    }
  }

  lemma ShiftsSeparate(x1: bv32, x2: bv32, k: nat)
    requires x1 != x2
    ensures Shifts(x1, k) != Shifts(x2, k)
  {
    if Shifts(x1, k) == Shifts(x2, k) {
      ShiftsInjective(x1, x2, k);
    }
  }

  lemma WordAsInt(w: bv32)
    ensures (w as int) as bv32 == w
  {
  }

  /** Registers are compared on the wire as unsigned integers: equal integers are equal registers. */
  lemma WordIntInjective(a: bv32, b: bv32)
    requires a as int == b as int
    ensures a == b
  {
    WordAsInt(a);
    WordAsInt(b);
  }

  lemma ByteAsBv8(b: byte)
    ensures (b as bv8) as int == b
  {
  }

  /** Widening a byte to 32 bits is widening its 8-bit value. */
  lemma CastThroughBv8(b: byte)
    ensures (b as bv8) as bv32 == b as bv32
  {
  }

  lemma WordsOfBv8Differ(v1: bv8, v2: bv8)
    requires v1 != v2
    ensures (v1 as bv32) << 24 != (v2 as bv32) << 24
  {
  }

  /** Distinct bytes enter the register as distinct words. */
  lemma ByteWordsDiffer(b1: byte, b2: byte)
    requires b1 != b2
    ensures TopWord(b1) != TopWord(b2)
  {
    ByteAsBv8(b1);
    ByteAsBv8(b2);
    WordsOfBv8Differ(b1 as bv8, b2 as bv8);
  }

  lemma XorLeft(c: bv32, w1: bv32, w2: bv32)
    requires w1 != w2
    ensures c ^ w1 != c ^ w2
  {
  }

  lemma XorRight(c1: bv32, c2: bv32, w: bv32)
    requires c1 != c2
    ensures c1 ^ w != c2 ^ w
  {
  }

  /** From the same register, two different input words lead to two different registers. */
  lemma ByteStepDistinguishes(crc: bv32, w1: bv32, w2: bv32)
    requires w1 != w2
    ensures ByteStep(crc, w1) != ByteStep(crc, w2)
  {
    XorLeft(crc, w1, w2);
    ShiftsSeparate(crc ^ w1, crc ^ w2, 8);
  }

  /** Two different registers stay different whatever word follows. */
  lemma ByteStepInjective(c1: bv32, c2: bv32, w: bv32)
    requires c1 != c2
    ensures ByteStep(c1, w) != ByteStep(c2, w)
  {
    XorRight(c1, c2, w);
    ShiftsSeparate(c1 ^ w, c2 ^ w, 8);
  }

  lemma {:induction false} CrcUpdateInjective(c1: bv32, c2: bv32, data: seq<byte>)
    requires c1 != c2
    ensures CrcUpdate(c1, data) != CrcUpdate(c2, data)
  {
    if data != [] {
      CrcUpdateInjective(c1, c2, data[..|data| - 1]);
      ByteStepInjective(CrcUpdate(c1, data[..|data| - 1]), CrcUpdate(c2, data[..|data| - 1]), TopWord(data[|data| - 1]));
    }
  }

  /** Feeding `a` then `b` is feeding `a + b`. */
  lemma {:induction false} CrcUpdateAppend(crc: bv32, a: seq<byte>, b: seq<byte>)
    ensures CrcUpdate(crc, a + b) == CrcUpdate(CrcUpdate(crc, a), b)
  {
    if b == [] {
      assert a + b == a;
    } else {
      var b' := b[..|b| - 1];
      assert (a + b)[..|a + b| - 1] == a + b';
      CrcUpdateAppend(crc, a, b');
    }
  }

  /**
   * Error detection: changing any one byte of the input -- in particular any single
   * bit -- changes the CRC.
   */
  lemma ByteErrorDetected(data: seq<byte>, i: nat, v: byte)
    requires i < |data| && data[i] != v
    ensures Crc32(data) != Crc32(data[i := v])
  {
    var data' := data[i := v];
    var pre, post := data[..i], data[i + 1..];
    assert data == pre + [data[i]] + post;
    assert data' == pre + [v] + post;
    CrcUpdateAppend(INIT, pre + [data[i]], post);
    CrcUpdateAppend(INIT, pre + [v], post);
    CrcUpdateAppend(INIT, pre, [data[i]]);
    CrcUpdateAppend(INIT, pre, [v]);
    var c := CrcUpdate(INIT, pre);
    assert CrcUpdate(c, [data[i]]) == ByteStep(c, TopWord(data[i]));
    assert CrcUpdate(c, [v]) == ByteStep(c, TopWord(v));
    ByteWordsDiffer(data[i], v);
    ByteStepDistinguishes(c, TopWord(data[i]), TopWord(v));
    CrcUpdateInjective(ByteStep(c, TopWord(data[i])), ByteStep(c, TopWord(v)), post);
  }

  /** Eight steps written out, so a step on constants can be evaluated. */
  lemma EightSteps(x: bv32)
    ensures Shifts(x, 8)
            == ShiftStep(ShiftStep(ShiftStep(ShiftStep(ShiftStep(ShiftStep(ShiftStep(ShiftStep(x))))))))
  {
    assert Shifts(x, 1) == ShiftStep(x);
    assert Shifts(x, 2) == ShiftStep(Shifts(x, 1));
    assert Shifts(x, 3) == ShiftStep(Shifts(x, 2));
    assert Shifts(x, 4) == ShiftStep(Shifts(x, 3));
    assert Shifts(x, 5) == ShiftStep(Shifts(x, 4));
    assert Shifts(x, 6) == ShiftStep(Shifts(x, 5));
    assert Shifts(x, 7) == ShiftStep(Shifts(x, 6));
  }

  /** One more byte of `s` is one more `ByteStep`, here on concrete register values. */
  lemma CheckStep(s: seq<byte>, k: nat, b: byte, before: bv32, x: bv32, after: bv32)
    requires k < |s| && s[k] == b && CrcUpdate(INIT, s[..k]) == before
    requires x == before ^ TopWord(b)
    requires ShiftStep(ShiftStep(ShiftStep(ShiftStep(ShiftStep(ShiftStep(ShiftStep(ShiftStep(x)))))))) == after
    ensures CrcUpdate(INIT, s[..k + 1]) == after
  {
    EightSteps(x);
    assert s[..k + 1][..k] == s[..k];
  }

  /** The check string "123456789": the ASCII bytes 0x31 to 0x39. */
  predicate IsCheckString(s: seq<byte>)
  {
    |s| == 9 && forall i :: 0 <= i < 9 ==> s[i] == 0x31 + i
  }

  /**
   * The catalogue check value of CRC-32/MPEG-2: the CRC of the check string is
   * 0x0376E6E7.
   */
  lemma CheckValue(s: seq<byte>)
    requires IsCheckString(s)
    ensures Crc32(s) == 0x0376E6E7
  {
    assert s[..0] == [];
    CheckStep(s, 0, 0x31, 0xFFFFFFFF, 0xCEFFFFFF, 0x9EFBCF93);
    CheckStep(s, 1, 0x32, 0x9EFBCF93, 0xACFBCF93, 0x3FEC5E6A);
    CheckStep(s, 2, 0x33, 0x3FEC5E6A, 0x0CEC5E6A, 0xD952F164);
    CheckStep(s, 3, 0x34, 0xD952F164, 0xED52F164, 0xA695C4AA);
    CheckStep(s, 4, 0x35, 0xA695C4AA, 0x9395C4AA, 0xBD9AB747);
    CheckStep(s, 5, 0x36, 0xBD9AB747, 0x8B9AB747, 0xD8F06C8F);
    CheckStep(s, 6, 0x37, 0xD8F06C8F, 0xEFF06C8F, 0x0D8A14C4);
    CheckStep(s, 7, 0x38, 0x0D8A14C4, 0x358A14C4, 0x49E3C2FB);
    CheckStep(s, 8, 0x39, 0x49E3C2FB, 0x70E3C2FB, 0x0376E6E7);
    assert s[..9] == s;
  }
}
