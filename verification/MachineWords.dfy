/** Fixed-width machine arithmetic shared by the relocators: 64-bit addresses as
    bounded integers, 32-bit instruction words as bit vectors, and the passage
    between the two. */
module MachineWords {
  import opened Bytes

  const TWO_TO_THE_16: int := 0x1_0000
  const TWO_TO_THE_32: int := 0x1_0000_0000

  /** The page of an address. */
  function PageBase(pc: uint64): (r: int) { pc - pc % 0x1000 }

  lemma Low64Add(x: int, y: int)
    ensures Low64(Low64(x) + y) == Low64(x + y)
  {
  }

  /** Appends one bit at the low end. */
  function Push(y: bv32, odd: bool): (w: bv32)
  {
    if odd then (y << 1) | 1 else y << 1
  }

  /** The 32-bit word whose unsigned value is k (k reduced modulo 2^32). */
  function ToWord(k: nat): (w: bv32)
  {
    if k == 0 then 0 else Push(ToWord(k / 2), k % 2 == 1)
  }

  lemma Below31Bits(y: bv32)
    requires y as int < 0x8000_0000
    ensures y < 0x8000_0000
  {
  }

  lemma ShiftInZero(y: bv32)
    requires y < 0x8000_0000
    ensures (y << 1) as int == 2 * (y as int)
  {
  }

  lemma ShiftInOne(y: bv32)
    requires y < 0x8000_0000
    ensures ((y << 1) | 1) as int == 2 * (y as int) + 1
  {
  }

  lemma PushValue(y: bv32, odd: bool)
    requires y < 0x8000_0000
    ensures Push(y, odd) as int == 2 * (y as int) + (if odd then 1 else 0)
  {
    if odd {
      ShiftInOne(y);
    } else {
      ShiftInZero(y);
    }
  }

  lemma {:induction false} ToWordValue(k: nat)
    requires k < TWO_TO_THE_32
    ensures ToWord(k) as int == k
  {
    if k != 0 {
      ToWordValue(k / 2);
      Below31Bits(ToWord(k / 2));
      PushValue(ToWord(k / 2), k % 2 == 1);
    }
  }

  lemma Below16Bits(y: bv32)
    requires y as int < 0x1_0000
    ensures y <= 0xFFFF
  {
  }

  lemma Below18Bits(y: bv32)
    requires y as int < 0x4_0000
    ensures y <= 0x3_FFFF
  {
  }
}
