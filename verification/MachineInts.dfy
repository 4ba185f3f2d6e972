/** Machine words as bounded integers, with the wrap-around made
    explicit by the operations that need it. */
module MachineInts {
  const TWO_16: nat := 0x1_0000
  const TWO_32: nat := 0x1_0000_0000
  const TWO_64: nat := 0x1_0000_0000_0000_0000

  type u8 = x: int | 0 <= x < 0x100
  type u16 = x: int | 0 <= x < 0x1_0000
  type u32 = x: int | 0 <= x < 0x1_0000_0000
  type u64 = x: int | 0 <= x < 0x1_0000_0000_0000_0000

  datatype Option<+T> = None | Some(value: T)

  lemma MultipleAtLeast(p: nat, d: int)
    ensures d >= 1 ==> p * d >= p
  {
    if d >= 1 {
      assert p * d == p + p * (d - 1);
      assert p * (d - 1) >= 0;
    }
  }
}
