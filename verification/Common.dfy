/** Types that several components use. */
module Common {
  datatype Option<+T> = None | Some(value: T)

  type byte = n: nat | n < 0x100
  type u16 = n: nat | n < 0x1_0000
  type u32 = n: nat | n < 0x1_0000_0000
}
