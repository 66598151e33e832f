/** Types that several components share. */
module CommonTypes {

  datatype Option<+T> = None | Some(value: T)

  const WORD := 0x1_0000_0000_0000_0000

  type uint16 = x: nat | x < 0x1_0000
  type uint32 = x: nat | x < 0x1_0000_0000
  type uint64 = x: nat | x < WORD
}
