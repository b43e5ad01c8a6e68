/** Fixed-width unsigned integers, optional values, and the local host. */
module Types {
  type ui8 = x: int | 0 <= x < 0x100
  type ui16 = x: int | 0 <= x < 0x1_0000
  type ui32 = x: int | 0 <= x < 0x1_0000_0000

  datatype Option<T> = None | Some(value: T)

  /** The pseudo-address that stands for the local host in the graph. */
  const OUR_IP: ui32 := 0
}
