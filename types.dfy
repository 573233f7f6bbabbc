/** Fixed-width integer ranges and the Option wrapper shared by every module. */
module Types {

  /** A value that may be absent (NULL, an untouched out-parameter). */
  datatype Option<T> = None | Some(value: T)

  type uint8 = x: int | 0 <= x < 0x100
  type uint32 = x: int | 0 <= x < 0x1_0000_0000
  type uint64 = x: int | 0 <= x < 0x1_0000_0000_0000_0000

  /** One byte of a key or a value. */
  type byte = uint8

  /** `rel_time_t`: the engine's relative clock, an unsigned 32-bit count of seconds. */
  type RelTime = uint32
}
