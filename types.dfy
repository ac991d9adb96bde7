/** Machine types of the firmware, as bounded mathematical integers. */
module Types {
  /** `uint8_t` */
  type Byte = x: int | 0 <= x < 0x100

  /** `int16` */
  type Int16 = x: int | -0x8000 <= x < 0x8000

  /** `int32_t` */
  type Int32 = x: int | -0x8000_0000 <= x < 0x8000_0000

  /** Result of an I2C transaction of the peripheral driver. */
  datatype ErrorCode = NoError | Error

  datatype Option<T> = None | Some(value: T)
}
