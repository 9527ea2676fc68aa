// Constants and basic types shared by the data logger model (test.c:23-48).
module Layout {
  /** One byte of a buffer, a receive chunk or the flash chip (`unsigned char`, `uint8_t`). */
  type Byte = b: int | 0 <= b < 256

  /** The 32 bits of one `float` field, as an unsigned integer (the union's bytes read little-endian). */
  type Word = w: int | 0 <= w < 0x1_0000_0000

  const WIDTH: nat := 324
  const HEIGHT: nat := 244
  const BUFF_SIZE: nat := WIDTH * HEIGHT
  const CROP_WIDTH: nat := 320
  const CROP_HEIGHT: nat := 224
  const CROP_SIZE: nat := 71680
  /** First kept row and first kept column of the raw frame. */
  const CROP_TOP: nat := 10
  const CROP_LEFT: nat := 2

  const UART_RCV_SIZE: nat := 28
  const PACKET_SIZE: nat := 24
  const FIELD_COUNT: nat := 6

  /** Bytes one stored record occupies: the cropped frame followed by the telemetry packet. */
  const RECORD_SIZE: nat := 71704

  const READSIZE: nat := 1600

  /** Marker byte that closes a telemetry packet in the receive stream. */
  const SENTINEL: Byte := 0xFE
  /** Value of an erased flash byte. */
  const ERASED: Byte := 0xFF

  /** `flash_address` is a `uint32_t`; `image_number` a `uint16_t`. */
  const ADDRESS_SPACE: nat := 0x1_0000_0000
  const IMAGE_NUMBER_MODULUS: nat := 0x1_0000
}
