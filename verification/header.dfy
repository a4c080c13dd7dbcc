/**
 * Constants of the sensor's register and memory layout.
 *
 * The driver takes these from its header, which is not part of this model.
 * The values below follow the device's datasheet layout; every value whose
 * literal the driver itself spells out (the WREG and RREG opcodes of the
 * power-up sequence) is cross-checked by a lemma in the
 * module that uses it.
 */
module RscHeader {

  /** EEPROM read instruction: 0000 A8 011, with A8 filled in by the framing. */
  const READ_EEPROM_INSTRUCTION: bv8 := 0x03
  /** Selects bit 8 of the 9-bit EEPROM address. */
  const EEPROM_ADDRESS_9TH_BIT_MASK: bv16 := 0x100
  /** The EEPROM is addressed with 9 bits. */
  const EEPROM_SIZE: nat := 512

  /** ADC register-write instruction: 0100 RRNN. */
  const ADC_WREG: bv8 := 0x40
  /** ADC register-read instruction: 0010 RRNN. */
  const ADC_RREG: bv8 := 0x20
  /** The RR field of a WREG/RREG opcode. */
  const ADC_REG_MASK: bv8 := 0x0C
  /** The NN field (number of bytes minus one) of a WREG/RREG opcode. */
  const ADC_NUM_BYTES_MASK: bv8 := 0x03
  /** ADC reset command. */
  const ADC_RESET_COMMAND: bv8 := 0x06
  /** START/SYNC: begins continuous conversion. */
  const ADC_START_CONVERSION: bv8 := 0x08

  /** Configuration register 1: DR[2:0] in bits 7..5. */
  const DATA_RATE_SHIFT: nat := 5
  const DATA_RATE_MASK: bv8 := 0xE0
  /** Configuration register 1: MODE[1:0] in bits 4..3. */
  const OPERATING_MODE_SHIFT: nat := 3
  const OPERATING_MODE_MASK: bv8 := 0x18
  /** Configuration register 1: continuous-conversion bit (bit 2) always set. */
  const SET_BITS_MASK: bv8 := 0x04

  /** Coefficient matrix shape and its layout in the EEPROM. */
  const COEFF_ROWS: nat := 3
  const COEFF_COLS: nat := 4
  const COEFF_ROW_STRIDE: nat := 80
  const COEFF_COL_STRIDE: nat := 4
  /** Bytes from the first coefficient's address to the end of the last one. */
  const COEFF_SPAN: nat := (COEFF_ROWS - 1) * COEFF_ROW_STRIDE + (COEFF_COLS - 1) * COEFF_COL_STRIDE + 4
}
