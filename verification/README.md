# Honeywell RSC pressure sensor driver — Dafny model

This project models the byte-level core of the Arduino driver for the
Honeywell RSC pressure sensor (`lib/Honeywell_RSC/Honeywell_RSC.cpp`). The
sensor sits on one SPI bus behind two chip selects: an EEPROM that holds the
factory calibration data and an ADC that streams raw conversion counts. The
driver's logic around the SPI transfers is modelled as pure functions over
bytes and integers:

- **EEPROM reader** (`eeprom.dfy`, module `Eeprom`): the 2-byte read command
  built from a 9-bit address, the byte exchange of one read transaction, the
  EEPROM's answer (its memory streamed in ascending address order), 4-byte
  little-endian words, and the 3 × 4 coefficient matrix read at
  `base + 80·i + 4·j`.
- **Identity fields** (`identity.dfy`, module `Identity`): the pressure unit
  decoded from fixed offsets of the ASCII unit label, and the pressure type
  decoded from a one-byte tag.
- **Data rate and mode** (`rate_mode.dfy`, module `RateMode`): `set_data_rate`
  and `set_mode`, with the rate family (normal or fast) deciding which mode is
  allowed.
- **ADC commands** (`adc.dfy`, module `Adc`): the WREG framing of `adc_write`
  with its argument guard, the register-1 configuration byte, the conversion
  command of `get_temperature` and `select_pressure`, and the power-up
  write/readback check of `setup_adc` as a function from (seed bytes,
  readback bytes) to success or a fault carrying the expected byte, the echoed
  byte and the register's read opcode.
- **Raw samples** (`samples.dfy`, module `Samples`): the 14-bit temperature
  field and the 24-bit two's-complement pressure count, with their encoders.

Shared pieces: `results.dfy` (`Option`) and `header.dfy`
(`RscHeader`, the register and memory-layout constants).

Modelling decisions:

- The driver's header, `Honeywell_RSC.h`, is not part of this model. Its
  constants are fixed in `RscHeader` and `RateMode` from the device's layout:
  read instruction `0x03` with address bit 8 masked by `0x100` and shifted
  into bit 3; WREG `0x40`, register mask `0x0C`, byte-count mask `0x03` (as the
  `0100 RRNN` comment and the literal opcodes of `setup_adc` confirm); RREG
  `0x20`; reset `0x06`; data-rate field shift 5 / mask `0xE0`; mode field
  shift 3 / mask `0x18`; set bits `0x04`; `PRESSURE = 0`, `TEMPERATURE = 1`;
  `NORMAL_MODE = 0`, `NA_MODE = 1`, `FAST_MODE = 2`; normal rates
  `N_DR_20_SPS..N_DR_1000_SPS = 0..6` and fast rates
  `F_DR_40_SPS..F_DR_2000_SPS = 8..14`. The rate codes are the ones for
  which `(rate << 5) & 0xE0` puts a rate's index within its family into the
  ADC's 3-bit rate field, which `Adc.ConfigByteProgramsRate` checks against
  the ADC's rate tables. `set_mode` relies on each family being a run of
  consecutive codes; `RateMode.SetMode` proves its range comparisons agree
  with `set_data_rate`'s case lists under these codes.
- The data rate is an integer code 0..15 (the value range of the C
  enumeration), so codes outside both families reach `set_data_rate`'s
  default branch. The mode is a three-constructor datatype.
- EEPROM and ADC command bytes are bit-vectors (`bv8`, `bv16`, `bv32`) and
  the model uses the source's own shifts, masks and ORs. The conversion
  results are decoded over byte values (`Samples.uint8`): the source's
  shifts of non-overlapping byte fields are written as multiplications by
  powers of two and its ORs as sums; `(int32_t)b0 << 24` for `b0 >= 128` is
  taken as two's-complement wrap-around (`Samples.Int32`) rather than C's
  undefined behaviour, and `/` is C's truncating division (`Samples.CDiv`).
- The SPI bus is a parameter: `Eeprom.ReadTransaction` receives the bytes the
  device clocks back (`miso`), and `Adc.SetupAdc` receives the four bytes the
  ADC echoes.
- The model follows the code as written: the temperature count is *not*
  sign-extended (see Findings), and the unit decoder tests only the bytes at
  offsets `n-2`, `n-4` and `n-5` of the `n`-byte label (for psi only the
  `'i'`).

## Model

| member | source | states |
|---|---|---|
| Eeprom.ReadCommand | lib/Honeywell_RSC/Honeywell_RSC.cpp:72-76 | The command is 2 bytes; byte 1 is `address & 0xFF`; byte 0 is the read instruction with bit 3 set iff address bit 8 is set; the EEPROM reads back exactly the low 9 bits of the address |
| Eeprom.CommandAddress | lib/Honeywell_RSC/Honeywell_RSC.cpp:73-76 | The device's decoding of a read command always yields an address inside the 512-byte memory |
| Eeprom.ReadCommandInjective | lib/Honeywell_RSC/Honeywell_RSC.cpp:75-76 | Two addresses produce the same command if and only if they agree on their low 9 bits |
| Eeprom.ReadTransaction | lib/Honeywell_RSC/Honeywell_RSC.cpp:78-90 | The bytes sent are the command followed by `num_bytes` zero bytes; exactly `num_bytes` response bytes are collected, in order, each the byte received after the command |
| Eeprom.DeviceAnswer | lib/Honeywell_RSC/Honeywell_RSC.cpp:92-96 | A well-formed read command whose `n`-byte window fits in the memory is always answered, and only such a command is; the answer is exactly the `n` bytes of memory starting at the decoded address |
| Eeprom.ReadFromDevice | lib/Honeywell_RSC/Honeywell_RSC.cpp:72-90 | When the bytes clocked back after the command are the EEPROM's answer to it, the driver's buffer is exactly `mem[address .. address + num_bytes]` |
| Eeprom.Read | lib/Honeywell_RSC/Honeywell_RSC.cpp:72-98 | `eeprom_read` against a device with memory `mem` returns `mem[address .. address + n]` |
| Eeprom.LeWord | lib/Honeywell_RSC/Honeywell_RSC.cpp:110-112 | The stored float's bit pattern is the 4 bytes read, least significant first: byte `k` of the word is `buf[k]` |
| Eeprom.LeBytes | lib/Honeywell_RSC/Honeywell_RSC.cpp:109-112 | Splitting a word into 4 bytes, least significant first, is inverted by the little-endian assembly of a stored float's bytes |
| Eeprom.LeWordBytes | lib/Honeywell_RSC/Honeywell_RSC.cpp:116-119 | Assembling 4 bytes into a word loses nothing: the bytes come back |
| Eeprom.CoefficientWindowsDisjoint | lib/Honeywell_RSC/Honeywell_RSC.cpp:189-194 | The 12 coefficient addresses start pairwise disjoint 4-byte windows (so are pairwise distinct), all inside the coefficient area |
| Eeprom.ReadCoefficientRow | lib/Honeywell_RSC/Honeywell_RSC.cpp:190-197 | Row `i` holds, in column order, the little-endian words read at `base + 80·i + 4·j` |
| Eeprom.GetCoefficients | lib/Honeywell_RSC/Honeywell_RSC.cpp:176-199 | The result is 3 × 4 and entry `[i][j]` is the little-endian word stored at `base + 80·i + 4·j` |
| Identity.Terminated | lib/Honeywell_RSC/Honeywell_RSC.cpp:123-125 | Clearing the label's last byte keeps every other byte |
| Identity.DecodePressureUnit | lib/Honeywell_RSC/Honeywell_RSC.cpp:122-152 | Byte `n-2` decides: `'2'` gives INH2O, `'a'` a pascal unit, `'r'` a bar unit, `'i'` PSI, any other byte leaves the unit unchanged |
| Identity.DecodeUnitPrefix | lib/Honeywell_RSC/Honeywell_RSC.cpp:129-147 | Within the pascal family KPASCAL iff byte `n-4` is `'K'` and MPASCAL iff it is `'M'` (else PASCAL); within the bar family mBAR iff byte `n-5` is `'m'` (else BAR) |
| Identity.DecodeUnitReadsThreeBytes | lib/Honeywell_RSC/Honeywell_RSC.cpp:125-148 | Labels that agree at offsets `n-2`, `n-4`, `n-5` decode alike; in particular the cleared last byte never matters |
| Identity.DecodeUnitLabel | lib/Honeywell_RSC/Honeywell_RSC.cpp:126-151 | Every unit has a label that decodes to it whatever the previous unit was, so the decoder tells all seven units apart |
| Identity.DecodePressureType | lib/Honeywell_RSC/Honeywell_RSC.cpp:154-174 | Total: ABSOLUTE iff the tag is `'A'`, GAUGE iff `'G'`, DIFFERENTIAL iff neither (including `'D'`) |
| Identity.TypeTag | lib/Honeywell_RSC/Honeywell_RSC.cpp:157-169 | Each type's tag decodes back to that type |
| RateMode.SetMode | lib/Honeywell_RSC/Honeywell_RSC.cpp:464-488 | The rate is unchanged; the result is always consistent with the rate's family; NORMAL is kept iff the rate is a normal-family rate and FAST iff it is a fast-family rate, otherwise NA_MODE |
| RateMode.SetModeIdempotent | lib/Honeywell_RSC/Honeywell_RSC.cpp:464-488 | Requesting the same mode twice gives the same state as once |
| RateMode.SetModeKeepsConsistent | lib/Honeywell_RSC/Honeywell_RSC.cpp:464-488 | Re-requesting the current mode of a consistent state changes nothing |
| RateMode.SetDataRate | lib/Honeywell_RSC/Honeywell_RSC.cpp:438-462 | Afterwards the rate is `dr`; the mode is NORMAL iff `dr` is a normal rate, FAST iff a fast rate, NA iff neither |
| RateMode.FamiliesDisjoint | lib/Honeywell_RSC/Honeywell_RSC.cpp:440-461 | No rate belongs to both families |
| RateMode.InitState | lib/Honeywell_RSC/Honeywell_RSC.cpp:32-33 | `init`'s `set_data_rate(N_DR_20_SPS)` then `set_mode(NORMAL_MODE)` ends in (N_DR_20_SPS, NORMAL_MODE) from any state |
| Adc.WregOpcode | lib/Honeywell_RSC/Honeywell_RSC.cpp:370-372 | The opcode's high nibble is WREG, bits 3..2 are the low two bits of `reg`, and bits 1..0 hold `num_bytes - 1` for a count of 1..4; for accepted arguments the ADC decodes exactly (`reg`, `num_bytes`) |
| Adc.ParseWreg | lib/Honeywell_RSC/Honeywell_RSC.cpp:366-368 | A WREG opcode names a register 0..3 and a byte count 1..4 |
| Adc.AdcWrite | lib/Honeywell_RSC/Honeywell_RSC.cpp:355-384 | Nothing is sent iff `num_bytes` is outside 1..4 or `reg > 3`; otherwise the frame has `num_bytes + 1` bytes, bytes 1.. are `data` unchanged, and byte 0 encodes exactly (`reg`, `num_bytes`) |
| Adc.WregOpcodeInjective | lib/Honeywell_RSC/Honeywell_RSC.cpp:370-372 | Distinct accepted (register, count) pairs give distinct opcodes |
| Adc.OneByteFrame | lib/Honeywell_RSC/Honeywell_RSC.cpp:369-376 | A one-byte write to register 0..3 is its opcode followed by the byte |
| Adc.SetupOpcodesWellFormed | lib/Honeywell_RSC/Honeywell_RSC.cpp:492-494 | The literal opcodes `0x40+4i` and `0x20+4i` are the one-byte WREG and RREG opcodes of register `i`, so each power-up write is the frame `adc_write(i, 1, seed_i)` would send |
| Adc.SetupWrites | lib/Honeywell_RSC/Honeywell_RSC.cpp:495-507 | The power-up stream is RESET followed, for each register `i`, by a well-formed one-byte write of seed byte `i` |
| Adc.CheckReadback | lib/Honeywell_RSC/Honeywell_RSC.cpp:510-524 | From register `i` on: passes iff every echoed byte equals its seed; otherwise the fault names the first mismatching register (expected, actual, read opcode) |
| Adc.SetupAdc | lib/Honeywell_RSC/Honeywell_RSC.cpp:490-527 | Initialisation completes iff the readback equals the seed bytes; otherwise the fault is the first mismatch's (expected, actual, read opcode) |
| Adc.SetupAdcAccepts | lib/Honeywell_RSC/Honeywell_RSC.cpp:509-524 | Seeds 01 02 03 04 echoed unchanged pass |
| Adc.SetupAdcRejects | lib/Honeywell_RSC/Honeywell_RSC.cpp:513-522 | Readback 01 02 03 FF for seeds 01 02 03 04 fails with (04, FF, register opcode 2C) |
| Adc.ConfigByte | lib/Honeywell_RSC/Honeywell_RSC.cpp:258-261 | For every state and channel: DR holds the low three bits of the rate code, MODE the mode's code, the set bits are on, the channel bit names the requested channel, and bit 0 is clear |
| Adc.ConfigByteProgramsRate | lib/Honeywell_RSC/Honeywell_RSC.cpp:258-261 | After `set_data_rate(dr)` for any listed rate, the configuration byte makes the ADC sample at the rate `dr` names, on the requested channel, with the set bits on |
| Adc.ConversionCommand | lib/Honeywell_RSC/Honeywell_RSC.cpp:255-269 | The command is a well-formed one-byte WREG of register 1 carrying the configuration byte, followed by START (`0x08`) |
| Samples.Int32 | lib/Honeywell_RSC/Honeywell_RSC.cpp:329 | The int32_t reading of a value is in the int32 range and congruent to it modulo 2^32 |
| Samples.CDiv | lib/Honeywell_RSC/Honeywell_RSC.cpp:330 | Division truncates toward zero: the remainder has the dividend's sign and is smaller than the divisor |
| Samples.TemperatureRaw | lib/Honeywell_RSC/Honeywell_RSC.cpp:283-285 | `_t_raw` lies in 0..16383 and is the top 14 bits of the first two response bytes (no sign extension) |
| Samples.TemperatureIgnoresNoise | lib/Honeywell_RSC/Honeywell_RSC.cpp:283-285 | The third byte and the two low bits of the second do not affect `_t_raw` |
| Samples.TemperatureBytes | lib/Honeywell_RSC/Honeywell_RSC.cpp:285 | Any 14-bit field, left-justified in the response, decodes back to itself |
| Samples.TemperatureSigned | lib/Honeywell_RSC/Honeywell_RSC.cpp:285 | Corrected reading: the count lies in -8192..8191 and agrees with `_t_raw` modulo 2^14 |
| Samples.SignedTemperatureBytes | lib/Honeywell_RSC/Honeywell_RSC.cpp:285 | Any signed 14-bit count, encoded as the ADC does, decodes back to itself under the corrected reading |
| Samples.TemperatureAsWrittenAgrees | lib/Honeywell_RSC/Honeywell_RSC.cpp:285 | The driver's reading equals the two's-complement one iff the sign bit is clear |
| Samples.TemperatureMinusOne | lib/Honeywell_RSC/Honeywell_RSC.cpp:285 | Response FF FC 00 (count -1) reads as 16383 in the driver |
| Samples.Signed24 | lib/Honeywell_RSC/Honeywell_RSC.cpp:330 | The two's-complement reading of a 24-bit pattern lies in [-2^23, 2^23) and has that pattern as its low 24 bits |
| Samples.SignExtendByDivision | lib/Honeywell_RSC/Honeywell_RSC.cpp:329-330 | Placing a 24-bit pattern in bits 31..8 of an int32_t and dividing by 256 gives its two's-complement reading, exactly |
| Samples.PressureRaw | lib/Honeywell_RSC/Honeywell_RSC.cpp:329-330 | `p_raw` lies in [-2^23, 2^23); the division by 256 is exact; `p_raw mod 2^24` is `b0·65536 + b1·256 + b2` |
| Samples.PressureBytes | lib/Honeywell_RSC/Honeywell_RSC.cpp:329-330 | Every count in [-2^23, 2^23) has a 3-byte response that decodes to it |
| Samples.PressureBytesOfRaw | lib/Honeywell_RSC/Honeywell_RSC.cpp:329-330 | Re-encoding a decoded count gives back the three bytes |

## Left out

- The compensation polynomial of `read_pressure` (`Honeywell_RSC.cpp:332-352`): single-precision floating point whose result depends on evaluation order.
- The temperature scaling `_t_raw * 0.03125` (`:286`): floating point.
- Reinterpreting the stored bytes as `float` (`:112`, `:119`, `:196`): only the little-endian word (its bit pattern) is modelled.
- `get_catalog_listing`, `get_serial_number` (`:100-106`): plain byte copies made by `eeprom_read`, which is modelled.
- `get_pressure_range`, `get_pressure_minimum` (`:108-120`): an `eeprom_read` plus the float reinterpretation; the word step is `Eeprom.LeWord`.
- `get_initial_adc_values` (`:237-246`): four one-byte `eeprom_read`s at addresses defined in the header; the seed bytes are a parameter of `Adc.SetupAdc`.
- `init` (`:17-36`): only its final rate/mode pair is modelled (`RateMode.InitState`); the rest is the sequence of the modelled operations at header-defined addresses.
- `add_dr_delay` (`:386-436`): timing only, with float arithmetic.
- SPI transactions, chip-select writes, `digitalRead` busy-waits and delays (`:3-15`, `:38-68`, `:263-281`, `:304-327`): hardware I/O. The bus is a parameter of the model; chip-select exclusivity is not modelled.
- Serial printing: `print_coefficients` (`:201-235`), the warnings in `set_mode`, and the infinite diagnostic loop of `setup_adc` (`:514-522`), which becomes the `ConfigFault` outcome.
- The bytes `setup_adc` sends during the readback (each RREG opcode and a dummy byte) are not modelled; the echoed bytes are a parameter.
- Values of the mode enumeration other than its three enumerators are not modelled.
- Eeprom.DeviceAnswer: a read that would run past the end of the 512-byte memory is answered with `None`; what the device does there is not modelled.
- The display strings `_pressure_unit_name` and `_pressure_type_name` (`:128-168`): each is fixed by the decoded enumerator, so only the enumerator is modelled.
- `src/main.cpp`: the Arduino setup/print loop, with no logic of its own.

## Findings

| source | as written | input that shows it | evidently intended | confidence | as-written member | corrected member |
|---|---|---|---|---|---|---|
| lib/Honeywell_RSC/Honeywell_RSC.cpp:285 | `_t_raw` is the top 14 bits of the first two response bytes read as an unsigned count | response FF FC 00, the ADC's 14-bit two's-complement count -1 (−0.03125 °C), gives `_t_raw` = 16383 (511.97 °C); every temperature below 0 °C is misread | the 14-bit field sign-extended, as the comment "first 14 bits represent temperature" and the ADC's two's-complement encoding require | medium; not executed | Samples.TemperatureRaw, Samples.TemperatureMinusOne | Samples.TemperatureSigned, Samples.SignedTemperatureBytes |
