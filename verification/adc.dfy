/**
 * Commands sent to the ADC: the register-write (WREG) framing and its
 * guard, the configuration byte of register 1, the conversion commands
 * for temperature and pressure, and the power-up write/readback check.
 */
module Adc {
  import opened Results
  import opened RscHeader
  import opened RateMode

  /** The WREG opcode for `numBytes` bytes starting at register `reg`: 0100 RRNN. */
  function WregOpcode(reg: bv8, numBytes: bv8): (op: bv8)
    ensures op & 0xF0 == ADC_WREG
    ensures (op & ADC_REG_MASK) >> 2 == reg & 0x03
    ensures 1 <= numBytes <= 4 ==> (op & ADC_NUM_BYTES_MASK) + 1 == numBytes
    ensures WriteArgsValid(reg, numBytes) ==> ParseWreg(op) == Some((reg, numBytes))
  {
    ADC_WREG | ((reg << 2) & ADC_REG_MASK) | ((numBytes - 1) & ADC_NUM_BYTES_MASK)
  }

  /** The ADC's reading of a WREG opcode: (register, number of bytes). */
  function ParseWreg(op: bv8): (r: Option<(bv8, bv8)>)
    ensures r.Some? ==> r.value.0 <= 3 && 1 <= r.value.1 <= 4
  {
    if op & 0xF0 == ADC_WREG then Some(((op & ADC_REG_MASK) >> 2, (op & ADC_NUM_BYTES_MASK) + 1))
    else None
  }

  /** The arguments `adc_write` accepts: 1..4 bytes, registers 0..3. */
  predicate WriteArgsValid(reg: bv8, numBytes: bv8)
  {
    1 <= numBytes <= 4 && reg <= 3
  }

  /**
   * `adc_write`: the frame sent, or None when the guard rejects the
   * arguments and nothing is sent. The source reads `numBytes` bytes of
   * `data` only once the guard has passed.
   */
  function AdcWrite(reg: bv8, numBytes: bv8, data: seq<bv8>): (frame: Option<seq<bv8>>)
    requires WriteArgsValid(reg, numBytes) ==> numBytes as int <= |data|
    ensures frame.None? <==> !WriteArgsValid(reg, numBytes)
    ensures frame.Some? ==> |frame.value| == numBytes as int + 1
    ensures frame.Some? ==> frame.value[1..] == data[..numBytes]
    // the ADC reads the register and the byte count back out of the opcode
    ensures frame.Some? ==> ParseWreg(frame.value[0]) == Some((reg, numBytes))
  {
    if numBytes == 0 || numBytes > 4 then None
    else if reg > 3 then None
    else Some([WregOpcode(reg, numBytes)] + data[..numBytes])
  }

  /** Distinct accepted arguments give distinct opcodes. */
  lemma WregOpcodeInjective(reg: bv8, n: bv8, reg': bv8, n': bv8)
    requires WriteArgsValid(reg, n) && WriteArgsValid(reg', n')
    requires WregOpcode(reg, n) == WregOpcode(reg', n')
    ensures reg == reg' && n == n'
  {
    var f := AdcWrite(reg, n, seq(n as int, k => 0));
    var f' := AdcWrite(reg', n', seq(n' as int, k => 0));
    assert ParseWreg(f.value[0]) == ParseWreg(f'.value[0]);
  }

  /** The RREG opcode reading one byte from register `reg`: 0010 RR00. */
  function RregOpcode(reg: bv8): bv8
  {
    ADC_RREG | ((reg << 2) & ADC_REG_MASK)
  }

  /** The opcodes `setup_adc` spells out for writing and reading back registers 0..3. */
  const SETUP_WRITE_OPCODES: seq<bv8> := [0x40, 0x44, 0x48, 0x4C]
  const SETUP_READ_OPCODES: seq<bv8> := [0x20, 0x24, 0x28, 0x2C]

  /**
   * The literal opcodes of the power-up sequence are the one-byte WREG and
   * RREG opcodes of registers 0..3, so each register write is exactly the
   * frame `adc_write(i, 1, [seed i])` would send.
   */
  lemma SetupOpcodesWellFormed(i: nat, b: bv8)
    requires i < 4
    ensures SETUP_WRITE_OPCODES[i] == WregOpcode(i as bv8, 1)
    ensures SETUP_READ_OPCODES[i] == RregOpcode(i as bv8)
    ensures AdcWrite(i as bv8, 1, [b]) == Some([SETUP_WRITE_OPCODES[i], b])
  {
    var r := i as bv8;
    assert r < 4 && r as int == i;
    OneByteFrame(r, b);
    if i == 0 { assert r == 0; }
    else if i == 1 { assert r == 1; }
    else if i == 2 { assert r == 2; }
    else { assert r == 3; }
  }

  /** A one-byte write to an accepted register is its opcode and the byte. */
  lemma OneByteFrame(reg: bv8, b: bv8)
    requires reg <= 3
    ensures AdcWrite(reg, 1, [b]) == Some([WregOpcode(reg, 1), b])
  {
    assert [b][..1] == [b];
    assert [WregOpcode(reg, 1)] + [b] == [WregOpcode(reg, 1), b];
  }

  /**
   * The bytes `setup_adc` sends before the readback: RESET, then each
   * register's WREG opcode followed by its seed byte.
   */
  function SetupWrites(seed: seq<bv8>): (out: seq<bv8>)
    requires |seed| == 4
    ensures |out| == 9 && out[0] == ADC_RESET_COMMAND
    ensures forall i :: 0 <= i < 4 ==>
      AdcWrite(i as bv8, 1, [seed[i]]) == Some(out[1 + 2 * i .. 3 + 2 * i])
  {
    var out := [ADC_RESET_COMMAND,
                SETUP_WRITE_OPCODES[0], seed[0], SETUP_WRITE_OPCODES[1], seed[1],
                SETUP_WRITE_OPCODES[2], seed[2], SETUP_WRITE_OPCODES[3], seed[3]];
    forall i | 0 <= i < 4
      ensures AdcWrite(i as bv8, 1, [seed[i]]) == Some(out[1 + 2 * i .. 3 + 2 * i])
    {
      SetupOpcodesWellFormed(i, seed[i]);
      assert out[1 + 2 * i .. 3 + 2 * i] == [SETUP_WRITE_OPCODES[i], seed[i]];
    }
    out
  }

  /** The diagnostic a readback mismatch carries: written byte, echoed byte, RREG opcode. */
  datatype AdcFault = AdcFault(expected: bv8, actual: bv8, register: bv8)

  /** How the power-up sequence ends: configured, or halted on a readback fault. */
  datatype SetupOutcome = Configured | ConfigFault(fault: AdcFault)

  /** The readback loop of `setup_adc` from register `i` on, stopping at the first mismatch. */
  function CheckReadback(seed: seq<bv8>, readback: seq<bv8>, i: nat): (r: SetupOutcome)
    requires |seed| == 4 && |readback| == 4 && i <= 4
    decreases 4 - i
    ensures r.Configured? <==> forall k :: i <= k < 4 ==> readback[k] == seed[k]
    ensures r.ConfigFault? ==>
      exists k :: i <= k < 4
        && (forall k' :: i <= k' < k ==> readback[k'] == seed[k'])
        && readback[k] != seed[k]
        && r.fault == AdcFault(seed[k], readback[k], SETUP_READ_OPCODES[k])
  {
    if i == 4 then Configured
    else if seed[i] != readback[i] then ConfigFault(AdcFault(seed[i], readback[i], SETUP_READ_OPCODES[i]))
    else CheckReadback(seed, readback, i + 1)
  }

  /**
   * `setup_adc`: initialisation completes exactly when every register
   * echoes its seed byte; otherwise the first mismatching register's
   * diagnostic is reported. The source halts there, printing it forever.
   */
  function SetupAdc(seed: seq<bv8>, readback: seq<bv8>): (r: SetupOutcome)
    requires |seed| == 4 && |readback| == 4
    ensures r.Configured? <==> readback == seed
    ensures r.ConfigFault? ==>
      exists k :: 0 <= k < 4
        && (forall k' :: 0 <= k' < k ==> readback[k'] == seed[k'])
        && readback[k] != seed[k]
        && r.fault == AdcFault(seed[k], readback[k], SETUP_READ_OPCODES[k])
  {
    var r := CheckReadback(seed, readback, 0);
    assert r.Configured? ==> readback == seed;
    r
  }

  /** Seeds 01 02 03 04 echoed unchanged: initialisation completes. */
  lemma SetupAdcAccepts()
    ensures SetupAdc([0x01, 0x02, 0x03, 0x04], [0x01, 0x02, 0x03, 0x04]) == Configured
  {
  }

  /** Register 3 echoes FF instead of 04: the fault names it. */
  lemma SetupAdcRejects()
    ensures SetupAdc([0x01, 0x02, 0x03, 0x04], [0x01, 0x02, 0x03, 0xFF]) == ConfigFault(AdcFault(0x04, 0xFF, 0x2C))
  {
    var seed: seq<bv8> := [0x01, 0x02, 0x03, 0x04];
    var readback: seq<bv8> := [0x01, 0x02, 0x03, 0xFF];
    assert CheckReadback(seed, readback, 3) == ConfigFault(AdcFault(0x04, 0xFF, 0x2C));
    assert CheckReadback(seed, readback, 2) == CheckReadback(seed, readback, 3);
    assert CheckReadback(seed, readback, 1) == CheckReadback(seed, readback, 2);
    assert CheckReadback(seed, readback, 0) == CheckReadback(seed, readback, 1);
  }

  /** The measured quantity, with its enumeration value. */
  datatype Channel = PRESSURE | TEMPERATURE {
    function Code(): bv8
    {
      match this
      case PRESSURE => 0
      case TEMPERATURE => 1
    }
  }

  /**
   * Register 1's configuration byte: rate code in DR (bits 7..5), mode in
   * MODE (bits 4..3), the set bits, and the channel in bit 1.
   */
  function ConfigByte(s: AdcState, ch: Channel): (c: bv8)
    ensures (c & DATA_RATE_MASK) >> DATA_RATE_SHIFT == (s.dataRate % 8) as bv8
    ensures (c & OPERATING_MODE_MASK) >> OPERATING_MODE_SHIFT == s.mode.Code()
    ensures c & SET_BITS_MASK == SET_BITS_MASK
    ensures RegisterChannel(c) == ch
    ensures c & 0x01 == 0
  {
    (((s.dataRate as bv8) << DATA_RATE_SHIFT) & DATA_RATE_MASK)
    | ((s.mode.Code() << OPERATING_MODE_SHIFT) & OPERATING_MODE_MASK)
    | (((ch.Code() & 0x01) << 1) | SET_BITS_MASK)
  }

  /** Samples per second named by each rate of the enumeration. */
  function NominalSps(dr: DataRate): Option<nat>
  {
    if dr == N_DR_20_SPS then Some(20)
    else if dr == N_DR_45_SPS then Some(45)
    else if dr == N_DR_90_SPS then Some(90)
    else if dr == N_DR_175_SPS then Some(175)
    else if dr == N_DR_330_SPS then Some(330)
    else if dr == N_DR_600_SPS then Some(600)
    else if dr == N_DR_1000_SPS then Some(1000)
    else if dr == F_DR_40_SPS then Some(40)
    else if dr == F_DR_90_SPS then Some(90)
    else if dr == F_DR_180_SPS then Some(180)
    else if dr == F_DR_350_SPS then Some(350)
    else if dr == F_DR_660_SPS then Some(660)
    else if dr == F_DR_1200_SPS then Some(1200)
    else if dr == F_DR_2000_SPS then Some(2000)
    else None
  }

  /**
   * The ADC's interpretation of a configuration byte: DR indexes the
   * normal-mode rate table when MODE is 00 and the turbo table when MODE
   * is 10; DR 111 names no rate, and modes 01 (duty cycle) and 11 are
   * not modelled.
   */
  function RegisterSps(config: bv8): Option<nat>
  {
    var dr := (config & DATA_RATE_MASK) >> DATA_RATE_SHIFT;
    var mode := (config & OPERATING_MODE_MASK) >> OPERATING_MODE_SHIFT;
    if dr == 7 then None
    else if mode == 0 then Some([20, 45, 90, 175, 330, 600, 1000][dr])
    else if mode == 2 then Some([40, 90, 180, 350, 660, 1200, 2000][dr])
    else None
  }

  /** The channel bit of a configuration byte. */
  function RegisterChannel(config: bv8): Channel
  {
    if config & 0x02 == 0 then PRESSURE else TEMPERATURE
  }

  /**
   * After `set_data_rate(dr)` for any rate of either family, the
   * configuration byte programs the ADC to sample at the rate `dr` names
   * and to measure the requested channel, with continuous conversion on.
   */
  lemma ConfigByteProgramsRate(s: AdcState, dr: DataRate, ch: Channel)
    requires NormalFamily(dr) || FastFamily(dr)
    ensures var config := ConfigByte(SetDataRate(s, dr), ch);
      && RegisterSps(config) == NominalSps(dr)
      && RegisterChannel(config) == ch
      && config & SET_BITS_MASK == SET_BITS_MASK
  {
  }

  /**
   * The command `get_temperature` and `select_pressure` send: a one-byte
   * WREG of register 1 carrying the configuration byte, then START.
   */
  function ConversionCommand(s: AdcState, ch: Channel): (cmd: seq<bv8>)
    ensures |cmd| == 3 && cmd[2] == ADC_START_CONVERSION
    ensures AdcWrite(1, 1, [ConfigByte(s, ch)]) == Some(cmd[..2])
  {
    var config := ConfigByte(s, ch);
    var cmd := [ADC_WREG | ((1 << 2) & ADC_REG_MASK), config, ADC_START_CONVERSION];
    OneByteFrame(1, config);
    assert cmd[..2] == [WregOpcode(1, 1), config];
    cmd
  }
}
