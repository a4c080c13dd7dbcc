/**
 * The EEPROM reader: command framing, the byte exchange of one read
 * transaction, the device's answer, little-endian words and the
 * coefficient matrix.
 */
module Eeprom {
  import opened Results
  import opened RscHeader

  /** The 2-byte read command for a 16-bit address argument. */
  function ReadCommand(address: bv16): (cmd: seq<bv8>)
    ensures |cmd| == 2
    ensures cmd[1] as bv16 == address & 0xFF
    ensures cmd[0] & 0xF7 == READ_EEPROM_INSTRUCTION
    ensures (cmd[0] & 0x08 == 0x08) <==> (address & EEPROM_ADDRESS_9TH_BIT_MASK != 0)
    // the device recovers the low 9 bits of the address, and only those
    ensures CommandAddress(cmd) == Some(address & 0x1FF)
  {
    [READ_EEPROM_INSTRUCTION | ((address & EEPROM_ADDRESS_9TH_BIT_MASK) >> 5) as bv8,
     (address & 0xFF) as bv8]
  }

  /**
   * The device's reading of a 2-byte command: a read instruction carries
   * address bit 8 in bit 3 of the first byte and bits 7..0 in the second.
   */
  function CommandAddress(cmd: seq<bv8>): (a: Option<bv16>)
    requires |cmd| == 2
    ensures a.Some? ==> a.value < EEPROM_SIZE as bv16
  {
    if cmd[0] & 0xF7 == READ_EEPROM_INSTRUCTION then
      Some((((cmd[0] & 0x08) as bv16) << 5) | cmd[1] as bv16)
    else
      None
  }

  /** Two addresses give the same command exactly when they agree on their low 9 bits. */
  lemma ReadCommandInjective(a: bv16, b: bv16)
    ensures ReadCommand(a) == ReadCommand(b) <==> a & 0x1FF == b & 0x1FF
  {
    if a & 0x1FF == b & 0x1FF {
      assert ReadCommand(a)[0] == ReadCommand(b)[0];
      assert ReadCommand(a)[1] == ReadCommand(b)[1];
    } else {
      assert CommandAddress(ReadCommand(a)) != CommandAddress(ReadCommand(b));
    }
  }

  /**
   * One read transaction on the full-duplex bus. Every transferred byte
   * sends `mosi[k]` and receives `miso[k]`: the two command bytes go out
   * first, then one dummy 0x00 per requested byte pumps the answer in.
   */
  method ReadTransaction(address: bv16, numBytes: bv8, miso: seq<bv8>)
    returns (mosi: seq<bv8>, data: seq<bv8>)
    requires |miso| == 2 + numBytes as int
    ensures |mosi| == |miso|
    ensures mosi[..2] == ReadCommand(address)
    ensures forall k :: 2 <= k < |mosi| ==> mosi[k] == 0
    ensures |data| == numBytes as int
    ensures forall k :: 0 <= k < |data| ==> data[k] == miso[2 + k]
  {
    var command := ReadCommand(address);
    mosi := command;
    data := [];
    var i := 0;
    while i < numBytes as int
      invariant 0 <= i <= numBytes as int
      invariant |mosi| == 2 + i && mosi[..2] == command
      invariant forall k :: 2 <= k < |mosi| ==> mosi[k] == 0
      invariant |data| == i
      invariant forall k :: 0 <= k < i ==> data[k] == miso[2 + k]
    {
      mosi := mosi + [0];
      data := data + [miso[2 + i]];
      i := i + 1;
    }
  }

  /**
   * The EEPROM's side of a read: after a read command it streams bytes of
   * its memory in ascending address order for as long as it is selected.
   * The answer stays inside the 512-byte memory.
   */
  function DeviceAnswer(mem: seq<bv8>, cmd: seq<bv8>, n: nat): (answer: Option<seq<bv8>>)
    requires |mem| == EEPROM_SIZE && |cmd| == 2
    ensures answer.Some? ==> |answer.value| == n
    ensures answer.Some? ==>
      CommandAddress(cmd).Some? && CommandAddress(cmd).value as int + n <= EEPROM_SIZE
      && answer.value == mem[CommandAddress(cmd).value as int .. CommandAddress(cmd).value as int + n]
    ensures CommandAddress(cmd).Some? && CommandAddress(cmd).value as int + n <= EEPROM_SIZE ==> answer.Some?
  {
    match CommandAddress(cmd)
    case Some(a) => if a as int + n <= EEPROM_SIZE then Some(mem[a as int .. a as int + n]) else None
    case None => None
  }

  /** `eeprom_read` against a device whose memory is `mem`. */
  function Read(mem: seq<bv8>, address: nat, n: nat): (data: seq<bv8>)
    requires |mem| == EEPROM_SIZE && address < EEPROM_SIZE && address + n <= EEPROM_SIZE
    ensures data == mem[address .. address + n]
  {
    NineBitAddress(address);
    DeviceAnswer(mem, ReadCommand(address as bv16), n).value
  }

  /**
   * `eeprom_read` on the bus: whatever bytes the device shifts back while
   * the driver clocks out the command and its zero fillers, if they are the
   * device's answer to that command then the driver's buffer holds exactly
   * the requested memory window.
   */
  method ReadFromDevice(mem: seq<bv8>, address: nat, numBytes: bv8, miso: seq<bv8>)
    returns (mosi: seq<bv8>, data: seq<bv8>)
    requires |mem| == EEPROM_SIZE && address < EEPROM_SIZE && address + numBytes as int <= EEPROM_SIZE
    requires |miso| == 2 + numBytes as int
    requires DeviceAnswer(mem, ReadCommand(address as bv16), numBytes as int) == Some(miso[2..])
    ensures |mosi| == |miso| && mosi[..2] == ReadCommand(address as bv16)
    ensures data == mem[address .. address + numBytes as int]
  {
    NineBitAddress(address);
    mosi, data := ReadTransaction(address as bv16, numBytes, miso);
    assert data == miso[2..];
  }

  /** A 9-bit address survives the conversion to the driver's 16-bit argument. */
  lemma NineBitAddress(a: nat)
    requires a < 512
    ensures (a as bv16) as int == a
    ensures (a as bv16) & 0x1FF == a as bv16
  {
    BelowNineBits(a);
    MaskNineBits(a as bv16);
  }

  lemma BelowNineBits(a: nat)
    requires a < 512
    ensures (a as bv16) as int == a && a as bv16 < 0x200
  {
  }

  lemma MaskNineBits(b: bv16)
    requires b < 0x200
    ensures b & 0x1FF == b
  {
  }

  /** A 4-byte little-endian word; the bit pattern of a stored float. */
  function LeWord(b: seq<bv8>): (w: bv32)
    requires |b| == 4
    ensures (w & 0xFF) as bv8 == b[0] && ((w >> 8) & 0xFF) as bv8 == b[1]
    ensures ((w >> 16) & 0xFF) as bv8 == b[2] && (w >> 24) as bv8 == b[3]
  {
    (b[0] as bv32) | ((b[1] as bv32) << 8) | ((b[2] as bv32) << 16) | ((b[3] as bv32) << 24)
  }

  /** The bytes of a word, least significant first: the inverse of LeWord. */
  function LeBytes(w: bv32): (b: seq<bv8>)
    ensures |b| == 4
    ensures LeWord(b) == w
  {
    [(w & 0xFF) as bv8, ((w >> 8) & 0xFF) as bv8, ((w >> 16) & 0xFF) as bv8, (w >> 24) as bv8]
  }

  /** LeWord loses nothing: the bytes come back from the word. */
  lemma LeWordBytes(b: seq<bv8>)
    requires |b| == 4
    ensures LeBytes(LeWord(b)) == b
  {
  }

  /** Where coefficient [i][j] starts in the EEPROM. */
  function CoefficientAddress(base: nat, i: nat, j: nat): nat
  {
    base + i * COEFF_ROW_STRIDE + j * COEFF_COL_STRIDE
  }

  /**
   * The 12 coefficient words occupy pairwise disjoint 4-byte windows inside
   * `[base, base + COEFF_SPAN)`; in particular the addresses are distinct.
   */
  lemma CoefficientWindowsDisjoint(base: nat, i: nat, j: nat, i': nat, j': nat)
    requires i < COEFF_ROWS && j < COEFF_COLS && i' < COEFF_ROWS && j' < COEFF_COLS
    requires (i, j) != (i', j')
    ensures CoefficientAddress(base, i, j) + 4 <= CoefficientAddress(base, i', j')
         || CoefficientAddress(base, i', j') + 4 <= CoefficientAddress(base, i, j)
    ensures base <= CoefficientAddress(base, i, j) && CoefficientAddress(base, i, j) + 4 <= base + COEFF_SPAN
  {
  }

  /** The word stored for coefficient [i][j]. */
  function StoredCoefficient(mem: seq<bv8>, base: nat, i: nat, j: nat): bv32
    requires |mem| == EEPROM_SIZE && base + COEFF_SPAN <= EEPROM_SIZE
    requires i < COEFF_ROWS && j < COEFF_COLS
  {
    LeWord(mem[CoefficientAddress(base, i, j) .. CoefficientAddress(base, i, j) + 4])
  }

  /** The inner loop of `get_coefficients`: the four reads of row `i`, in column order. */
  method ReadCoefficientRow(mem: seq<bv8>, base: nat, i: nat) returns (row: seq<bv32>)
    requires |mem| == EEPROM_SIZE && base + COEFF_SPAN <= EEPROM_SIZE && i < COEFF_ROWS
    ensures |row| == COEFF_COLS
    ensures forall j :: 0 <= j < COEFF_COLS ==> row[j] == StoredCoefficient(mem, base, i, j)
  {
    row := [];
    var j := 0;
    while j < COEFF_COLS
      invariant 0 <= j <= COEFF_COLS && |row| == j
      invariant forall c :: 0 <= c < j ==> row[c] == StoredCoefficient(mem, base, i, c)
    {
      var buf := Read(mem, CoefficientAddress(base, i, j), 4);
      row := row + [LeWord(buf)];
      j := j + 1;
    }
  }

  /**
   * `get_coefficients`: twelve independent 4-byte reads, row stride 80,
   * column stride 4, each filling entry [i][j] of the matrix.
   */
  method GetCoefficients(mem: seq<bv8>, base: nat) returns (m: seq<seq<bv32>>)
    requires |mem| == EEPROM_SIZE && base + COEFF_SPAN <= EEPROM_SIZE
    ensures |m| == COEFF_ROWS
    ensures forall i :: 0 <= i < COEFF_ROWS ==> |m[i]| == COEFF_COLS
    ensures forall i, j :: 0 <= i < COEFF_ROWS && 0 <= j < COEFF_COLS ==>
      m[i][j] == StoredCoefficient(mem, base, i, j)
  {
    m := [];
    var i := 0;
    while i < COEFF_ROWS
      invariant 0 <= i <= COEFF_ROWS && |m| == i
      invariant forall r :: 0 <= r < i ==> |m[r]| == COEFF_COLS
      invariant forall r, c :: 0 <= r < i && 0 <= c < COEFF_COLS ==> m[r][c] == StoredCoefficient(mem, base, r, c)
    {
      var row := ReadCoefficientRow(mem, base, i);
      m := m + [row];
      i := i + 1;
    }
  }
}
