/**
 * Decoding of the device-identity fields that are enumerations: the
 * pressure unit (from a fixed-width ASCII label) and the pressure type
 * (from a one-byte tag).
 */
module Identity {

  datatype PressureUnit = PASCAL | KPASCAL | MPASCAL | INH2O | BAR | mBAR | PSI

  datatype PressureType = DIFFERENTIAL | ABSOLUTE | GAUGE

  /** The driver clears the label's last byte before inspecting it. */
  function Terminated(field: seq<bv8>): (buf: seq<bv8>)
    requires |field| >= 1
    ensures |buf| == |field| && buf[|buf| - 1] == 0
    ensures forall k :: 0 <= k < |field| - 1 ==> buf[k] == field[k]
  {
    field[..|field| - 1] + [0]
  }

  /**
   * `get_pressure_unit`: `field` is the EEPROM's unit label, of the
   * header's fixed length n (at least 5, since n - 5 is inspected). The
   * byte at n - 2 selects the family, n - 4 and n - 5 the prefix. A label
   * outside these patterns leaves `current` in place.
   */
  function DecodePressureUnit(field: seq<bv8>, current: PressureUnit): (u: PressureUnit)
    requires |field| >= 5
    ensures field[|field| - 2] == '2' as bv8 ==> u == INH2O
    ensures field[|field| - 2] == 'a' as bv8 ==> u in {PASCAL, KPASCAL, MPASCAL}
    ensures field[|field| - 2] == 'r' as bv8 ==> u in {BAR, mBAR}
    ensures field[|field| - 2] == 'i' as bv8 ==> u == PSI
    ensures field[|field| - 2] !in {'2' as bv8, 'a' as bv8, 'r' as bv8, 'i' as bv8} ==> u == current
  {
    var buf := Terminated(field);
    var n := |buf|;
    if buf[n - 2] == '2' as bv8 then INH2O
    else if buf[n - 2] == 'a' as bv8 then
      (if buf[n - 4] == 'K' as bv8 then KPASCAL
       else if buf[n - 4] == 'M' as bv8 then MPASCAL
       else PASCAL)
    else if buf[n - 2] == 'r' as bv8 then
      (if buf[n - 5] == 'm' as bv8 then mBAR else BAR)
    else if buf[n - 2] == 'i' as bv8 then PSI
    else current
  }

  /** The unit decoding reads only the bytes at n - 2, n - 4 and n - 5. */
  lemma DecodeUnitReadsThreeBytes(a: seq<bv8>, b: seq<bv8>, current: PressureUnit)
    requires |a| == |b| >= 5
    requires a[|a| - 2] == b[|b| - 2] && a[|a| - 4] == b[|b| - 4] && a[|a| - 5] == b[|b| - 5]
    ensures DecodePressureUnit(a, current) == DecodePressureUnit(b, current)
  {
  }

  /** A label whose inspected bytes spell unit `u`, padded with spaces. */
  function UnitLabel(u: PressureUnit, n: nat): (field: seq<bv8>)
    requires n >= 5
    ensures |field| == n
  {
    var blank := seq(n, k => ' ' as bv8);
    match u
    case INH2O => blank[n - 2 := '2' as bv8]
    case PASCAL => blank[n - 2 := 'a' as bv8]
    case KPASCAL => blank[n - 2 := 'a' as bv8][n - 4 := 'K' as bv8]
    case MPASCAL => blank[n - 2 := 'a' as bv8][n - 4 := 'M' as bv8]
    case BAR => blank[n - 2 := 'r' as bv8]
    case mBAR => blank[n - 2 := 'r' as bv8][n - 5 := 'm' as bv8]
    case PSI => blank[n - 2 := 'i' as bv8]
  }

  /**
   * Every unit has a label that decodes to it, whatever the unit was
   * before: the decoder distinguishes all seven units.
   */
  lemma DecodeUnitLabel(u: PressureUnit, n: nat, current: PressureUnit)
    requires n >= 5
    ensures DecodePressureUnit(UnitLabel(u, n), current) == u
  {
  }

  /**
   * The precise choice within a family: the prefix byte decides between
   * kPa, MPa and Pa, and between mbar and bar.
   */
  lemma DecodeUnitPrefix(field: seq<bv8>, current: PressureUnit)
    requires |field| >= 5
    ensures var n := |field|; var u := DecodePressureUnit(field, current);
      && (field[n - 2] == 'a' as bv8 ==>
            && (u == KPASCAL <==> field[n - 4] == 'K' as bv8)
            && (u == MPASCAL <==> field[n - 4] == 'M' as bv8))
      && (field[n - 2] == 'r' as bv8 ==> (u == mBAR <==> field[n - 5] == 'm' as bv8))
  {
  }

  /**
   * `get_pressure_type`: the first byte of the type field. Every byte
   * decodes; 'D' and every unrecognised byte give DIFFERENTIAL.
   */
  function DecodePressureType(buf: seq<bv8>): (t: PressureType)
    requires |buf| >= 1
    ensures t == ABSOLUTE <==> buf[0] == 'A' as bv8
    ensures t == GAUGE <==> buf[0] == 'G' as bv8
    ensures t == DIFFERENTIAL <==> buf[0] != 'A' as bv8 && buf[0] != 'G' as bv8
  {
    if buf[0] == 'D' as bv8 then DIFFERENTIAL
    else if buf[0] == 'A' as bv8 then ABSOLUTE
    else if buf[0] == 'G' as bv8 then GAUGE
    else DIFFERENTIAL
  }

  /** The tag the device stores for each type; decoding recovers the type. */
  function TypeTag(t: PressureType): (tag: bv8)
    ensures DecodePressureType([tag]) == t
  {
    match t
    case DIFFERENTIAL => 'D' as bv8
    case ABSOLUTE => 'A' as bv8
    case GAUGE => 'G' as bv8
  }
}
