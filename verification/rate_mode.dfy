/**
 * The ADC's data rate and operating mode. The data-rate enumeration lists
 * the normal-mode rates, one unnamed code, the fast-mode rates and one more
 * unnamed code, so that each family's rates are consecutive and a rate's
 * code modulo 8 is its index in the ADC's rate field.
 */
module RateMode {

  /** A value of the driver's data-rate enumeration (codes 0..15). */
  type DataRate = x: int | 0 <= x < 16

  const N_DR_20_SPS: DataRate := 0
  const N_DR_45_SPS: DataRate := 1
  const N_DR_90_SPS: DataRate := 2
  const N_DR_175_SPS: DataRate := 3
  const N_DR_330_SPS: DataRate := 4
  const N_DR_600_SPS: DataRate := 5
  const N_DR_1000_SPS: DataRate := 6
  const F_DR_40_SPS: DataRate := 8
  const F_DR_90_SPS: DataRate := 9
  const F_DR_180_SPS: DataRate := 10
  const F_DR_350_SPS: DataRate := 11
  const F_DR_660_SPS: DataRate := 12
  const F_DR_1200_SPS: DataRate := 13
  const F_DR_2000_SPS: DataRate := 14

  datatype Mode = NORMAL_MODE | NA_MODE | FAST_MODE {
    /** The mode's enumeration value, which is also its MODE field. */
    function Code(): bv8
    {
      match this
      case NORMAL_MODE => 0
      case NA_MODE => 1
      case FAST_MODE => 2
    }
  }

  /** The rates `set_data_rate` lists under normal mode. */
  predicate NormalFamily(dr: DataRate)
  {
    dr in {N_DR_20_SPS, N_DR_45_SPS, N_DR_90_SPS, N_DR_175_SPS, N_DR_330_SPS, N_DR_600_SPS, N_DR_1000_SPS}
  }

  /** The rates `set_data_rate` lists under fast mode. */
  predicate FastFamily(dr: DataRate)
  {
    dr in {F_DR_40_SPS, F_DR_90_SPS, F_DR_180_SPS, F_DR_350_SPS, F_DR_660_SPS, F_DR_1200_SPS, F_DR_2000_SPS}
  }

  /** The driver's rate and mode fields. */
  datatype AdcState = AdcState(dataRate: DataRate, mode: Mode)

  /** A mode is never NORMAL or FAST unless the rate belongs to that family. */
  predicate Consistent(s: AdcState)
  {
    && (s.mode == NORMAL_MODE ==> NormalFamily(s.dataRate))
    && (s.mode == FAST_MODE ==> FastFamily(s.dataRate))
  }

  /**
   * `set_mode`: the requested mode is kept only when the current rate lies
   * in that mode's range of codes; otherwise the mode becomes NA_MODE.
   * The range comparisons agree with the family lists because each family
   * is a run of consecutive codes.
   */
  function SetMode(s: AdcState, mode: Mode): (r: AdcState)
    ensures r.dataRate == s.dataRate
    ensures Consistent(r)
    ensures mode == NORMAL_MODE ==> (r.mode == NORMAL_MODE <==> NormalFamily(s.dataRate))
    ensures mode == FAST_MODE ==> (r.mode == FAST_MODE <==> FastFamily(s.dataRate))
    ensures r.mode == mode || r.mode == NA_MODE
  {
    var m :=
      match mode
      case NORMAL_MODE =>
        if s.dataRate < N_DR_20_SPS || s.dataRate > N_DR_1000_SPS then NA_MODE else NORMAL_MODE
      case FAST_MODE =>
        if s.dataRate < F_DR_40_SPS || s.dataRate > F_DR_2000_SPS then NA_MODE else FAST_MODE
      case NA_MODE => NA_MODE;
    s.(mode := m)
  }

  /** Requesting the same mode twice changes nothing the second time. */
  lemma SetModeIdempotent(s: AdcState, mode: Mode)
    ensures SetMode(SetMode(s, mode), mode) == SetMode(s, mode)
  {
  }

  /** A consistent state is a fixed point of re-requesting its own mode. */
  lemma SetModeKeepsConsistent(s: AdcState)
    requires Consistent(s)
    ensures SetMode(s, s.mode) == s
  {
  }

  /**
   * `set_data_rate`: stores the rate, then requests the mode of its
   * family, or NA_MODE for a code that is in neither family.
   */
  function SetDataRate(s: AdcState, dr: DataRate): (r: AdcState)
    ensures r.dataRate == dr
    ensures r.mode == NORMAL_MODE <==> NormalFamily(dr)
    ensures r.mode == FAST_MODE <==> FastFamily(dr)
    ensures r.mode == NA_MODE <==> !NormalFamily(dr) && !FastFamily(dr)
  {
    var requested :=
      if NormalFamily(dr) then NORMAL_MODE
      else if FastFamily(dr) then FAST_MODE
      else NA_MODE;
    SetMode(s.(dataRate := dr), requested)
  }

  /** The two families are disjoint, so the derived mode is unambiguous. */
  lemma FamiliesDisjoint(dr: DataRate)
    ensures !(NormalFamily(dr) && FastFamily(dr))
  {
  }

  /** `init` sets N_DR_20_SPS and then NORMAL_MODE, whatever came before. */
  lemma InitState(s: AdcState)
    ensures SetMode(SetDataRate(s, N_DR_20_SPS), NORMAL_MODE) == AdcState(N_DR_20_SPS, NORMAL_MODE)
  {
  }
}
