/** The typed snapshot of one scrape of the amplifier's control page, and the
    fixed keys the page tags its fields with. */
module AmpSnapshot {
  import opened Wrappers

  datatype BandInfo = BandInfo(bandLowMhz: string, bandHighMhz: string)

  datatype Indicators = Indicators(catIsActive: bool, lastCmdIsRemote: bool)

  datatype Switches = Switches(mode: string)

  datatype Dashboard = Dashboard(
    fwdPowerW: Option<real>,
    refPowerW: Option<real>,
    inputPowerW: Option<real>,
    dissipationW: Option<real>,
    swr: Option<real>,
    gainDb: Option<real>,
    biasLeftV: Option<real>,
    biasRightV: Option<real>,
    dcVoltageV: Option<real>,
    dcCurrentA: Option<real>,
    tempC: Option<real>,
    tempRel: string)

  /** The tuner block (`ATU` in one front-end, `Atu` in the other). */
  datatype AtuInfo = AtuInfo(status: string, atuSwr: Option<real>, atuTempC: Option<real>)

  datatype Snapshot = Snapshot(
    band: BandInfo,
    indicators: Indicators,
    switches: Switches,
    dashboard: Dashboard,
    atu: AtuInfo)

  /** The snapshot the C# initialisers produce: empty texts, no numbers, both
      flags off. */
  const Default: Snapshot :=
    Snapshot(
      BandInfo("", ""),
      Indicators(false, false),
      Switches(""),
      Dashboard(None, None, None, None, None, None, None, None, None, None, None, ""),
      AtuInfo("", None, None))

  const BandLowKey := "$amp/controls/dashboard/band/band_low_border_mhz"
  const BandHighKey := "$amp/controls/dashboard/band/band_high_border_mhz"
  const CatKey := "$amp/controls/dashboard/indicators/cat_is_active"
  const RemoteKey := "$amp/controls/dashboard/indicators/last_cmd_is_remote"
  const ModeKey := "$amp/controls/dashboard/switches/mode"
  const FwdPowerKey := "$amp/controls/dashboard/values/forward_power"
  const RefPowerKey := "$amp/controls/dashboard/values/reflected_power"
  const InputPowerKey := "$amp/controls/dashboard/values/input_power"
  const DissipationKey := "$amp/controls/dashboard/values/dissipated_power"
  const SwrKey := "$amp/controls/dashboard/values/swr"
  const GainKey := "$amp/controls/dashboard/values/power_gain"
  const BiasLeftKey := "$amp/controls/dashboard/values/bias/bias_1a"
  const BiasRightKey := "$amp/controls/dashboard/values/bias/bias_1b"
  const DcVoltageKey := "$amp/controls/dashboard/values/hv/hv1"
  const DcCurrentKey := "$amp/controls/dashboard/values/id/id1"
  const TempCKey := "$amp/controls/dashboard/values/temperature_c"
  const TempRelKey := "$amp/controls/dashboard/values/temperature_rel"
  const AtuStatusKey := "$amp/controls/atu/status"
  const AtuSwrKey := "$amp/controls/atu/measure/values/swr"
  const AtuTempKey := "$amp/controls/atu/measure/values/temperature"

  /** Every key the mapper reads. */
  const KnownKeys: set<string> := {
    BandLowKey, BandHighKey, CatKey, RemoteKey, ModeKey,
    FwdPowerKey, RefPowerKey, InputPowerKey, DissipationKey, SwrKey, GainKey,
    BiasLeftKey, BiasRightKey, DcVoltageKey, DcCurrentKey, TempCKey, TempRelKey,
    AtuStatusKey, AtuSwrKey, AtuTempKey
  }
}
