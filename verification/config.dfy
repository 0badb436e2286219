/** The home page's chart settings: the default configuration, the settings
    read from the form, and the settings restored from storage. The six
    settings are the six keys of `DEFAULT_CONFIG` and of the form's
    `configInputs`. An input's value is `None` when the input does not exist;
    a stored setting is `None` when storage does not hold it. */
module Config {
  import opened Wrappers
  import ClientRender

  /** A setting's value: text, a list of point names, or `null`. */
  datatype Setting = SText(text: string) | SList(items: seq<string>) | SNull

  /** The configuration object. */
  datatype Settings = Settings(
    perspective: Setting, zodiacType: Setting, siderealMode: Setting,
    houseSystem: Setting, theme: Setting, activePoints: Setting)

  /** The values of the six inputs. */
  datatype Inputs = Inputs(
    perspective: Option<string>, zodiacType: Option<string>, siderealMode: Option<string>,
    houseSystem: Option<string>, theme: Option<string>, activePoints: Option<string>)

  /** The settings found in storage. */
  datatype Stored = Stored(
    perspective: Option<Setting>, zodiacType: Option<Setting>, siderealMode: Option<Setting>,
    houseSystem: Option<Setting>, theme: Option<Setting>, activePoints: Option<Setting>)

  const Sidereal: string := "Sidereal"
  const Tropic: string := "Tropic"
  const Tropical: string := "Tropical"

  /** `DEFAULT_CONFIG.active_points`. */
  const DefaultActivePoints: seq<string> := ["sun", "moon", "mercury", "venus", "mars", "jupiter", "saturn", "ascendant"]

  /** `DEFAULT_CONFIG`. */
  const DefaultConfig: Settings := Settings(
    SText("Topocentric"), SText(Sidereal), SText("KRISHNAMURTI"),
    SText("W"), SText("dark"), SList(DefaultActivePoints))

  /** Every default active point is one of the eleven points the home
      renderer lists aspects for, and none is blank. */
  lemma DefaultActivePointsAllowed()
    ensures forall p :: p in DefaultActivePoints ==> p in ClientRender.HomeAllowed && p != ""
  {
  }

  /** The renderer's base points with no form input are the default points. */
  lemma DefaultBasePoints()
    ensures ClientRender.GetAspectBasePoints(DefaultActivePoints, None) == DefaultActivePoints
  {
    ClientRender.GetAspectBasePointsDefault(DefaultActivePoints);
  }

  // ---------------------------------------------------------------------------
  // getConfigFromInputs
  // ---------------------------------------------------------------------------

  /** `if (el && el.value) cfg[key] = el.value`. */
  function Override(base: Setting, input: Option<string>): (r: Setting)
    ensures input.Some? && input.value != "" ==> r == SText(input.value)
    ensures input.None? || input == Some("") ==> r == base
  {
    match input
    case Some(v) => if v != "" then SText(v) else base
    case None => base
  }

  /** `sidereal_mode` as kept next to a zodiac: `null` unless "Sidereal". */
  function SiderealFor(zodiac: Setting, mode: Setting): Setting {
    if zodiac == SText(Sidereal) then mode else SNull
  }

  /** `getConfigFromInputs()`: the defaults, overridden by every input with a
      non-empty value; `sidereal_mode` becomes `null` unless the zodiac is
      "Sidereal". */
  function GetConfigFromInputs(inputs: Inputs): (cfg: Settings)
    ensures cfg.perspective == Override(DefaultConfig.perspective, inputs.perspective)
    ensures cfg.zodiacType == Override(DefaultConfig.zodiacType, inputs.zodiacType)
    ensures cfg.houseSystem == Override(DefaultConfig.houseSystem, inputs.houseSystem)
    ensures cfg.theme == Override(DefaultConfig.theme, inputs.theme)
    ensures cfg.activePoints == Override(DefaultConfig.activePoints, inputs.activePoints)
    ensures cfg.zodiacType != SText(Sidereal) ==> cfg.siderealMode == SNull
    ensures cfg.zodiacType == SText(Sidereal) ==> cfg.siderealMode == Override(DefaultConfig.siderealMode, inputs.siderealMode)
  {
    var zodiac := Override(DefaultConfig.zodiacType, inputs.zodiacType);
    Settings(
      Override(DefaultConfig.perspective, inputs.perspective),
      zodiac,
      SiderealFor(zodiac, Override(DefaultConfig.siderealMode, inputs.siderealMode)),
      Override(DefaultConfig.houseSystem, inputs.houseSystem),
      Override(DefaultConfig.theme, inputs.theme),
      Override(DefaultConfig.activePoints, inputs.activePoints))
  }

  /** With every input empty or missing the defaults come back unchanged. */
  lemma GetConfigFromInputsEmpty(inputs: Inputs)
    requires inputs.perspective.None? || inputs.perspective == Some("")
    requires inputs.zodiacType.None? || inputs.zodiacType == Some("")
    requires inputs.siderealMode.None? || inputs.siderealMode == Some("")
    requires inputs.houseSystem.None? || inputs.houseSystem == Some("")
    requires inputs.theme.None? || inputs.theme == Some("")
    requires inputs.activePoints.None? || inputs.activePoints == Some("")
    ensures GetConfigFromInputs(inputs) == DefaultConfig
  {
  }

  /** The settings read from the form are consistent: a sidereal mode never
      stands next to a zodiac other than "Sidereal". */
  predicate Consistent(cfg: Settings) {
    cfg.zodiacType != SText(Sidereal) ==> cfg.siderealMode == SNull
  }

  lemma GetConfigFromInputsConsistent(inputs: Inputs)
    ensures Consistent(GetConfigFromInputs(inputs))
    ensures Consistent(DefaultConfig)
  {
  }

  // ---------------------------------------------------------------------------
  // loadConfig
  // ---------------------------------------------------------------------------

  /** The zodiac after `loadConfig`'s two fixes: "Tropical" becomes "Tropic",
      and anything but "Sidereal" and "Tropic" becomes the default. */
  function FixZodiac(z: Setting): (r: Setting)
    ensures r == SText(Sidereal) || r == SText(Tropic)
    ensures z == SText(Sidereal) || z == SText(Tropic) ==> r == z
    ensures z == SText(Tropical) ==> r == SText(Tropic)
    ensures z != SText(Sidereal) && z != SText(Tropic) && z != SText(Tropical) ==> r == DefaultConfig.zodiacType
  {
    var z1 := if z == SText(Tropical) then SText(Tropic) else z;
    if z1 != SText(Sidereal) && z1 != SText(Tropic) then DefaultConfig.zodiacType else z1
  }

  /** `loadConfig()`: the stored settings over the defaults, setting by
      setting, with the zodiac fixed. The sidereal mode is kept as stored. */
  function LoadConfig(stored: Stored): (merged: Settings)
    ensures merged.zodiacType == SText(Sidereal) || merged.zodiacType == SText(Tropic)
    ensures merged.perspective == stored.perspective.GetOr(DefaultConfig.perspective)
    ensures merged.siderealMode == stored.siderealMode.GetOr(DefaultConfig.siderealMode)
    ensures merged.houseSystem == stored.houseSystem.GetOr(DefaultConfig.houseSystem)
    ensures merged.theme == stored.theme.GetOr(DefaultConfig.theme)
    ensures merged.activePoints == stored.activePoints.GetOr(DefaultConfig.activePoints)
    ensures stored.zodiacType.None? ==> merged.zodiacType == DefaultConfig.zodiacType
    ensures stored.zodiacType.Some? ==> merged.zodiacType == FixZodiac(stored.zodiacType.value)
  {
    Settings(
      stored.perspective.GetOr(DefaultConfig.perspective),
      FixZodiac(stored.zodiacType.GetOr(DefaultConfig.zodiacType)),
      stored.siderealMode.GetOr(DefaultConfig.siderealMode),
      stored.houseSystem.GetOr(DefaultConfig.houseSystem),
      stored.theme.GetOr(DefaultConfig.theme),
      stored.activePoints.GetOr(DefaultConfig.activePoints))
  }

  /** Everything a configuration holds, as storage would hold it. */
  function AsStored(cfg: Settings): Stored {
    Stored(Some(cfg.perspective), Some(cfg.zodiacType), Some(cfg.siderealMode),
      Some(cfg.houseSystem), Some(cfg.theme), Some(cfg.activePoints))
  }

  /** Saving a loaded configuration and loading it again gives it back, and
      nothing stored gives the defaults. */
  lemma LoadConfigRoundTrip(stored: Stored)
    ensures LoadConfig(AsStored(LoadConfig(stored))) == LoadConfig(stored)
    ensures LoadConfig(Stored(None, None, None, None, None, None)) == DefaultConfig
  {
  }

  /** A stored tropical zodiac keeps the stored sidereal mode: unlike the
      form, loading does not clear it. */
  lemma LoadConfigKeepsSiderealMode(mode: string)
    ensures var merged := LoadConfig(Stored(None, Some(SText(Tropic)), Some(SText(mode)), None, None, None));
      merged.zodiacType == SText(Tropic) && merged.siderealMode == SText(mode) && !Consistent(merged)
  {
  }
}
