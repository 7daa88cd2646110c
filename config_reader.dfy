/** Two-tier configuration resolution: a value stored in the Configurations table
    wins; otherwise the deployment configuration's default key is used. */
module ConfigReader {
  import opened Common
  import opened Decimals

  /** The PersonUID the capture devices give every unidentified visitor. */
  const VisitorUid: string := "0"

  /** The MaskValue of a "no mask detected" record. */
  const NoMaskValue: int := 2

  /** The Configurations row the threshold lives in.
      ConfigReader declares no `TemperatureThresholdConfigSettingName`; it is taken to be
      "TemperatureThreshold", the key that the threshold getter reads. */
  const TemperatureThresholdConfigSettingName: string := "TemperatureThreshold"

  const DefaultTemperatureThresholdConfig: string := "DefaultTemperatureThreshold"
  const DefaultTemperatureAlertHeaderConfig: string := "DefaultTemperatureAlertHeader"
  const DefaultMaskAlertHeaderConfig: string := "DefaultMaskAlertHeader"
  const DefaultSendAlertForTemperatureSMSConfig: string := "SMSAlertForTemperatureEnabled"
  const DefaultSMSSenderConfig: string := "DefaultSMSSender"
  const DefaultSendAlertForTemperatureEmailConfig: string := "EmailAlertForTemperatureEnabled"
  const DefaultSendAlertForMaskEmailConfig: string := "EmailAlertForMaskEnabled"
  const DefaultEmailSenderConfig: string := "DefaultEmailSenderName"
  const DefaultSendAlertForMaskSMSConfig: string := "SMSAlertForMaskEnabled"

  /** The Configurations table (ConfigKey is its key, ConfigValue is required) and the
      deployment configuration, where a missing key reads as null. */
  datatype Sources = Sources(configurations: map<string, string>, deployment: map<string, string>)

  /** `Configurations.Where(x => x.ConfigKey == key).Select(x => x.ConfigValue).FirstOrDefault()` */
  function Stored(src: Sources, key: string): Option<string>
  {
    if key in src.configurations then Some(src.configurations[key]) else None
  }

  /** `Configuration[key]` */
  function Deployed(src: Sources, key: string): Option<string>
  {
    if key in src.deployment then Some(src.deployment[key]) else None
  }

  predicate IsNullOrEmpty(v: Option<string>)
  {
    v.None? || v.value == ""
  }

  /** The stored value when it is non-empty, otherwise the deployment value of defaultKey. */
  function Resolve(src: Sources, key: string, defaultKey: string): (r: Option<string>)
    ensures key in src.configurations && src.configurations[key] != "" ==> r == Some(src.configurations[key])
    ensures (key !in src.configurations || src.configurations[key] == "") ==>
              r == (if defaultKey in src.deployment then Some(src.deployment[defaultKey]) else None)
  {
    var res := Stored(src, key);
    if IsNullOrEmpty(res) then Deployed(src, defaultKey) else res
  }

  /** A non-empty stored value hides the deployment configuration entirely. */
  lemma StoredValueShadowsDeployment(c: map<string, string>, d1: map<string, string>, d2: map<string, string>, key: string, defaultKey: string)
    requires key in c && c[key] != ""
    ensures Resolve(Sources(c, d1), key, defaultKey) == Resolve(Sources(c, d2), key, defaultKey) == Some(c[key])
  {
  }

  // ---------------------------------------------------------------------------
  // The string settings

  datatype TextSetting =
    | TemperatureAlertHeader | MaskAlertHeader
    | TemperatureAlertEmailSubject | MaskAlertEmailSubject
    | SMSSender | EmailSenderName
  {
    function Key(): string
    {
      match this
      case TemperatureAlertHeader => "TemperatureAlertHeader"
      case MaskAlertHeader => "MaskAlertHeader"
      case TemperatureAlertEmailSubject => "TemperatureAlertEmailSubject"
      case MaskAlertEmailSubject => "MaskAlertEmailSubject"
      case SMSSender => "SMSSender"
      case EmailSenderName => "EmailSenderName"
    }

    /** The email subjects fall back to the alert headers' deployment keys. */
    function DefaultKey(): string
    {
      match this
      case TemperatureAlertHeader => DefaultTemperatureAlertHeaderConfig
      case MaskAlertHeader => DefaultMaskAlertHeaderConfig
      case TemperatureAlertEmailSubject => DefaultTemperatureAlertHeaderConfig
      case MaskAlertEmailSubject => DefaultMaskAlertHeaderConfig
      case SMSSender => DefaultSMSSenderConfig
      case EmailSenderName => DefaultEmailSenderConfig
    }
  }

  /** GetTemperatureAlertHeader, GetMaskAlertHeader, GetTemperatureAlertEmailSubject,
      GetMaskAlertEmailSubject, GetSMSSender and GetEmailSenderName. */
  function GetText(src: Sources, setting: TextSetting): (r: Option<string>)
    ensures Stored(src, setting.Key()).Some? && Stored(src, setting.Key()).value != "" ==>
              r == Stored(src, setting.Key())
    ensures IsNullOrEmpty(Stored(src, setting.Key())) ==> r == Deployed(src, setting.DefaultKey())
  {
    Resolve(src, setting.Key(), setting.DefaultKey())
  }

  /** With neither subject stored, an email subject is the deployment default of the matching
      alert header, which is what that header resolves to when it is not stored either. */
  lemma EmailSubjectFallsBackToHeader(src: Sources)
    requires IsNullOrEmpty(Stored(src, "TemperatureAlertEmailSubject")) && IsNullOrEmpty(Stored(src, "TemperatureAlertHeader"))
    requires IsNullOrEmpty(Stored(src, "MaskAlertEmailSubject")) && IsNullOrEmpty(Stored(src, "MaskAlertHeader"))
    ensures GetText(src, TemperatureAlertEmailSubject) == GetText(src, TemperatureAlertHeader) == Deployed(src, DefaultTemperatureAlertHeaderConfig)
    ensures GetText(src, MaskAlertEmailSubject) == GetText(src, MaskAlertHeader) == Deployed(src, DefaultMaskAlertHeaderConfig)
  {
  }

  // ---------------------------------------------------------------------------
  // The flags

  datatype FlagSetting =
    | SendAlertForTemperatureSMS | SendAlertForMaskSMS
    | SendAlertForTemperatureEmail | SendAlertForMaskEmail
  {
    function Key(): string
    {
      match this
      case SendAlertForTemperatureSMS => "SendSMSAlertForTemperature"
      case SendAlertForMaskSMS => "SendSMSAlertForMask"
      case SendAlertForTemperatureEmail => "SendEmailAlertForTemperature"
      case SendAlertForMaskEmail => "SendEmailAlertForMask"
    }

    function DefaultKey(): string
    {
      match this
      case SendAlertForTemperatureSMS => DefaultSendAlertForTemperatureSMSConfig
      case SendAlertForMaskSMS => DefaultSendAlertForMaskSMSConfig
      case SendAlertForTemperatureEmail => DefaultSendAlertForTemperatureEmailConfig
      case SendAlertForMaskEmail => DefaultSendAlertForMaskEmailConfig
    }
  }

  /** The effective string "0" is false, "1" is true, anything else (null included) is false. */
  function FlagValue(res: Option<string>): (b: bool)
    ensures b <==> res == Some("1")
  {
    if res == Some("0") then false
    else if res == Some("1") then true
    else false
  }

  /** GetSendAlertForTemperatureSMSEnabled, GetSendAlertForMaskSMSEnabled,
      GetSendAlertForTemperatureEmailEnabled and GetSendAlertForMaskEmailEnabled. */
  function GetFlag(src: Sources, setting: FlagSetting): (b: bool)
    ensures b <==> Resolve(src, setting.Key(), setting.DefaultKey()) == Some("1")
  {
    FlagValue(Resolve(src, setting.Key(), setting.DefaultKey()))
  }

  /** A stored non-empty flag decides alone: it is on exactly when it is "1", and
      a stored "yes" or "true" turns it off whatever the deployment says. */
  lemma StoredFlagDecides(src: Sources, setting: FlagSetting)
    requires setting.Key() in src.configurations && src.configurations[setting.Key()] != ""
    ensures GetFlag(src, setting) <==> src.configurations[setting.Key()] == "1"
  {
  }

  // ---------------------------------------------------------------------------
  // The threshold

  /** `decimal.TryParse(value, out d)` for a value that may be null: on failure d is 0. */
  function TryParse(value: Option<string>): (r: Option<Decimal>)
    ensures r.Some? <==> value.Some? && IsDecimalText(value.value)
  {
    if value.None? then None else ParseDecimal(value.value)
  }

  /** The stored threshold when it parses, else the parsed deployment default, else 0. */
  function GetTemperatureThreshold(src: Sources): (r: Decimal)
    ensures TryParse(Stored(src, "TemperatureThreshold")).Some? ==>
              r == TryParse(Stored(src, "TemperatureThreshold")).value
    ensures TryParse(Stored(src, "TemperatureThreshold")).None? && TryParse(Deployed(src, DefaultTemperatureThresholdConfig)).Some? ==>
              r == TryParse(Deployed(src, DefaultTemperatureThresholdConfig)).value
    ensures TryParse(Stored(src, "TemperatureThreshold")).None? && TryParse(Deployed(src, DefaultTemperatureThresholdConfig)).None? ==>
              r == Zero
  {
    match TryParse(Stored(src, "TemperatureThreshold"))
    case Some(d) => d
    case None =>
      match TryParse(Deployed(src, DefaultTemperatureThresholdConfig))
      case Some(d) => d
      case None => Zero
  }

  /** A stored threshold that is not a decimal is treated like a missing one. */
  lemma UnparseableThresholdFallsBack(c: map<string, string>, d: map<string, string>)
    requires "TemperatureThreshold" in c && !IsDecimalText(c["TemperatureThreshold"])
    ensures GetTemperatureThreshold(Sources(c, d)) == GetTemperatureThreshold(Sources(c - {"TemperatureThreshold"}, d))
  {
  }
}
