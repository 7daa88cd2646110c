/** The settings endpoints: reading the effective temperature threshold, and storing a new
    one, which also marks every device as needing the new threshold pushed to it. */
module Settings {
  import opened Common
  import opened Decimals
  import opened Entities
  import ConfigReader

  /** GetTemperatureThreshold: the effective threshold rendered with "#.#"; nothing in it
      can fail, so the response is always successful. */
  function GetTemperatureThresholdText(src: ConfigReader.Sources): (r: Response<OneDecimal>)
    ensures r.Successful?
    ensures var t := ConfigReader.GetTemperatureThreshold(src);
            && (r.payload.Blank? <==> RoundToTenths(t) == 0)
            && (r.payload.Shown? ==> r.payload.tenths == RoundToTenths(t))
  {
    Successful(RenderOneDecimal(ConfigReader.GetTemperatureThreshold(src)))
  }

  /** The effect of SetTemperatureThreshold on the Configurations table: a text that
      `decimal.TryParse` refuses, out of range included, gives "Invalid threshold value"
      before the table is read; a table without the threshold row fails on the null row;
      otherwise the row's value becomes the text exactly as received. */
  function SetThreshold(configurations: map<string, string>, received: string): (r: Response<map<string, string>>)
    ensures !r.Unhandled?
    ensures r.Successful? <==> IsDecimalText(received) && ConfigReader.TemperatureThresholdConfigSettingName in configurations
    ensures !IsDecimalText(received) ==> r == SystemError(InvalidThreshold)
    ensures IsDecimalText(received) && ConfigReader.TemperatureThresholdConfigSettingName !in configurations ==>
              r == SystemError(NullReference)
    ensures r.Successful? ==>
              && r.payload.Keys == configurations.Keys
              && r.payload[ConfigReader.TemperatureThresholdConfigSettingName] == received
              && forall k :: k in configurations && k != ConfigReader.TemperatureThresholdConfigSettingName ==>
                               r.payload[k] == configurations[k]
  {
    if ParseDecimal(received).None? then SystemError(InvalidThreshold)
    else if ConfigReader.TemperatureThresholdConfigSettingName !in configurations then SystemError(NullReference)
    else Successful(configurations[ConfigReader.TemperatureThresholdConfigSettingName := received])
  }

  /** The Devices table after the loop: every device marked as not yet updated, nothing else changed. */
  function ResetThresholdFlags(devices: seq<Device>): (r: seq<Device>)
    ensures |r| == |devices|
    ensures forall i :: 0 <= i < |r| ==> !r[i].updatedThreshold
    ensures forall i :: 0 <= i < |r| ==>
              r[i].deviceId == devices[i].deviceId && r[i].deviceDetails == devices[i].deviceDetails &&
              r[i].gateId == devices[i].gateId
  {
    seq(|devices|, i requires 0 <= i < |devices| => devices[i].(updatedThreshold := false))
  }

  /** The `foreach` over the Devices table, clearing UpdatedThreshold row by row. */
  method ResetDevices(devices: array<Device>)
    modifies devices
    ensures devices[..] == ResetThresholdFlags(old(devices[..]))
  {
    for i := 0 to devices.Length
      invariant forall j :: 0 <= j < i ==> devices[j] == old(devices[j]).(updatedThreshold := false)
      invariant forall j :: i <= j < devices.Length ==> devices[j] == old(devices[j])
    {
      devices[i] := devices[i].(updatedThreshold := false);
    }
    ghost var reset := ResetThresholdFlags(old(devices[..]));
    assert forall j :: 0 <= j < devices.Length ==> devices[..][j] == reset[j];
  }

  /** SetTemperatureThreshold: the Configurations table is returned updated, the Devices
      table is updated in place, device by device. On any failure neither table changes. */
  method SetTemperatureThreshold(configurations: map<string, string>, received: string, devices: array<Device>)
    returns (resp: Response<()>, newConfigurations: map<string, string>)
    modifies devices
    ensures resp.Successful? <==> SetThreshold(configurations, received).Successful?
    ensures resp.SystemError? ==> resp == SystemError(SetThreshold(configurations, received).message)
    ensures !resp.Unhandled?
    ensures resp.Successful? ==>
              newConfigurations == SetThreshold(configurations, received).payload &&
              devices[..] == ResetThresholdFlags(old(devices[..]))
    ensures !resp.Successful? ==> newConfigurations == configurations && devices[..] == old(devices[..])
  {
    if ParseDecimal(received).None? {
      return SystemError(InvalidThreshold), configurations;
    }
    if ConfigReader.TemperatureThresholdConfigSettingName !in configurations {
      return SystemError(NullReference), configurations;
    }
    newConfigurations := configurations[ConfigReader.TemperatureThresholdConfigSettingName := received];
    ResetDevices(devices);
    assert newConfigurations == SetThreshold(configurations, received).payload;
    resp := Successful(());
  }

  /** After a successful update the effective threshold is the decimal that was sent,
      whatever the deployment configuration holds. */
  lemma ThresholdRoundTrip(configurations: map<string, string>, deployment: map<string, string>, received: string)
    requires SetThreshold(configurations, received).Successful?
    ensures ConfigReader.GetTemperatureThreshold(ConfigReader.Sources(SetThreshold(configurations, received).payload, deployment))
            == ParseDecimal(received).value
  {
    var c := SetThreshold(configurations, received).payload;
    assert ConfigReader.Stored(ConfigReader.Sources(c, deployment), "TemperatureThreshold") == Some(received);
  }

  /** A threshold sent with one non-zero decimal digit is read back as that same value. */
  lemma {:induction false} ThresholdShownAsSent(configurations: map<string, string>, deployment: map<string, string>, received: string)
    requires SetThreshold(configurations, received).Successful?
    requires ParseDecimal(received).value.scale == 1 && ParseDecimal(received).value.mantissa != 0
    ensures var shown := GetTemperatureThresholdText(ConfigReader.Sources(SetThreshold(configurations, received).payload, deployment));
            ToDecimal(shown.payload) == ParseDecimal(received)
  {
    ThresholdRoundTrip(configurations, deployment, received);
    OneDecimalRoundTrip(ParseDecimal(received).value);
  }
}
