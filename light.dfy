/** The Home Assistant light entity of light.py: the brightness scale
    conversions, the colour-temperature range in mireds, and how the entity's
    state fields follow the device's replies. */
module Light {
  import opened Wrappers
  import opened Rounding
  import Protocol

  // ---------------------------------------------------------------------
  // Scale conversions

  /** `brightness_to_device`: Home Assistant's 0-255 scale to the device's
      0-100 scale, `round(100 * b / 255)`; None stays None. */
  function BrightnessToDevice(brightness: Option<int>): (r: Option<int>)
    ensures r.Some? <==> brightness.Some?
    ensures brightness.Some? ==> IsHalfEvenRounding(100 * brightness.value, 255, r.value)
    ensures brightness.Some? && 0 <= brightness.value <= 255 ==> 0 <= r.value <= 100
  {
    if brightness.None? then None
    else Some(RoundHalfEven(100 * brightness.value, 255))
  }

  /** `brightness_to_hass`: the device's 0-100 scale to Home Assistant's 0-255
      scale, `round(255 * b / 100)`; None stays None. */
  function BrightnessToHass(brightness: Option<int>): (r: Option<int>)
    ensures r.Some? <==> brightness.Some?
    ensures brightness.Some? ==> IsHalfEvenRounding(255 * brightness.value, 100, r.value)
    ensures brightness.Some? && 0 <= brightness.value <= 100 ==> 0 <= r.value <= 255
  {
    if brightness.None? then None
    else Some(RoundHalfEven(255 * brightness.value, 100))
  }

  /** 100 * b / 255 is never half-way between two integers, so the device
      brightness never depends on the tie rule. */
  lemma BrightnessToDeviceNeverTies(b: int)
    ensures 2 * Abs(100 * b - BrightnessToDevice(Some(b)).value * 255) < 255
  {
  }

  /** Device scale to Home Assistant and back gives the same value. */
  lemma DeviceScaleRoundTrip(d: int)
    requires 0 <= d <= 100
    ensures BrightnessToDevice(BrightnessToHass(Some(d))) == Some(d)
  {
    var h := BrightnessToHass(Some(d)).value;
    assert 2 * Abs(255 * d - h * 100) <= 100;
    RoundsTo(100 * h, 255, d);
  }

  /** Home Assistant scale to the device and back is off by at most one. */
  lemma HassScaleRoundTrip(b: int)
    requires 0 <= b <= 255
    ensures var h := BrightnessToHass(BrightnessToDevice(Some(b))).value;
      b - 1 <= h <= b + 1
  {
    var d := BrightnessToDevice(Some(b)).value;
    var h := BrightnessToHass(Some(d)).value;
    assert 2 * Abs(100 * b - d * 255) <= 255;
    assert 2 * Abs(255 * d - h * 100) <= 100;
  }

  lemma BrightnessExamples()
    ensures BrightnessToDevice(Some(0)) == Some(0)
    ensures BrightnessToDevice(Some(128)) == Some(50)
    ensures BrightnessToDevice(Some(255)) == Some(100)
    ensures BrightnessToHass(Some(10)) == Some(26)
    ensures BrightnessToHass(Some(30)) == Some(76)
    ensures BrightnessToHass(Some(50)) == Some(128)
    ensures BrightnessToHass(Some(100)) == Some(255)
  {
    RoundsTo(0, 255, 0);
    RoundsTo(12800, 255, 50);
    RoundsTo(25500, 255, 100);
    HalfEvenRoundingUnique(2550, 100, 26);
    HalfEvenRoundingUnique(7650, 100, 76);
    HalfEvenRoundingUnique(12750, 100, 128);
    RoundsTo(25500, 100, 255);
  }

  // ---------------------------------------------------------------------
  // Colour temperature

  /** The device supports 2600 K to 6000 K. */
  const MinKelvin := 2600
  const MaxKelvin := 6000

  /** `_attr_min_mireds`: the coolest supported colour, round(10^6 / 6000). */
  function MinMireds(): (m: int)
    ensures m == 167
  {
    RoundHalfEven(1000000, MaxKelvin)
  }

  /** `_attr_max_mireds`: the warmest supported colour, round(10^6 / 2600). */
  function MaxMireds(): (m: int)
    ensures m == 385
  {
    RoundHalfEven(1000000, MinKelvin)
  }

  /** A reported temperature in Kelvin to mireds, `round(1000000 / k)`. */
  function KelvinToMireds(k: int): (m: int)
    requires k != 0
    ensures IsHalfEvenRounding(1000000, k, m)
    ensures MinKelvin <= k <= MaxKelvin ==> MinMireds() <= m <= MaxMireds()
  {
    var m := RoundHalfEven(1000000, k);
    assert MinKelvin <= k <= MaxKelvin ==> 167 <= m <= 385 by {
      if MinKelvin <= k <= MaxKelvin {
        RoundedBetween(1000000, k, 167, 385);
      }
    }
    m
  }

  /** A requested colour in mireds to the Kelvin value sent to the device,
      `round(1000000 / m, -2)`: the nearest multiple of 100, ties to an even
      number of hundreds. */
  function MiredsToKelvin(m: int): (k: int)
    requires m != 0
    ensures k % 100 == 0 && IsHalfEvenRounding(1000000, 100 * m, k / 100)
    ensures MinMireds() <= m <= MaxMireds() ==> MinKelvin <= k <= MaxKelvin
  {
    var h := RoundHalfEven(1000000, 100 * m);
    assert MinMireds() <= m <= MaxMireds() ==> 26 <= h <= 60 by {
      if 167 <= m <= 385 {
        RoundedBetween(1000000, 100 * m, 26, 60);
      }
    }
    100 * h
  }

  lemma ColorTemperatureExamples()
    ensures MiredsToKelvin(250) == 4000
    ensures MiredsToKelvin(170) == 5900
    ensures MiredsToKelvin(800) == 1200
    ensures KelvinToMireds(3200) == 312
  {
    RoundsTo(1000000, 25000, 40);
    RoundsTo(1000000, 17000, 59);
    HalfEvenRoundingUnique(1000000, 80000, 12);
    HalfEvenRoundingUnique(1000000, 3200, 312);
  }

  /** The limits survive the trip to the device and back: the mireds of
      2600 K and 6000 K convert back to exactly 2600 K and 6000 K. */
  lemma KelvinRoundTripAtLimits()
    ensures MiredsToKelvin(KelvinToMireds(MinKelvin)) == MinKelvin
    ensures MiredsToKelvin(KelvinToMireds(MaxKelvin)) == MaxKelvin
  {
    RoundsTo(1000000, 2600, 385);
    RoundsTo(1000000, 6000, 167);
    RoundsTo(1000000, 38500, 26);
    RoundsTo(1000000, 16700, 60);
  }

  /** The temperature argument `async_turn_on` passes on: only when a colour
      was requested. */
  function SentTemperature(colorTemp: Option<int>): (t: Option<int>)
    requires colorTemp != Some(0)
    ensures t.Some? <==> colorTemp.Some?
    ensures t.Some? ==>
              t.value % 100 == 0 && IsHalfEvenRounding(1000000, 100 * colorTemp.value, t.value / 100)
    ensures t.Some? && MinMireds() <= colorTemp.value <= MaxMireds() ==> MinKelvin <= t.value <= MaxKelvin
  {
    if colorTemp.None? then None else Some(MiredsToKelvin(colorTemp.value))
  }

  /** A turn-on request with brightness 128 and colour 250 mireds carries
      exactly ON, BRIGHTNESS 50 and COLOR 4000 K, in that order. */
  lemma TurnOnExample(req: Protocol.Request, deviceId: string)
    requires Protocol.IsExecute(req, deviceId, true, BrightnessToDevice(Some(128)), SentTemperature(Some(250)))
    ensures req.commands.value.commands ==
      [Protocol.On(true), Protocol.Brightness(50), Protocol.ColorTemperature(4000)]
  {
    BrightnessExamples();
    ColorTemperatureExamples();
    Protocol.ActionListDetermined(req.commands.value.commands,
      [Protocol.On(true), Protocol.Brightness(50), Protocol.ColorTemperature(4000)],
      true, Some(50), Some(4000));
  }

  // ---------------------------------------------------------------------
  // The entity

  /** The "states" object of a QUERY_DEVICE_STATES reply; a key that is
      missing or null reads as None, and `temperature` is the one nested under
      "color". */
  datatype DeviceStates = DeviceStates(on: Option<bool>, brightness: Option<int>, temperature: Option<int>)

  /** A QUERY_DEVICE_STATES reply: its "status" and its "states". */
  datatype StatesReply = StatesReply(status: Option<string>, states: Option<DeviceStates>)

  /** An EXECUTE reply: its "on" and "brightness". */
  datatype ExecReply = ExecReply(on: Option<bool>, brightness: Option<int>)

  /** A states query that returned a reply whose status is "SUCCESS". None
      stands for a query that raised. */
  predicate Succeeded(reply: Option<StatesReply>)
  {
    reply.Some? && reply.value.status == Some("SUCCESS")
  }

  /** The `Dlight` entity: where to reach the device, and the state fields
      Home Assistant shows. */
  class Dlight {
    const ip: string
    const deviceId: string
    const swVersion: string
    const hwVersion: string
    const model: string
    var available: bool
    var isOn: Option<bool>
    var brightness: Option<int>
    var colorTemp: Option<int>

    /** A new entity starts with Home Assistant's defaults: available, and
        nothing known about the light. */
    constructor (ip: string, deviceId: string, swVersion: string, hwVersion: string, model: string)
      ensures this.ip == ip && this.deviceId == deviceId
      ensures this.swVersion == swVersion && this.hwVersion == hwVersion && this.model == model
      ensures available && isOn.None? && brightness.None? && colorTemp.None?
    {
      this.ip, this.deviceId := ip, deviceId;
      this.swVersion, this.hwVersion, this.model := swVersion, hwVersion, model;
      available := true;
      isOn, brightness, colorTemp := None, None, None;
    }

    /** `async_update`, given what the states query produced. `raised` tells
        that a zero temperature made the division raise, after the other
        fields were already set. */
    method Update(reply: Option<StatesReply>) returns (raised: bool)
      modifies this
      ensures !Succeeded(reply) ==>
        !available && !raised &&
        isOn == old(isOn) && brightness == old(brightness) && colorTemp == old(colorTemp)
      ensures Succeeded(reply) && reply.value.states.None? ==>
        available && !raised && isOn.None? && brightness.None? && colorTemp.None?
      ensures Succeeded(reply) && reply.value.states.Some? ==>
        var s := reply.value.states.value;
        available && isOn == s.on && brightness == BrightnessToHass(s.brightness) &&
        (raised <==> s.temperature == Some(0)) &&
        colorTemp == if s.temperature.None? then None
                     else if s.temperature.value == 0 then old(colorTemp)
                     else Some(KelvinToMireds(s.temperature.value))
    {
      raised := false;
      if reply.None? {
        available := false;
        return;
      }
      var state := reply.value;
      if state.status != Some("SUCCESS") {
        available := false;
        return;
      }
      available := true;
      if state.states.None? {
        isOn, brightness, colorTemp := None, None, None;
      } else {
        var states := state.states.value;
        isOn := states.on;
        brightness := BrightnessToHass(states.brightness);
        if states.temperature.Some? {
          if states.temperature.value == 0 {
            raised := true;
            return;
          }
          colorTemp := Some(KelvinToMireds(states.temperature.value));
        } else {
          colorTemp := None;
        }
      }
    }

    /** `async_turn_on`, given what `turn_on` returned (None: it raised).
        Returns the request handed to `turn_on`, or None when a zero colour
        made the conversion raise first. */
    method TurnOn(brightnessArg: Option<int>, colorTempArg: Option<int>, reply: Option<ExecReply>)
      returns (sent: Option<Protocol.Request>, raised: bool)
      modifies this
      ensures available == old(available) && colorTemp == old(colorTemp)
      ensures colorTempArg == Some(0) ==>
        sent.None? && raised && isOn == old(isOn) && brightness == old(brightness)
      ensures colorTempArg != Some(0) ==>
        sent.Some? &&
        Protocol.IsExecute(sent.value, deviceId, true, BrightnessToDevice(brightnessArg), SentTemperature(colorTempArg)) &&
        (raised <==> reply.None?) &&
        isOn == (if reply.Some? && reply.value.on.Some? then reply.value.on else old(isOn)) &&
        brightness == (if reply.Some? && reply.value.brightness.Some?
                       then BrightnessToHass(reply.value.brightness) else old(brightness))
    {
      var level: Option<int> := None;
      if brightnessArg.Some? {
        level := BrightnessToDevice(brightnessArg);
      }
      var temperature: Option<int> := None;
      if colorTempArg.Some? {
        if colorTempArg.value == 0 {
          return None, true;
        }
        temperature := Some(MiredsToKelvin(colorTempArg.value));
      }
      var req := Protocol.ExecuteRequest(deviceId, true, level, temperature);
      sent, raised := Some(req), reply.None?;
      if reply.Some? {
        var status := reply.value;
        if status.on.Some? {
          isOn := status.on;
        }
        if status.brightness.Some? {
          brightness := BrightnessToHass(status.brightness);
        }
      }
    }

    /** `async_turn_off`, given what `turn_off` returned (None: it raised).
        Returns the request handed to `turn_off`; only `isOn` can change. */
    method TurnOff(reply: Option<ExecReply>) returns (sent: Protocol.Request, raised: bool)
      modifies this
      ensures sent == Protocol.Request(None, deviceId, Protocol.Execute,
                                       Some(Protocol.CommandList([Protocol.On(false)])))
      ensures raised <==> reply.None?
      ensures available == old(available) && brightness == old(brightness) && colorTemp == old(colorTemp)
      ensures isOn == if reply.Some? && reply.value.on.Some? then reply.value.on else old(isOn)
    {
      sent := Protocol.ExecuteRequest(deviceId, false, None, None);
      Protocol.ActionListDetermined(sent.commands.value.commands, [Protocol.On(false)], false, None, None);
      raised := reply.None?;
      if reply.Some? && reply.value.on.Some? {
        isOn := reply.value.on;
      }
    }
  }
}
