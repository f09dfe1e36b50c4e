# dLight integration for Home Assistant: a Dafny model

This project models the two pieces of logic in the dLight light integration.

**The device protocol client (dlight.py).** Every command gets a fresh number from a process-wide counter. The counter is bumped before any I/O. The command is stamped with the identifier `hass-<n>`, replacing the `checkStatus` placeholder the query builders put in. The client then opens a TCP connection to port 3333 and writes the JSON envelope. It reads a length prefix with `read(4)` and decodes it big-endian. The body is read only when `0 < L < 8192`; any other length is `WrongId`. The connection is closed in a `finally`. An `IOError` anywhere becomes `CannotConnect`. An EXECUTE envelope nests its action list as `"commands": {"commands": [...]}`. The list is ON first, then BRIGHTNESS when given, then COLOR.TEMPERATURE when given.

**The light entity (light.py).** It converts brightness between Home Assistant's 0-255 scale and the device's 0-100 scale. It converts colour temperature between mireds and Kelvin. It sets its `available`, `is_on`, `brightness` and `color_temp` fields from the device's replies.

Modules:
- `Wrappers` (wrappers.dfy): `Option`.
- `Rounding` (rounding.dfy): Python's `round` as exact half-to-even rounding of a rational, with its defining property and its uniqueness.
- `Protocol` (protocol.dfy): dlight.py. The module-level counter is the field `commandSeqNumber` of the class `Client`, and a ghost `issued` records every number stamped. The transport is the class `Connection`, which has a ghost `closed` flag. The device at the other end is a `Device` value: the bytes it sends back and the set of transport operations that raise `IOError`. `read(n)` returns any non-empty prefix of at most `n` bytes of what remains, and an empty one only at end of stream.
- `Light` (light.py): the conversion functions, the mired limits, and the class `Dlight`.

Facts about the code that the model keeps:
- The length prefix is read with `read(4)`, which may return fewer than four bytes. The code then decodes whatever bytes came back. A short read gives a length no larger than the full one, and an empty read gives 0, which is `WrongId`. Among replies of at least four bytes, only one starting with four zero bytes is sure to end in `WrongId`; a shorter reply is sure to only when all its bytes are zero, the empty reply included.
- Brightness and colour temperature are converted in light.py. The client passes them on unchanged.
- Mireds become Kelvin with `round(10^6 / m, -2)`, the nearest multiple of 100. So 170 mireds become 5900 K.
- The writer is closed in a `finally` that starts after the write (dlight.py:48). If the write or drain raises, the connection stays unclosed. `Protocol.Client.Sent` states this: the connection is closed exactly when the write succeeded.
- Device scale to Home Assistant scale and back is exact for every device brightness 0-100.
- The colour limits 2600 K and 6000 K come back unchanged from mireds to Kelvin.

## Model

| member | source | states |
|---|---|---|
| Protocol.ExecuteRequest | dlight.py:29-35 | the envelope is an EXECUTE for the device, with no identifier yet, and its action list nested in a `commands` object is ON(on), then BRIGHTNESS exactly when a brightness is given, then COLOR.TEMPERATURE exactly when a temperature is given, values unchanged |
| Protocol.ActionListDetermined | dlight.py:30-34 | the arguments determine the action list completely |
| Protocol.ActionListContents | dlight.py:30-34 | ON appears once and first; a BRIGHTNESS action appears if and only if a brightness was given (0 included) and carries it; a COLOR action appears if and only if a temperature was given and carries it; the order is always ON, BRIGHTNESS, COLOR |
| Protocol.DeviceInfoRequest | dlight.py:12 | the QUERY_DEVICE_INFO envelope for the device, with no action list and the `checkStatus` placeholder as identifier |
| Protocol.DeviceStatesRequest | dlight.py:15 | the QUERY_DEVICE_STATES envelope for the device, with no action list and the `checkStatus` placeholder as identifier |
| Protocol.NatToString | dlight.py:40 | the decimal rendering of the counter is a non-empty string of digits |
| Protocol.ParseNatToString | dlight.py:40 | reading the digits back gives the number, so the rendering loses nothing |
| Protocol.CommandId | dlight.py:40 | the identifier is `hass-` followed by decimal digits only |
| Protocol.PlaceholderNeverStamped | dlight.py:12-40 | no stamped identifier equals the `checkStatus` placeholder, so the placeholder is never sent |
| Protocol.CommandIdInjective | dlight.py:40 | two numbers with the same `hass-<n>` identifier are equal |
| Protocol.IdsNeverReused | dlight.py:38-40 | the numbers the counter hands out, 1, 2, 3, ..., are strictly increasing, and no two commands get the same identifier |
| Protocol.BigEndian | dlight.py:49 | the big-endian value of k bytes is below 256^k |
| Protocol.BigEndianRoundTrip | dlight.py:49 | decoding a k-byte big-endian encoding of n gives n back |
| Protocol.LengthPrefixBound | dlight.py:49 | a length read with `read(4)` is below 2^32, and an empty read decodes to 0 |
| Protocol.ExchangeResult | dlight.py:48-62 | any IOError, including one while closing, gives CannotConnect; without one, WrongId exactly when the length is outside (0, 8192), DecodeError exactly when the length is in range and the body does not decode, and otherwise the decoded body |
| Protocol.FramingCheck | dlight.py:50-55 | without an IOError, the outcome is WrongId exactly when the length is outside (0, 8192), and it is never CannotConnect |
| Protocol.OutOfRangeLengths | dlight.py:49-55 | when `read(4)` returns all four bytes, length prefixes 0, 8192 and 0xFFFFFFFF end in WrongId; an empty read does too |
| Protocol.BigEndianZeros | dlight.py:49 | any number of zero bytes decodes to length 0 |
| Protocol.ShortLengthRead | dlight.py:49-51 | a short first read is allowed and changes the length: the prefix 0xFFFFFFFF read as one byte gives 255 and no WrongId, and the prefix 8192 read as three bytes gives 32 |
| Protocol.Connection.Open | dlight.py:44 | a new connection has nothing written, the device's bytes waiting, and is open |
| Protocol.OpenConnection | dlight.py:44 | connecting fails exactly when the device refuses; otherwise the result is a fresh open connection to the given host and port |
| Protocol.Connection.Write | dlight.py:45-46 | a write either appends all the data to what was sent or raises, leaving it unchanged |
| Protocol.Connection.Read | dlight.py:49-51 | a read either raises or returns at most n bytes from the front of the stream, empty only at end of stream, and consumes exactly those |
| Protocol.Connection.Close | dlight.py:57-58 | the connection ends up closed even when waiting for the close raises |
| Protocol.ReceiveReply | dlight.py:48-58 | after a successful write, the connection is closed on every path; the length bytes and the body are exactly the bytes the reads took from the front of the stream, and nothing else is consumed; unless a read raises, the reads follow the framing (a failing close does not change what was read); the outcome is the one ExchangeResult gives, so an IOError while closing replaces a pending WrongId |
| Protocol.Client.constructor | dlight.py:9 | the counter starts at 0 with nothing issued |
| Protocol.Client.SendCommand | dlight.py:37-62 | the counter goes up by exactly one on every path, including a failed connect; the request sent is the caller's with its identifier replaced by `hass-<n>`; it connects to ip:3333; the connection is closed exactly when the write succeeded; a failed write leaves the connection untouched, with nothing sent and nothing read; the payload is the encoded stamped request; after a successful write the length bytes and body are what the reads consumed from the device's reply; any IOError gives CannotConnect; otherwise a bad length gives WrongId and a body that does not decode gives DecodeError |
| Protocol.Client.ZeroLengthReplyIsWrongId | dlight.py:49-58 | with no fault, a reply whose first four bytes are zero, or a shorter reply all of whose bytes are zero (the empty reply included), ends in WrongId with the connection closed, however many of those bytes the first read returns |
| Protocol.SendTwice | dlight.py:37-40 | two commands sent one after the other through the same client are numbered n+1 and n+2; the first is sent as `first` stamped `hass-<n+1>`, the second as `second` stamped `hass-<n+2>`, and the two identifiers differ |
| Protocol.Client.GetDeviceInfo | dlight.py:11-12 | sends a QUERY_DEVICE_INFO for the device, whose `checkStatus` placeholder is replaced by the stamped identifier |
| Protocol.Client.GetDeviceStates | dlight.py:14-15 | sends a QUERY_DEVICE_STATES for the device, whose `checkStatus` placeholder is replaced by the stamped identifier |
| Protocol.Client.TurnOnOff | dlight.py:29-35 | sends the EXECUTE envelope of ExecuteRequest, stamped |
| Protocol.Client.TurnOn | dlight.py:23-24 | sends an EXECUTE whose actions are ON(true) followed by the given brightness and temperature |
| Protocol.Client.TurnOff | dlight.py:26-27 | sends an EXECUTE whose `commands` object holds exactly `[{"ON": false}]` |
| Rounding.RoundHalfEven | light.py:44 | `round(n / d)` is an integer nearest to n / d, and an even one when n / d is half-way |
| Rounding.HalfEvenRoundingUnique | light.py:49 | any integer that meets that definition is the value `round` returns |
| Light.BrightnessToDevice | light.py:41-44 | None stays None; otherwise the result is the rounding of 100b/255, and [0,255] maps into [0,100] |
| Light.BrightnessToHass | light.py:46-49 | None stays None; otherwise the result is the rounding of 255b/100, and [0,100] maps into [0,255] |
| Light.BrightnessToDeviceNeverTies | light.py:44 | 100b/255 is never half-way between two integers |
| Light.DeviceScaleRoundTrip | light.py:41-49 | `brightness_to_device(brightness_to_hass(d)) == d` for every d in [0,100] |
| Light.HassScaleRoundTrip | light.py:41-49 | `brightness_to_hass(brightness_to_device(b))` is within one of b for every b in [0,255] |
| Light.BrightnessExamples | light.py:41-49 | 0→0, 128→50 and 255→100 to the device; 10→26, 30→76, 50→128 and 100→255 to Home Assistant, with ties to even |
| Light.MinMireds | light.py:55 | the minimum mired value is 167 |
| Light.MaxMireds | light.py:56 | the maximum mired value is 385 |
| Light.KelvinToMireds | light.py:114-116 | the reported mireds are the rounding of 10^6 / k, and a temperature in 2600-6000 K lands in [167, 385] |
| Light.MiredsToKelvin | light.py:127-128 | the temperature sent is a multiple of 100 and the half-even rounding of 10^6 / m to hundreds, and every mired value in [167, 385] gives a temperature in 2600-6000 K |
| Light.KelvinRoundTripAtLimits | light.py:114-128 | 2600 K and 6000 K, turned into mireds and back into Kelvin, come back unchanged |
| Light.ColorTemperatureExamples | light.py:114-128 | 250→4000 K, 170→5900 K and 800→1200 K (a tie, to even), and 3200 K→312 mireds (a tie, to even) |
| Light.SentTemperature | light.py:126-128 | a temperature is sent exactly when a colour was requested; it is a multiple of 100, the half-even rounding of 10^6 / m to hundreds, and in 2600-6000 K for mireds in [167, 385] |
| Light.TurnOnExample | light.py:122-130 | a turn-on with brightness 128 and 250 mireds sends exactly ON(true), BRIGHTNESS 50, COLOR 4000 K, in that order |
| Light.Succeeded | light.py:92-102 | a query counts as successful exactly when it did not raise and its status is `SUCCESS`; `Light.Dlight.Update` states what follows from it |
| Light.Dlight.constructor | light.py:65-76 | a new entity keeps its address, device id and versions, is available, and knows nothing of the light's state |
| Light.Dlight.Update | light.py:91-118 | a failed query or a status other than SUCCESS makes the entity unavailable and leaves the rest unchanged; on success it is available; with no `states` all three fields become None; otherwise `is_on` is the reported `on`, `brightness` is the reported brightness on Home Assistant's scale, and `color_temp` is the rounded mireds of the reported temperature or None, with a zero temperature raising and leaving `color_temp` unchanged |
| Light.Dlight.TurnOn | light.py:120-135 | the request carries the brightness converted to the device scale only if one was given, and the rounded Kelvin only if a colour was given; a zero colour raises before anything is sent; `is_on` and `brightness` change only to non-None reply values; `color_temp` and `available` never change |
| Light.Dlight.TurnOff | light.py:137-142 | the request is an EXECUTE with exactly `[{"ON": false}]`; only `is_on` can change, and only to a non-None reply value |

## Left out

- Sockets and asyncio (`open_connection`, `write`/`drain`, `wait_closed`) are replaced by the `Connection` class over a `Device` value. Suspension points, cancellation and timeouts are not modelled. The source defines no timeout.
- Concurrency: the counter is updated sequentially. There is no `await` between the increment at dlight.py:39 and the stamp at dlight.py:40, so on asyncio's single-threaded event loop no other task can run between them, and the sequential model of the counter is exact. Interleaving of whole commands at their `await` points is not modelled.
- `json.dumps` with UTF-8 encoding, and UTF-8 decoding with `json.loads`, are foreign code. They enter as the function constants `Client.encode` and `Client.parse`. The model fixes no byte layout or key order for the request.
- Protocol.Client.SendCommand: UTF-8 decoding happens at dlight.py:52, inside the inner `try` and before the `finally` at dlight.py:56-58 closes the connection; `json.loads` runs at dlight.py:62, after the outer `try`. Both are one `parse`, applied before the close; an IOError from the close replaces its outcome. The outcome is the same in both orders: a failing close yields CannotConnect whether or not decoding failed, and otherwise a body that does not decode yields DecodeError.
- Protocol.Device: a read fault makes the first read raise. A fault on the second read alone is not a separate case, because it has the same outcome (CannotConnect, connection closed).
- Logging (`_LOGGER`) is left out.
- Floating point: every `round` is exact rational half-to-even rounding. `round(x, -2)` at light.py:128 returns a float, so the wire value is e.g. `4000.0`. The model sends the integer 4000. JSON numbers in replies are integers here.
- Light.Dlight.Update: the reply arrives as a typed `StatesReply`, where a missing or null key is None, `on` is a bool and numbers are integers. In the source a wrongly typed `on` is stored unchanged (light.py:112, 132, 141), and a non-integer brightness or temperature that is still a number is converted as a float. What raises there, and is not modelled, is a reply, `states` or `color` that is not an object (including `"color": null`) and a brightness or temperature that is not a number.
- Light.Dlight.TurnOn: the reply of `turn_on` is a parameter, not a call into `Protocol.Client`. The link to the client is the request that the method returns.
- Light.Dlight.TurnOff: the reply of `turn_off` is a parameter, as for TurnOn.
- Light.Dlight.Update, Light.Dlight.TurnOn, Light.Dlight.TurnOff: the request they stand for is returned without the address `ip` it goes to; the field `Dlight.ip` is kept but the model does not connect it to `Protocol.Client`.
- `async_setup_entry`, the `device_info` property, `PLATFORM_SCHEMA` and entity registration are Home Assistant glue. They are not part of this model.
- config_flow.py only maps the client's exceptions to form error keys. test.py is a standalone script that repeats the framing check. Neither is part of this model.
