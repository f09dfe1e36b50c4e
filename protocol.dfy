/** The dLight device protocol client (dlight.py): command envelopes, the
    process-wide command counter and its "hass-<n>" identifiers, and the
    length-prefixed reply framing read over a fresh TCP connection per command. */
module Protocol {
  import opened Wrappers

  newtype byte = x: int | 0 <= x < 256

  /** The TCP port every device listens on. */
  const Port := 3333

  /** A reply length must lie strictly between 0 and this bound. */
  const MaxReplyLength := 8192

  // ---------------------------------------------------------------------
  // Command envelopes

  datatype CommandType = QueryDeviceInfo | QueryDeviceStates | Execute

  /** One element of an EXECUTE action list: `{"ON": b}`, `{"BRIGHTNESS": v}`
      or `{"COLOR": {"TEMPERATURE": t}}`. */
  datatype Action = On(on: bool) | Brightness(level: int) | ColorTemperature(kelvin: int)

  /** The value under the envelope's "commands" key: an object that holds the
      action list under a second "commands" key, not a bare list. */
  datatype CommandList = CommandList(commands: seq<Action>)

  /** The dictionary handed to the sender. `commandId` is None when the builder
      did not set one. */
  datatype Request = Request(commandId: Option<string>, deviceId: string,
                             commandType: CommandType, commands: Option<CommandList>)

  /** A decoded JSON reply, as produced by the JSON codec. */
  datatype Json = Null | Bool(b: bool) | Num(n: int) | Str(s: string)
                | Arr(items: seq<Json>) | Obj(fields: map<string, Json>)

  /** What a command call ends in: the decoded reply, or one of the two
      classified failures, or a reply body that does not decode as UTF-8 JSON
      (which the source lets escape unclassified). */
  datatype Reply = Ok(body: Json) | CannotConnect | WrongId | DecodeError

  /** The identifier the builders of the two queries put in, which the sender
      always overwrites. */
  const PlaceholderId := "checkStatus"

  /** `get_device_info`'s envelope, before the sender stamps it. */
  function DeviceInfoRequest(deviceId: string): (req: Request)
    ensures req.commandType == QueryDeviceInfo && req.deviceId == deviceId
    ensures req.commands.None? && req.commandId == Some(PlaceholderId)
  {
    Request(Some(PlaceholderId), deviceId, QueryDeviceInfo, None)
  }

  /** `get_device_states`'s envelope, before the sender stamps it. */
  function DeviceStatesRequest(deviceId: string): (req: Request)
    ensures req.commandType == QueryDeviceStates && req.deviceId == deviceId
    ensures req.commands.None? && req.commandId == Some(PlaceholderId)
  {
    Request(Some(PlaceholderId), deviceId, QueryDeviceStates, None)
  }

  function Count(x: Option<int>): nat
  {
    if x.Some? then 1 else 0
  }

  /** The action list of an EXECUTE command: ON first, then BRIGHTNESS exactly
      when a brightness is given, then the colour temperature exactly when one
      is given, each carrying its value unchanged. */
  predicate IsActionList(acts: seq<Action>, on: bool, brightness: Option<int>, temperature: Option<int>)
  {
    |acts| == 1 + Count(brightness) + Count(temperature) &&
    acts[0] == On(on) &&
    (brightness.Some? ==> acts[1] == Brightness(brightness.value)) &&
    (temperature.Some? ==> acts[|acts| - 1] == ColorTemperature(temperature.value))
  }

  /** An EXECUTE envelope as built for the sender, before it is numbered. */
  predicate IsExecute(req: Request, deviceId: string, on: bool, brightness: Option<int>, temperature: Option<int>)
  {
    req.commandId.None? && req.deviceId == deviceId && req.commandType == Execute &&
    req.commands.Some? && IsActionList(req.commands.value.commands, on, brightness, temperature)
  }

  /** The order ON < BRIGHTNESS < COLOR in which actions appear. */
  function Rank(a: Action): nat
  {
    match a
    case On(_) => 0
    case Brightness(_) => 1
    case ColorTemperature(_) => 2
  }

  /** The envelope that `_turn_on_off` builds by appending to a one-element list. */
  method ExecuteRequest(deviceId: string, on: bool, brightness: Option<int>, temperature: Option<int>)
    returns (req: Request)
    ensures IsExecute(req, deviceId, on, brightness, temperature)
  {
    var commands := [On(on)];
    if brightness.Some? {
      commands := commands + [Brightness(brightness.value)];
    }
    if temperature.Some? {
      commands := commands + [ColorTemperature(temperature.value)];
    }
    req := Request(None, deviceId, Execute, Some(CommandList(commands)));
  }

  /** The arguments determine the action list completely. */
  lemma ActionListDetermined(a1: seq<Action>, a2: seq<Action>, on: bool, brightness: Option<int>, temperature: Option<int>)
    requires IsActionList(a1, on, brightness, temperature)
    requires IsActionList(a2, on, brightness, temperature)
    ensures a1 == a2
  {
    assert |a1| == |a2|;
    forall i | 0 <= i < |a1|
      ensures a1[i] == a2[i]
    {
      if i == 0 {
      } else if i == 1 && brightness.Some? {
      } else {
        assert i == |a1| - 1 && temperature.Some?;
      }
    }
  }

  /** What an action list holds: ON exactly once and first, BRIGHTNESS if and
      only if a brightness was given (zero included), the colour temperature if
      and only if one was given, values unchanged, and always in the order
      ON, BRIGHTNESS, COLOR. */
  lemma ActionListContents(acts: seq<Action>, on: bool, brightness: Option<int>, temperature: Option<int>)
    requires IsActionList(acts, on, brightness, temperature)
    ensures forall i | 0 <= i < |acts| :: acts[i].On? <==> i == 0
    ensures acts[0] == On(on)
    ensures (exists i :: 0 <= i < |acts| && acts[i].Brightness?) <==> brightness.Some?
    ensures forall i | 0 <= i < |acts| :: acts[i].Brightness? ==> acts[i] == Brightness(brightness.value)
    ensures (exists i :: 0 <= i < |acts| && acts[i].ColorTemperature?) <==> temperature.Some?
    ensures forall i | 0 <= i < |acts| :: acts[i].ColorTemperature? ==> acts[i] == ColorTemperature(temperature.value)
    ensures forall i, j | 0 <= i < j < |acts| :: Rank(acts[i]) < Rank(acts[j])
  {
    forall i | 0 <= i < |acts|
      ensures Rank(acts[i]) == if i == 0 then 0 else if i == 1 && brightness.Some? then 1 else 2
      ensures acts[i].Brightness? ==> brightness.Some? && acts[i] == Brightness(brightness.value)
      ensures acts[i].ColorTemperature? ==> temperature.Some? && acts[i] == ColorTemperature(temperature.value)
    {
      if i == 0 {
      } else if i == 1 && brightness.Some? {
      } else {
        assert i == |acts| - 1 && temperature.Some?;
      }
    }
    if brightness.Some? {
      assert acts[1].Brightness?;
    }
    if temperature.Some? {
      assert acts[|acts| - 1].ColorTemperature?;
    }
  }

  // ---------------------------------------------------------------------
  // Command identifiers "hass-<n>"

  function DigitChar(d: nat): char
    requires d < 10
  {
    "0123456789"[d]
  }

  predicate IsDigit(c: char)
  {
    '0' <= c <= '9'
  }

  function DigitValue(c: char): nat
    requires IsDigit(c)
  {
    c as int - '0' as int
  }

  /** Decimal notation of n, as Python's f-string prints an int. */
  function NatToString(n: nat): (s: string)
    ensures |s| >= 1
    ensures forall i | 0 <= i < |s| :: IsDigit(s[i])
  {
    if n < 10 then [DigitChar(n)]
    else NatToString(n / 10) + [DigitChar(n % 10)]
  }

  /** The value of a string of decimal digits; the inverse of NatToString. */
  function ParseDecimal(s: string): nat
    requires forall i | 0 <= i < |s| :: IsDigit(s[i])
  {
    if s == [] then 0
    else 10 * ParseDecimal(s[..|s| - 1]) + DigitValue(s[|s| - 1])
  }

  lemma {:induction false} ParseNatToString(n: nat)
    ensures ParseDecimal(NatToString(n)) == n
  {
    var s := NatToString(n);
    if n >= 10 {
      ParseNatToString(n / 10);
      assert s[..|s| - 1] == NatToString(n / 10);
    }
  }

  /** The identifier the sender stamps on its n-th command. */
  function CommandId(n: nat): (id: string)
    ensures |id| > 5 && id[..5] == "hass-"
    ensures forall i | 5 <= i < |id| :: IsDigit(id[i])
  {
    "hass-" + NatToString(n)
  }

  /** Distinct numbers give distinct identifiers. */
  lemma CommandIdInjective(a: nat, b: nat)
    requires CommandId(a) == CommandId(b)
    ensures a == b
  {
    assert CommandId(a)[5..] == NatToString(a);
    assert CommandId(b)[5..] == NatToString(b);
    ParseNatToString(a);
    ParseNatToString(b);
  }

  /** The placeholder never survives stamping: no stamped identifier equals it. */
  lemma PlaceholderNeverStamped(n: nat)
    ensures CommandId(n) != PlaceholderId
  {
    assert PlaceholderId[..5] == "check";
  }

  /** The counter hands out 1, 2, 3, ... in order, so no identifier is ever
      stamped twice. */
  lemma IdsNeverReused(issued: seq<nat>)
    requires forall i | 0 <= i < |issued| :: issued[i] == i + 1
    ensures forall i, j | 0 <= i < j < |issued| :: issued[i] < issued[j]
    ensures forall i, j | 0 <= i < j < |issued| :: CommandId(issued[i]) != CommandId(issued[j])
  {
    forall i, j | 0 <= i < j < |issued|
      ensures CommandId(issued[i]) != CommandId(issued[j])
    {
      if CommandId(issued[i]) == CommandId(issued[j]) {
        CommandIdInjective(issued[i], issued[j]);
      }
    }
  }

  // ---------------------------------------------------------------------
  // Reply framing

  function Pow256(k: nat): (p: nat)
    ensures p >= 1
  {
    if k == 0 then 1 else 256 * Pow256(k - 1)
  }

  /** `int.from_bytes(bytes, byteorder="big")`. */
  function BigEndian(bytes: seq<byte>): (n: nat)
    ensures n < Pow256(|bytes|)
  {
    if bytes == [] then 0
    else BigEndian(bytes[..|bytes| - 1]) * 256 + bytes[|bytes| - 1] as nat
  }

  /** The k-byte big-endian encoding of n, as a device writes its length prefix. */
  function ToBigEndian(n: nat, k: nat): (bytes: seq<byte>)
    requires n < Pow256(k)
    ensures |bytes| == k
  {
    if k == 0 then []
    else ToBigEndian(n / 256, k - 1) + [(n % 256) as byte]
  }

  lemma {:induction false} BigEndianRoundTrip(n: nat, k: nat)
    requires n < Pow256(k)
    ensures BigEndian(ToBigEndian(n, k)) == n
  {
    if k > 0 {
      var bytes := ToBigEndian(n, k);
      BigEndianRoundTrip(n / 256, k - 1);
      assert bytes[..k - 1] == ToBigEndian(n / 256, k - 1);
    }
  }

  /** A length read with `read(4)` holds at most four bytes, so it is below
      2^32; an empty read decodes to 0. */
  lemma LengthPrefixBound(header: seq<byte>)
    requires |header| <= 4
    ensures BigEndian(header) < 0x1_0000_0000
    ensures header == [] ==> BigEndian(header) == 0
  {
    var k := |header|;
    assert Pow256(4) == 0x1_0000_0000;
    assert k <= 3 ==> Pow256(k) <= Pow256(3) == 0x100_0000;
  }

  /** How a command call ends, given which transport operations raise an
      IOError, the bytes the first read returned and the bytes the second read
      returned. Any IOError, including one raised while closing, wins over a
      pending WrongId or decode failure and becomes CannotConnect. */
  function ExchangeResult(faults: set<Fault>, header: seq<byte>, body: seq<byte>,
                          parse: seq<byte> -> Option<Json>): (r: Reply)
    ensures r.CannotConnect? <==> faults != {}
    ensures r.WrongId? <==> faults == {} && !(0 < BigEndian(header) < MaxReplyLength)
    ensures r.Ok? ==> parse(body) == Some(r.body)
    ensures r.DecodeError? <==> faults == {} && 0 < BigEndian(header) < MaxReplyLength && parse(body).None?
  {
    if faults != {} then CannotConnect
    else if !(0 < BigEndian(header) < MaxReplyLength) then WrongId
    else match parse(body)
      case None => DecodeError
      case Some(j) => Ok(j)
  }

  /** Without transport errors, a length outside the open range (0, 8192)
      ends in WrongId and nothing else; inside the range the body decides
      between a reply and a decode failure; never CannotConnect. */
  lemma FramingCheck(header: seq<byte>, body: seq<byte>, parse: seq<byte> -> Option<Json>)
    ensures var r := ExchangeResult({}, header, body, parse);
      (r == WrongId <==> !(0 < BigEndian(header) < MaxReplyLength)) && r != CannotConnect
  {
  }

  /** The three prefixes a misbehaving device may send, 0, 8192 and
      0xFFFFFFFF, and an empty read all end in WrongId. */
  lemma OutOfRangeLengths(body: seq<byte>, parse: seq<byte> -> Option<Json>)
    ensures ExchangeResult({}, [0, 0, 0, 0], body, parse) == WrongId
    ensures ExchangeResult({}, [0, 0, 0x20, 0], body, parse) == WrongId
    ensures ExchangeResult({}, [0xff, 0xff, 0xff, 0xff], body, parse) == WrongId
    ensures ExchangeResult({}, [], body, parse) == WrongId
  {
    BigEndianOfFour(0, 0, 0, 0);
    BigEndianOfFour(0, 0, 0x20, 0);
    BigEndianOfFour(0xff, 0xff, 0xff, 0xff);
  }

  lemma BigEndianAppend(s: seq<byte>, b: byte)
    ensures BigEndian(s + [b]) == BigEndian(s) * 256 + b as nat
  {
    assert (s + [b])[..|s|] == s;
  }

  lemma BigEndianOfFour(b0: byte, b1: byte, b2: byte, b3: byte)
    ensures BigEndian([b0, b1, b2, b3]) == ((b0 as nat * 256 + b1 as nat) * 256 + b2 as nat) * 256 + b3 as nat
  {
    BigEndianAppend([], b0);
    assert [] + [b0] == [b0];
    BigEndianAppend([b0], b1);
    assert [b0] + [b1] == [b0, b1];
    BigEndianAppend([b0, b1], b2);
    assert [b0, b1] + [b2] == [b0, b1, b2];
    BigEndianAppend([b0, b1, b2], b3);
    assert [b0, b1, b2] + [b3] == [b0, b1, b2, b3];
  }

  lemma {:induction false} BigEndianZeros(s: seq<byte>)
    requires forall i | 0 <= i < |s| :: s[i] == 0
    ensures BigEndian(s) == 0
  {
    if s != [] {
      BigEndianZeros(s[..|s| - 1]);
    }
  }

  /** `read(4)` may return fewer than four bytes, and the code then takes
      those bytes as the whole length. A device that sends the prefix
      0xFFFFFFFF can have its first byte read alone, as length 255, and a
      body read after it; the prefix 8192 read as three bytes gives length 32.
      Among replies of at least four bytes, only one that starts with four
      zero bytes is sure to end in WrongId; a shorter reply is sure to only
      when all its bytes are zero, the empty reply included (see
      Client.ZeroLengthReplyIsWrongId). */
  lemma ShortLengthRead(parse: seq<byte> -> Option<Json>)
    ensures Framed([0xff, 0xff, 0xff, 0xff], [0xff], [0xff, 0xff, 0xff])
    ensures ExchangeResult({}, [0xff], [0xff, 0xff, 0xff], parse) != WrongId
    ensures Framed([0, 0, 0x20, 0], [0, 0, 0x20], [0])
    ensures ExchangeResult({}, [0, 0, 0x20], [0], parse) != WrongId
  {
    var one: seq<byte> := [0xff];
    assert BigEndian(one) == 255 by {
      BigEndianAppend([], 0xff);
      assert [] + [0xff as byte] == one;
    }
    var three: seq<byte> := [0, 0, 0x20];
    assert BigEndian(three) == 32 by {
      BigEndianAppend([], 0);
      assert [] + [0 as byte] == [0];
      BigEndianAppend([0], 0);
      assert [0 as byte] + [0] == [0, 0];
      BigEndianAppend([0, 0], 0x20);
      assert [0 as byte, 0] + [0x20] == three;
    }
  }

  /** The bytes the two reads may return when no operation fails: the first
      read gives at most four bytes from the start of what the device sent,
      empty only when the device sent nothing; the second read happens only
      for an in-range length and gives at most that many of the following
      bytes, empty only when nothing follows. */
  ghost predicate Framed(sent: seq<byte>, header: seq<byte>, body: seq<byte>)
  {
    |header| <= 4 && header <= sent && (header == [] <==> sent == []) &&
    var rest := sent[|header|..];
    if 0 < BigEndian(header) < MaxReplyLength then
      |body| <= BigEndian(header) && body <= rest && (body == [] <==> rest == [])
    else body == []
  }

  // ---------------------------------------------------------------------
  // The transport

  /** The transport operations that can raise an IOError. */
  datatype Fault = ConnectFails | WriteFails | ReadFails | CloseFails

  /** Whatever answers at host:3333: the bytes it sends back, and which
      operations on the connection to it raise an IOError. */
  datatype Device = Device(reply: seq<byte>, faults: set<Fault>)

  /** One TCP connection, owned by a single command call. */
  class Connection {
    const host: string
    const port: int
    const faults: set<Fault>
    var inbox: seq<byte>
    var outbox: seq<byte>
    ghost var closed: bool

    constructor Open(host: string, port: int, device: Device)
      ensures this.host == host && this.port == port && faults == device.faults
      ensures inbox == device.reply && outbox == [] && !closed
    {
      this.host, this.port, faults := host, port, device.faults;
      inbox, outbox := device.reply, [];
      closed := false;
    }

    /** `writer.write` followed by `await writer.drain()`. */
    method Write(data: seq<byte>) returns (ok: bool)
      requires !closed
      modifies this
      ensures ok <==> WriteFails !in faults
      ensures outbox == if ok then old(outbox) + data else old(outbox)
      ensures inbox == old(inbox) && !closed
    {
      ok := WriteFails !in faults;
      if ok {
        outbox := outbox + data;
      }
    }

    /** `await reader.read(n)`: at most n bytes from the front of what the
        device sent, empty only at end of stream; how many arrive at once is
        the network's choice. */
    method Read(n: nat) returns (r: Option<seq<byte>>)
      requires !closed
      modifies this
      ensures r.None? <==> ReadFails in faults
      ensures r.None? ==> inbox == old(inbox)
      ensures r.Some? ==>
        |r.value| <= n && r.value <= old(inbox) && inbox == old(inbox)[|r.value|..] &&
        (r.value == [] <==> (n == 0 || old(inbox) == []))
      ensures outbox == old(outbox) && !closed
    {
      if ReadFails in faults {
        return None;
      }
      var k := if n < |inbox| then n else |inbox|;
      r := Some(inbox[..k]);
      inbox := inbox[k..];
    }

    /** `writer.close()` followed by `await writer.wait_closed()`: the
        connection is released even when waiting raises. */
    method Close() returns (ok: bool)
      modifies this
      ensures closed && (ok <==> CloseFails !in faults)
      ensures inbox == old(inbox) && outbox == old(outbox)
    {
      closed := true;
      ok := CloseFails !in faults;
    }
  }

  /** `asyncio.open_connection(host, port)`. */
  method OpenConnection(host: string, port: int, device: Device) returns (c: Connection?)
    ensures c == null <==> ConnectFails in device.faults
    ensures c != null ==>
      fresh(c) && c.host == host && c.port == port && c.faults == device.faults &&
      c.inbox == device.reply && c.outbox == [] && !c.closed
  {
    if ConnectFails in device.faults {
      return null;
    }
    c := new Connection.Open(host, port, device);
  }

  /** Once connecting and writing succeeded, any remaining fault is in a read
      or in closing. */
  lemma RemainingFault(faults: set<Fault>)
    requires faults != {} && ConnectFails !in faults && WriteFails !in faults
    ensures ReadFails in faults || CloseFails in faults
  {
    var f :| f in faults;
    assert f.ReadFails? || f.CloseFails?;
  }

  /** The inner try/finally of `_send_command`, entered once the request is
      written: read the length prefix, read the body when the length is in
      range, decode it, and close the connection whatever happened. */
  method ReceiveReply(conn: Connection, parse: seq<byte> -> Option<Json>)
    returns (r: Reply, ghost header: seq<byte>, ghost body: seq<byte>)
    requires !conn.closed && ConnectFails !in conn.faults && WriteFails !in conn.faults
    modifies conn
    ensures conn.closed && conn.outbox == old(conn.outbox)
    ensures |header| + |body| <= |old(conn.inbox)|
    ensures header + body == old(conn.inbox)[..|header| + |body|]
    ensures conn.inbox == old(conn.inbox)[|header| + |body|..]
    ensures ReadFails !in conn.faults ==> Framed(old(conn.inbox), header, body)
    ensures r == ExchangeResult(conn.faults, header, body, parse)
  {
    header, body := [], [];
    if conn.faults != {} {
      RemainingFault(conn.faults);
    }
    var outcome: Reply;
    var head := conn.Read(4);
    if head.None? {
      outcome := CannotConnect;
    } else {
      header := head.value;
      var len := BigEndian(head.value);
      if 0 < len < MaxReplyLength {
        var received := conn.Read(len);
        if received.None? {
          outcome := CannotConnect;
        } else {
          body := received.value;
          outcome := match parse(received.value)
            case None => DecodeError
            case Some(j) => Ok(j);
        }
      } else {
        outcome := WrongId;
      }
    }
    // The finally: an IOError while closing replaces whatever was pending.
    var closedOk := conn.Close();
    r := if closedOk then outcome else CannotConnect;
  }

  // ---------------------------------------------------------------------
  // The client

  /** The module of dlight.py as an object: its one piece of state is the
      process-wide command counter. The JSON codec is foreign code and enters
      as two functions: `encode` for `json.dumps` followed by UTF-8 encoding,
      `parse` for UTF-8 decoding followed by `json.loads`. */
  class Client {
    var commandSeqNumber: nat
    const encode: Request -> seq<byte>
    const parse: seq<byte> -> Option<Json>

    /** The numbers stamped so far, oldest first. */
    ghost var issued: seq<nat>
    /** The last command as sent, its connection (null when connecting failed)
        and the bytes its two reads returned. */
    ghost var lastRequest: Request
    ghost var lastConnection: Connection?
    ghost var lastHeader: seq<byte>
    ghost var lastBody: seq<byte>

    ghost predicate Valid()
      reads this
    {
      |issued| == commandSeqNumber &&
      forall i | 0 <= i < |issued| :: issued[i] == i + 1
    }

    constructor (encode: Request -> seq<byte>, parse: seq<byte> -> Option<Json>)
      ensures Valid() && commandSeqNumber == 0 && issued == []
      ensures this.encode == encode && this.parse == parse
    {
      commandSeqNumber := 0;
      this.encode, this.parse := encode, parse;
      issued := [];
      lastRequest := DeviceInfoRequest("");
      lastConnection := null;
      lastHeader, lastBody := [], [];
    }

    /** What one command call did: it sent `data` numbered with the current
        counter value in place of any identifier the caller set; it connected
        to ip:3333 unless connecting failed; once the write succeeded, the
        connection was closed on every path; a failed write leaves it open;
        and the call ended as ExchangeResult says. */
    ghost predicate Sent(ip: string, data: Request, device: Device, r: Reply)
      reads this, lastConnection
    {
      lastRequest == data.(commandId := Some(CommandId(commandSeqNumber))) &&
      (lastConnection == null <==> ConnectFails in device.faults) &&
      (lastConnection != null ==>
        lastConnection.host == ip && lastConnection.port == Port &&
        (lastConnection.closed <==> WriteFails !in device.faults) &&
        (WriteFails !in device.faults ==>
          lastConnection.outbox == encode(lastRequest) &&
          |lastHeader| + |lastBody| <= |device.reply| &&
          lastHeader + lastBody == device.reply[..|lastHeader| + |lastBody|] &&
          lastConnection.inbox == device.reply[|lastHeader| + |lastBody|..]) &&
        (WriteFails in device.faults ==>
          lastConnection.outbox == [] && lastConnection.inbox == device.reply)) &&
      (ConnectFails !in device.faults && WriteFails !in device.faults && ReadFails !in device.faults ==>
        Framed(device.reply, lastHeader, lastBody)) &&
      r == ExchangeResult(device.faults, lastHeader, lastBody, parse)
    }

    /** `_send_command`: bump the counter, stamp the identifier, then connect,
        write, read the length prefix, read the body, close. */
    method SendCommand(ip: string, data: Request, device: Device) returns (r: Reply)
      requires Valid()
      modifies this
      ensures Valid()
      ensures commandSeqNumber == old(commandSeqNumber) + 1
      ensures issued == old(issued) + [commandSeqNumber]
      ensures lastConnection != null ==> fresh(lastConnection)
      ensures Sent(ip, data, device, r)
    {
      commandSeqNumber := commandSeqNumber + 1;
      issued := issued + [commandSeqNumber];
      var stamped := data.(commandId := Some(CommandId(commandSeqNumber)));
      lastRequest := stamped;
      lastHeader, lastBody := [], [];
      var payload := encode(stamped);

      var conn := OpenConnection(ip, Port, device);
      lastConnection := conn;
      if conn == null {
        return CannotConnect;
      }
      var wrote := conn.Write(payload);
      if !wrote {
        return CannotConnect;
      }

      ghost var header, body;
      r, header, body := ReceiveReply(conn, parse);
      lastHeader, lastBody := header, body;
    }

    /** A reply whose first four bytes (all of them, when it is shorter) are
        zero ends the call in WrongId, with the connection closed, however few
        of those bytes the first read returns. */
    lemma ZeroLengthReplyIsWrongId(ip: string, data: Request, device: Device, r: Reply)
      requires Sent(ip, data, device, r)
      requires device.faults == {}
      requires forall i | 0 <= i < |device.reply| && i < 4 :: device.reply[i] == 0
      ensures r == WrongId
      ensures lastConnection != null && lastConnection.closed
    {
      assert lastHeader <= device.reply && |lastHeader| <= 4;
      forall i | 0 <= i < |lastHeader|
        ensures lastHeader[i] == 0
      {
        assert lastHeader[i] == device.reply[i];
      }
      BigEndianZeros(lastHeader);
    }

    /** `get_device_info`. */
    method GetDeviceInfo(ip: string, deviceId: string, device: Device) returns (r: Reply)
      requires Valid()
      modifies this
      ensures Valid()
      ensures commandSeqNumber == old(commandSeqNumber) + 1
      ensures issued == old(issued) + [commandSeqNumber]
      ensures lastConnection != null ==> fresh(lastConnection)
      ensures Sent(ip, DeviceInfoRequest(deviceId), device, r)
      ensures lastRequest.commandType == QueryDeviceInfo && lastRequest.deviceId == deviceId
      ensures lastRequest.commandId == Some(CommandId(commandSeqNumber)) && lastRequest.commands.None?
    {
      r := SendCommand(ip, DeviceInfoRequest(deviceId), device);
    }

    /** `get_device_states`. */
    method GetDeviceStates(ip: string, deviceId: string, device: Device) returns (r: Reply)
      requires Valid()
      modifies this
      ensures Valid()
      ensures commandSeqNumber == old(commandSeqNumber) + 1
      ensures issued == old(issued) + [commandSeqNumber]
      ensures lastConnection != null ==> fresh(lastConnection)
      ensures Sent(ip, DeviceStatesRequest(deviceId), device, r)
      ensures lastRequest.commandType == QueryDeviceStates && lastRequest.deviceId == deviceId
      ensures lastRequest.commandId == Some(CommandId(commandSeqNumber)) && lastRequest.commands.None?
    {
      r := SendCommand(ip, DeviceStatesRequest(deviceId), device);
    }

    /** `_turn_on_off`: build the EXECUTE envelope and send it. */
    method TurnOnOff(ip: string, deviceId: string, on: bool, brightness: Option<int>,
                     temperature: Option<int>, device: Device) returns (r: Reply)
      requires Valid()
      modifies this
      ensures Valid()
      ensures commandSeqNumber == old(commandSeqNumber) + 1
      ensures issued == old(issued) + [commandSeqNumber]
      ensures lastConnection != null ==> fresh(lastConnection)
      ensures lastRequest.commandId == Some(CommandId(commandSeqNumber))
      ensures IsExecute(lastRequest.(commandId := None), deviceId, on, brightness, temperature)
      ensures Sent(ip, lastRequest.(commandId := None), device, r)
    {
      var req := ExecuteRequest(deviceId, on, brightness, temperature);
      r := SendCommand(ip, req, device);
    }

    /** `turn_on`. */
    method TurnOn(ip: string, deviceId: string, brightness: Option<int>, temperature: Option<int>,
                  device: Device) returns (r: Reply)
      requires Valid()
      modifies this
      ensures Valid()
      ensures commandSeqNumber == old(commandSeqNumber) + 1
      ensures issued == old(issued) + [commandSeqNumber]
      ensures lastConnection != null ==> fresh(lastConnection)
      ensures lastRequest.commandId == Some(CommandId(commandSeqNumber))
      ensures IsExecute(lastRequest.(commandId := None), deviceId, true, brightness, temperature)
      ensures Sent(ip, lastRequest.(commandId := None), device, r)
    {
      r := TurnOnOff(ip, deviceId, true, brightness, temperature, device);
    }

    /** `turn_off`: the action list is exactly `[{"ON": false}]`. */
    method TurnOff(ip: string, deviceId: string, device: Device) returns (r: Reply)
      requires Valid()
      modifies this
      ensures Valid()
      ensures commandSeqNumber == old(commandSeqNumber) + 1
      ensures issued == old(issued) + [commandSeqNumber]
      ensures lastConnection != null ==> fresh(lastConnection)
      ensures lastRequest == Request(Some(CommandId(commandSeqNumber)), deviceId, Execute,
                                     Some(CommandList([On(false)])))
      ensures Sent(ip, lastRequest.(commandId := None), device, r)
    {
      r := TurnOnOff(ip, deviceId, false, None, None, device);
      ghost var acts := lastRequest.commands.value.commands;
      ActionListDetermined(acts, [On(false)], false, None, None);
    }
  }

  /** Two commands sent one after the other through the same client carry
      different identifiers, the first numbered one above the counter's
      starting value and the second two above it. */
  method SendTwice(c: Client, ip: string, first: Request, second: Request,
                   device1: Device, device2: Device)
    returns (r1: Reply, r2: Reply, id1: string, id2: string, ghost sent1: Request)
    requires c.Valid()
    modifies c
    ensures c.Valid() && c.commandSeqNumber == old(c.commandSeqNumber) + 2
    ensures id1 == CommandId(old(c.commandSeqNumber) + 1)
    ensures id2 == CommandId(old(c.commandSeqNumber) + 2)
    ensures sent1 == first.(commandId := Some(id1))
    ensures c.lastRequest == second.(commandId := Some(id2))
    ensures id1 != id2
  {
    r1 := c.SendCommand(ip, first, device1);
    id1 := CommandId(c.commandSeqNumber);
    sent1 := c.lastRequest;
    r2 := c.SendCommand(ip, second, device2);
    id2 := CommandId(c.commandSeqNumber);
    ghost var k := |c.issued|;
    assert c.issued[k - 2] == c.commandSeqNumber - 1 && c.issued[k - 1] == c.commandSeqNumber;
    IdsNeverReused(c.issued);
    assert CommandId(c.issued[k - 2]) != CommandId(c.issued[k - 1]);
  }
}
