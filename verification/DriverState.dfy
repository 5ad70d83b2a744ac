// What the driver knows about connected devices after a log of messages, and
// what a waiting command is told.
module DriverState {
  import opened Bytes

  type Handle = byte

  // The cached data of one attribute.
  datatype Attribute = Attribute(uuid: bytes, serviceUuid: bytes, endHandle: nat, attributeType: nat, rawData: bytes)

  datatype Device = Device(mac: bytes, flags: bv8, parameters: seq<nat>, attributes: map<nat, Attribute>)

  type Devices = map<Handle, Device>

  const NEW_ATTRIBUTE := Attribute([], [], 0, 0, [])
  const CONNECTED: bv8 := 1
  const COMPLETED: bv8 := 4
  const UUID_SIZE: nat := 16

  // Events a command can wait for.
  const GATT_PROCEDURE_COMPLETE_EVT: bv32 := 0x1
  const GAP_CONNECTION_EVT: bv32 := 0x2
  const GAP_CONNECTION_RSP_EVT: bv32 := 0x4
  const GAP_DISCOVER_RSP_EVT: bv32 := 0x8
  const CONNECTION_UPDATE_RSP_EVT: bv32 := 0x10
  const CONNECTION_UPDATE_EVT: bv32 := 0x20
  const CONNECTION_DISCONNECT_RSP_EVT: bv32 := 0x40
  const CONNECTION_DISCONNECT_EVT: bv32 := 0x80
  const ATTCLIENT_READ_RSP_EVT: bv32 := 0x100
  const ATTCLIENT_WRITE_RSP_EVT: bv32 := 0x200
  const ATTCLIENT_READGROUP_RSP_EVT: bv32 := 0x400
  const ATTCLIENT_FINDINFO_RSP_EVT: bv32 := 0x800
  const ATTCLIENT_READTYPE_RSP_EVT: bv32 := 0x1000
  const GAP_ENDPROCEDURE_RSP_EVT: bv32 := 0x2000
  const GAP_SET_SCANPARAMETER_RSP_EVT: bv32 := 0x4000
  const SYS_GET_MAXCON_RSP_EVT: bv32 := 0x8000
  const CONNECTION_GET_STATUS_RSP_EVT: bv32 := 0x10000
  const SYS_GET_INFO_RSP_EVT: bv32 := 0x20000
  const ATTCLIENT_ATTRIBUTE_FOUND_EVT: bv32 := 0x40000

  // Responses that only carry a result; for some the handle is always 0.
  datatype Response =
    | GetInfo | GetMaxConnections | Discover | SetScanParameters | EndProcedure | ConnectDirect
    | GetStatus | DisconnectResponse | UpdateResponse | ReadGroup | ReadType | FindInfo | Read | Write
    | ProcedureCompleted

  function EventOf(r: Response): bv32 {
    match r
    case GetInfo => SYS_GET_INFO_RSP_EVT
    case GetMaxConnections => SYS_GET_MAXCON_RSP_EVT
    case Discover => GAP_DISCOVER_RSP_EVT
    case SetScanParameters => GAP_SET_SCANPARAMETER_RSP_EVT
    case EndProcedure => GAP_ENDPROCEDURE_RSP_EVT
    case ConnectDirect => GAP_CONNECTION_RSP_EVT
    case GetStatus => CONNECTION_GET_STATUS_RSP_EVT
    case DisconnectResponse => CONNECTION_DISCONNECT_RSP_EVT
    case UpdateResponse => CONNECTION_UPDATE_RSP_EVT
    case ReadGroup => ATTCLIENT_READGROUP_RSP_EVT
    case ReadType => ATTCLIENT_READTYPE_RSP_EVT
    case FindInfo => ATTCLIENT_FINDINFO_RSP_EVT
    case Read => ATTCLIENT_READ_RSP_EVT
    case Write => ATTCLIENT_WRITE_RSP_EVT
    case ProcedureCompleted => GATT_PROCEDURE_COMPLETE_EVT
  }

  // Posted without a handle and, for the first two and the status, without a result.
  predicate Unaddressed(r: Response) {
    r in {GetInfo, GetMaxConnections, Discover, SetScanParameters, EndProcedure, ConnectDirect}
  }

  predicate Resultless(r: Response) {
    r in {GetInfo, GetMaxConnections, GetStatus}
  }

  // A decoded message from the dongle.
  datatype Message =
    | Status(handle: Handle, flags: bv8, mac: bytes, parameters: seq<nat>)
    | Disconnected(handle: Handle)
    | ServiceFound(handle: Handle, start: nat, end: nat, uuid: bytes)
    | AttributeInfo(handle: Handle, attribute: nat, uuid: bytes)
    | AttributeValue(handle: Handle, attribute: nat, attributeType: nat, data: bytes)
    | Answer(response: Response, handle: Handle, result: nat)
    | Other                         // changes and completes nothing, or cannot be mapped

  predicate Connects(m: Message, h: Handle) {
    m.Status? && m.handle == h && m.flags & CONNECTED != 0
  }

  predicate Disconnects(m: Message, h: Handle) {
    m.Disconnected? && m.handle == h
  }

  predicate UuidOk(uuid: bytes) {
    0 < |uuid| <= UUID_SIZE
  }

  function AttributeAt(d: Device, a: nat): Attribute {
    if a in d.attributes then d.attributes[a] else NEW_ATTRIBUTE
  }

  function WithAttribute(devices: Devices, h: Handle, a: nat, x: Attribute): Devices
    requires h in devices
  {
    devices[h := devices[h].(attributes := devices[h].attributes[a := x])]
  }

  // What a callback makes of connectedDevices.
  function Apply(devices: Devices, m: Message): Devices {
    match m
    case Status(h, flags, mac, parameters) =>
      if flags & CONNECTED == 0 then devices
      else devices[h := Device(mac, flags, parameters, if h in devices then devices[h].attributes else map[])]
    case Disconnected(h) => devices - {h}
    case ServiceFound(h, start, end, uuid) =>
      if !UuidOk(uuid) || h !in devices then devices
      else
        var x := AttributeAt(devices[h], start);
        WithAttribute(devices, h, start, x.(serviceUuid := Reverse(uuid), uuid := [0x28, 0x00], endHandle := end))
    case AttributeInfo(h, a, uuid) =>
      if !UuidOk(uuid) || h !in devices then devices
      else WithAttribute(devices, h, a, AttributeAt(devices[h], a).(uuid := Reverse(uuid)))
    case AttributeValue(h, a, kind, data) =>
      if h !in devices then devices
      else WithAttribute(devices, h, a, AttributeAt(devices[h], a).(attributeType := kind, rawData := data))
    case Answer(_, _, _) => devices
    case Other => devices
  }

  // A step of the driver: a message, or a look at a device or one of its
  // attributes, which indexes the maps and so makes the entries it does not
  // find; `mac` is what the address of a new device happens to hold.
  datatype Step = Received(message: Message) | Looked(handle: Handle, attribute: Option<nat>, mac: bytes)

  function DeviceAt(devices: Devices, h: Handle, mac: bytes): Device {
    if h in devices then devices[h] else Device(mac, 0, [], map[])
  }

  function ApplyStep(devices: Devices, s: Step): Devices {
    match s
    case Received(m) => Apply(devices, m)
    case Looked(h, a, mac) =>
      var found := devices[h := DeviceAt(devices, h, mac)];
      if a.Some? then WithAttribute(found, h, a.value, AttributeAt(found[h], a.value)) else found
  }

  function Run(log: seq<Step>): Devices {
    if log == [] then map[] else ApplyStep(Run(log[..|log| - 1]), log[|log| - 1])
  }

  // ----- what the log says -----

  predicate ConnectsAt(log: seq<Step>, h: Handle, i: nat)
    requires i < |log|
  {
    log[i].Received? && Connects(log[i].message, h)
  }

  predicate DisconnectsAt(log: seq<Step>, h: Handle, i: nat)
    requires i < |log|
  {
    log[i].Received? && Disconnects(log[i].message, h)
  }

  // A connected status event came after the last disconnect event.
  predicate IsConnected(log: seq<Step>, h: Handle) {
    exists i :: 0 <= i < |log| && ConnectsAt(log, h, i) && forall j :: i < j < |log| ==> !DisconnectsAt(log, h, j)
  }

  predicate LooksAt(log: seq<Step>, h: Handle, i: nat)
    requires i < |log|
  {
    log[i].Looked? && log[i].handle == h
  }

  // A step that finds or makes an entry for the handle.
  predicate TouchesAt(log: seq<Step>, h: Handle, i: nat)
    requires i < |log|
  {
    ConnectsAt(log, h, i) || LooksAt(log, h, i)
  }

  predicate IsPresent(log: seq<Step>, h: Handle) {
    exists i :: 0 <= i < |log| && TouchesAt(log, h, i) && forall j :: i < j < |log| ==> !DisconnectsAt(log, h, j)
  }

  // The step that put the handle into the map: the first one for it after the
  // last disconnect event.
  predicate InsertedBy(log: seq<Step>, h: Handle, i: nat) {
    && i < |log| && TouchesAt(log, h, i)
    && (forall j :: i < j < |log| ==> !DisconnectsAt(log, h, j))
    && (forall j :: 0 <= j < i && TouchesAt(log, h, j) ==> exists k :: j < k < i && DisconnectsAt(log, h, k))
  }

  predicate ValueAt(log: seq<Step>, h: Handle, a: nat, i: nat)
    requires i < |log|
  {
    log[i].Received? && log[i].message.AttributeValue? && log[i].message.handle == h && log[i].message.attribute == a
  }

  // The payload of the last value event for the attribute from step `from` on.
  function LastValue(log: seq<Step>, h: Handle, a: nat, from: nat): bytes {
    if |log| <= from then []
    else if ValueAt(log, h, a, |log| - 1) then log[|log| - 1].message.data
    else LastValue(log[..|log| - 1], h, a, from)
  }

  function RawData(devices: Devices, h: Handle, a: nat): bytes
    requires h in devices
  {
    AttributeAt(devices[h], a).rawData
  }

  lemma LogPrefix(log: seq<Step>, h: Handle, n: nat)
    requires n <= |log|
    ensures forall i :: 0 <= i < n ==> TouchesAt(log, h, i) == TouchesAt(log[..n], h, i) && LooksAt(log, h, i) == LooksAt(log[..n], h, i)
    ensures forall i :: 0 <= i < n ==> ConnectsAt(log, h, i) == ConnectsAt(log[..n], h, i) && DisconnectsAt(log, h, i) == DisconnectsAt(log[..n], h, i)
  {
  }

  // A handle is in the map exactly when it has been inserted and not erased.
  lemma {:induction false} PresentExactly(log: seq<Step>, h: Handle)
    ensures h in Run(log) <==> IsPresent(log, h)
    decreases |log|
  {
    hide TouchesAt, DisconnectsAt;
    if log != [] {
      var n := |log| - 1;
      var before := log[..n];
      PresentExactly(before, h);
      LogPrefix(log, h, n);
      StepPresence(log, h);
      if TouchesAt(log, h, n) {
        assert IsPresent(log, h);
      } else if !DisconnectsAt(log, h, n) && IsPresent(before, h) {
        var i :| 0 <= i < n && TouchesAt(before, h, i) && forall j :: i < j < n ==> !DisconnectsAt(before, h, j);
        assert TouchesAt(log, h, i);
      }
      if IsPresent(log, h) && !TouchesAt(log, h, n) {
        var i :| 0 <= i <= n && TouchesAt(log, h, i) && forall j :: i < j <= n ==> !DisconnectsAt(log, h, j);
        assert TouchesAt(before, h, i);
      }
    }
  }

  lemma StepPresence(log: seq<Step>, h: Handle)
    requires log != []
    ensures var n := |log| - 1;
      h in Run(log) <==> TouchesAt(log, h, n) || (h in Run(log[..n]) && !DisconnectsAt(log, h, n))
    ensures var n := |log| - 1; !(TouchesAt(log, h, n) && DisconnectsAt(log, h, n))
  {
  }

  // At every point of a log the map holds the connected devices and no others,
  // exactly when only connected devices are looked at.
  lemma ConnectedExactly(log: seq<Step>, h: Handle)
    ensures (forall n :: 0 <= n <= |log| ==> (h in Run(log[..n]) <==> IsConnected(log[..n], h)))
      <==> forall i :: 0 <= i < |log| && LooksAt(log, h, i) ==> IsConnected(log[..i], h)
  {
    hide ConnectsAt, DisconnectsAt, LooksAt, TouchesAt, Run;
    if forall i :: 0 <= i < |log| && LooksAt(log, h, i) ==> IsConnected(log[..i], h) {
      forall n | 0 <= n <= |log| ensures h in Run(log[..n]) <==> IsConnected(log[..n], h) {
        PresentIsConnected(log, h, n);
      }
    } else {
      var i :| 0 <= i < |log| && LooksAt(log, h, i) && !IsConnected(log[..i], h);
      LookedIsPresent(log, h, i);
    }
  }

  lemma {:induction false} PresentIsConnected(log: seq<Step>, h: Handle, n: nat)
    requires n <= |log| && forall i :: 0 <= i < n && LooksAt(log, h, i) ==> IsConnected(log[..i], h)
    ensures h in Run(log[..n]) <==> IsConnected(log[..n], h)
    decreases n
  {
    hide ConnectsAt, DisconnectsAt, LooksAt, TouchesAt, Run, IsConnected;
    if n > 0 {
      PresentIsConnected(log, h, n - 1);
      LogPrefix(log, h, n);
      assert log[..n][..n - 1] == log[..n - 1];
      StepPresence(log[..n], h);
      StepConnection(log[..n], h);
      TouchIs(log[..n], h, n - 1);
    } else {
      NothingYet(log, h);
    }
  }

  lemma NothingYet(log: seq<Step>, h: Handle)
    ensures h !in Run(log[..0]) && !IsConnected(log[..0], h)
  {
  }

  lemma TouchIs(log: seq<Step>, h: Handle, i: nat)
    requires i < |log|
    ensures TouchesAt(log, h, i) <==> ConnectsAt(log, h, i) || LooksAt(log, h, i)
    ensures DisconnectsAt(log, h, i) ==> !TouchesAt(log, h, i)
  {
  }

  lemma StepConnection(log: seq<Step>, h: Handle)
    requires log != []
    ensures var n := |log| - 1;
      IsConnected(log, h) <==> ConnectsAt(log, h, n) || (IsConnected(log[..n], h) && !DisconnectsAt(log, h, n))
  {
    hide ConnectsAt, DisconnectsAt;
    var n := |log| - 1;
    LogPrefix(log, h, n);
    if IsConnected(log[..n], h) && !DisconnectsAt(log, h, n) {
      var i :| 0 <= i < n && ConnectsAt(log[..n], h, i) && forall j :: i < j < n ==> !DisconnectsAt(log[..n], h, j);
      assert ConnectsAt(log, h, i);
    }
    if IsConnected(log, h) && !ConnectsAt(log, h, n) {
      var i :| 0 <= i <= n && ConnectsAt(log, h, i) && forall j :: i < j <= n ==> !DisconnectsAt(log, h, j);
      assert ConnectsAt(log[..n], h, i);
    }
  }

  // A look at a device that is not connected makes it an entry.
  lemma LookedIsPresent(log: seq<Step>, h: Handle, i: nat)
    requires i < |log| && LooksAt(log, h, i) && !IsConnected(log[..i], h)
    ensures h in Run(log[..i + 1]) && !IsConnected(log[..i + 1], h)
  {
    hide DisconnectsAt, Run, IsConnected;
    LogPrefix(log, h, i + 1);
    assert log[..i + 1][..i] == log[..i];
    TouchIs(log[..i + 1], h, i);
    StepPresence(log[..i + 1], h);
    StepConnection(log[..i + 1], h);
  }

  lemma NotPresentThen(log: seq<Step>, h: Handle, j: nat)
    requires !IsPresent(log, h) && j < |log| && TouchesAt(log, h, j)
    ensures exists k :: j < k < |log| && DisconnectsAt(log, h, k)
  {
  }

  // A handle in the map has exactly one inserting step.
  lemma {:induction false} Inserted(log: seq<Step>, h: Handle) returns (i: nat)
    requires IsPresent(log, h)
    ensures InsertedBy(log, h, i)
    decreases |log|
  {
    hide TouchesAt, DisconnectsAt;
    var n := |log| - 1;
    var before := log[..n];
    LogPrefix(log, h, n);
    StepPresence(log, h);
    if IsPresent(before, h) && !DisconnectsAt(log, h, n) {
      i := Inserted(before, h);
      forall j | 0 <= j < i && TouchesAt(log, h, j) ensures exists k :: j < k < i && DisconnectsAt(log, h, k) {
        var k :| j < k < i && DisconnectsAt(before, h, k);
        assert DisconnectsAt(log, h, k);
      }
    } else {
      i := n;
      PresentExactly(log, h);
      PresentExactly(before, h);
      forall j | 0 <= j < n && TouchesAt(log, h, j) ensures exists k :: j < k < n && DisconnectsAt(log, h, k) {
        NotPresentThen(before, h, j);
        var k :| j < k < n && DisconnectsAt(before, h, k);
        assert DisconnectsAt(log, h, k);
      }
    }
  }

  lemma OneInsertion(log: seq<Step>, h: Handle, i: nat, j: nat)
    requires InsertedBy(log, h, i) && InsertedBy(log, h, j)
    ensures i == j
  {
  }

  // One step changes an attribute's data only by a value event for it.
  lemma StepKeepsData(devices: Devices, s: Step, h: Handle, a: nat)
    requires h in devices && !(s.Received? && Disconnects(s.message, h))
    ensures h in ApplyStep(devices, s)
    ensures RawData(ApplyStep(devices, s), h, a)
         == if s.Received? && s.message.AttributeValue? && s.message.handle == h && s.message.attribute == a then s.message.data
            else RawData(devices, h, a)
  {
  }

  // Data never outlive a connection: what is cached for an attribute is the
  // last value received for it since the handle was inserted, if any.
  lemma {:induction false} DataSinceInsertion(log: seq<Step>, h: Handle, i: nat, a: nat)
    requires InsertedBy(log, h, i)
    ensures h in Run(log) && RawData(Run(log), h, a) == LastValue(log, h, a, i)
    decreases |log|
  {
    hide ApplyStep, TouchesAt, DisconnectsAt;
    var n := |log| - 1;
    var before := log[..n];
    LogPrefix(log, h, n);
    if i == n {
      NotYet(log, h, i);
      PresentExactly(before, h);
      FirstTouch(Run(before), log, h, a);
    } else {
      assert InsertedBy(before, h, i) by {
        StillInserted(log, h, i);
      }
      DataSinceInsertion(before, h, i, a);
      KeptByStep(log, h, a);
    }
  }

  lemma KeptByStep(log: seq<Step>, h: Handle, a: nat)
    requires log != [] && h in Run(log[..|log| - 1]) && !DisconnectsAt(log, h, |log| - 1)
    ensures h in Run(log) && RawData(Run(log), h, a)
      == if ValueAt(log, h, a, |log| - 1) then log[|log| - 1].message.data else RawData(Run(log[..|log| - 1]), h, a)
  {
    StepKeepsData(Run(log[..|log| - 1]), log[|log| - 1], h, a);
  }

  lemma NotYet(log: seq<Step>, h: Handle, i: nat)
    requires InsertedBy(log, h, i) && i == |log| - 1
    ensures !IsPresent(log[..i], h)
  {
    hide TouchesAt, DisconnectsAt;
    var before := log[..i];
    LogPrefix(log, h, i);
    forall j | 0 <= j < i && TouchesAt(before, h, j) ensures exists k :: j < k < i && DisconnectsAt(before, h, k) {
      var k :| j < k < i && DisconnectsAt(log, h, k);
      assert DisconnectsAt(before, h, k);
    }
  }

  lemma StillInserted(log: seq<Step>, h: Handle, i: nat)
    requires InsertedBy(log, h, i) && i < |log| - 1
    ensures InsertedBy(log[..|log| - 1], h, i)
  {
    hide TouchesAt, DisconnectsAt;
    var before := log[..|log| - 1];
    LogPrefix(log, h, |log| - 1);
    forall j | 0 <= j < i && TouchesAt(before, h, j) ensures exists k :: j < k < i && DisconnectsAt(before, h, k) {
      var k :| j < k < i && DisconnectsAt(log, h, k);
      assert DisconnectsAt(before, h, k);
    }
  }

  lemma FirstTouch(devices: Devices, log: seq<Step>, h: Handle, a: nat)
    requires log != [] && h !in devices && TouchesAt(log, h, |log| - 1)
    ensures var d := ApplyStep(devices, log[|log| - 1]); h in d && RawData(d, h, a) == []
    ensures !ValueAt(log, h, a, |log| - 1)
  {
  }

  // ----- what a device is known to be -----

  // One step changes address, flags and parameters only by a connected status.
  lemma StatusApplied(devices: Devices, s: Step, h: Handle)
    requires h in devices && !(s.Received? && Disconnects(s.message, h))
    ensures h in ApplyStep(devices, s)
    ensures var was, now := devices[h], ApplyStep(devices, s)[h];
      if s.Received? && Connects(s.message, h) then
        now.mac == s.message.mac && now.flags == s.message.flags && now.parameters == s.message.parameters
      else now.mac == was.mac && now.flags == was.flags && now.parameters == was.parameters
  {
    hide AttributeAt, Reverse;
  }

  lemma StatusStep(log: seq<Step>, h: Handle)
    requires log != [] && h in Run(log[..|log| - 1]) && !DisconnectsAt(log, h, |log| - 1)
    ensures h in Run(log)
    ensures var s := log[|log| - 1]; var d := Run(log)[h];
      if ConnectsAt(log, h, |log| - 1) then
        d.mac == s.message.mac && d.flags == s.message.flags && d.parameters == s.message.parameters
      else
        var was := Run(log[..|log| - 1])[h]; d.mac == was.mac && d.flags == was.flags && d.parameters == was.parameters
  {
    hide ApplyStep;
    StatusApplied(Run(log[..|log| - 1]), log[|log| - 1], h);
  }

  lemma FirstApplied(devices: Devices, s: Step, h: Handle)
    requires h !in devices && ((s.Received? && Connects(s.message, h)) || (s.Looked? && s.handle == h))
    ensures h in ApplyStep(devices, s)
    ensures var d := ApplyStep(devices, s)[h];
      if s.Received? then d.mac == s.message.mac && d.flags == s.message.flags && d.parameters == s.message.parameters
      else d.mac == s.mac && d.flags == 0 && d.parameters == []
  {
    hide AttributeAt, Reverse;
  }

  lemma FirstStep(log: seq<Step>, h: Handle)
    requires log != [] && h !in Run(log[..|log| - 1]) && TouchesAt(log, h, |log| - 1)
    ensures h in Run(log)
    ensures var s := log[|log| - 1]; var d := Run(log)[h];
      if ConnectsAt(log, h, |log| - 1) then
        d.mac == s.message.mac && d.flags == s.message.flags && d.parameters == s.message.parameters
      else s.Looked? && d.mac == s.mac && d.flags == 0 && d.parameters == []
  {
    hide ApplyStep;
    FirstApplied(Run(log[..|log| - 1]), log[|log| - 1], h);
  }

  // Step k is the last connected status for the handle.
  predicate LastStatus(log: seq<Step>, h: Handle, k: nat) {
    k < |log| && ConnectsAt(log, h, k) && forall j :: k < j < |log| ==> !ConnectsAt(log, h, j)
  }

  // Address, flags and parameters are those of the last connected status since
  // the handle was inserted; without one they are what the look that inserted it
  // has made.
  lemma {:induction false} KnownSinceInsertion(log: seq<Step>, h: Handle, i: nat)
    requires InsertedBy(log, h, i)
    ensures h in Run(log)
    ensures forall k :: i <= k < |log| && LastStatus(log, h, k) ==>
      var d := Run(log)[h]; var m := log[k].message; d.mac == m.mac && d.flags == m.flags && d.parameters == m.parameters
    ensures (forall k :: i <= k < |log| ==> !ConnectsAt(log, h, k)) ==>
      var d := Run(log)[h]; log[i].Looked? && d.mac == log[i].mac && d.flags == 0 && d.parameters == []
    decreases |log|
  {
    hide ConnectsAt, DisconnectsAt, TouchesAt, Run;
    var n := |log| - 1;
    var before := log[..n];
    LogPrefix(log, h, n);
    if i == n {
      NotYet(log, h, i);
      PresentExactly(before, h);
      FirstStep(log, h);
    } else {
      StillInserted(log, h, i);
      KnownSinceInsertion(before, h, i);
      StatusStep(log, h);
      if ConnectsAt(log, h, n) {
      } else if exists k :: i <= k < |log| && LastStatus(log, h, k) {
        var k :| i <= k < |log| && LastStatus(log, h, k);
        assert LastStatus(before, h, k);
      }
    }
  }

  // The last connected status of a device in the map carried the address, or
  // there was none and the look that made the entry came upon it.
  predicate KnownAs(log: seq<Step>, h: Handle, mac: bytes) {
    exists i :: 0 <= i < |log| && InsertedBy(log, h, i) &&
      if exists k :: i <= k < |log| && ConnectsAt(log, h, k) then exists k :: i <= k < |log| && LastStatus(log, h, k) && log[k].message.mac == mac
      else log[i].Looked? && log[i].mac == mac
  }

  lemma AddressKnown(log: seq<Step>, h: Handle, mac: bytes)
    ensures h in Run(log) && Run(log)[h].mac == mac <==> KnownAs(log, h, mac)
  {
    hide ConnectsAt, DisconnectsAt, TouchesAt, Run, InsertedBy;
    PresentExactly(log, h);
    if h in Run(log) {
      var i := Inserted(log, h);
      InsertedInside(log, h, i);
      KnownSinceInsertion(log, h, i);
      if exists k :: i <= k < |log| && ConnectsAt(log, h, k) {
        var k :| i <= k < |log| && ConnectsAt(log, h, k);
        var last := LastFrom(log, h, k);
      }
      forall j | 0 <= j < |log| && InsertedBy(log, h, j) ensures j == i {
        OneInsertion(log, h, i, j);
      }
    } else {
      forall i | 0 <= i < |log| && InsertedBy(log, h, i) ensures false {
        KnownSinceInsertion(log, h, i);
      }
    }
  }

  lemma InsertedInside(log: seq<Step>, h: Handle, i: nat)
    requires InsertedBy(log, h, i)
    ensures i < |log|
  {
  }

  lemma {:induction false} LastFrom(log: seq<Step>, h: Handle, k: nat) returns (last: nat)
    requires k < |log| && ConnectsAt(log, h, k)
    ensures k <= last && LastStatus(log, h, last)
    decreases |log| - k
  {
    hide ConnectsAt;
    if exists j :: k < j < |log| && ConnectsAt(log, h, j) {
      var j :| k < j < |log| && ConnectsAt(log, h, j);
      last := LastFrom(log, h, j);
    } else {
      last := k;
    }
  }

  // ----- what an attribute is known to be -----

  // The uuid a step gives to the attribute, if it gives one.
  function UuidSet(s: Step, h: Handle, a: nat): Option<bytes> {
    if !s.Received? then None
    else match s.message
      case ServiceFound(g, start, _, uuid) => if g == h && start == a && 0 < |uuid| <= 16 then Some([0x28, 0x00]) else None
      case AttributeInfo(g, b, uuid) => if g == h && b == a && 0 < |uuid| <= 16 then Some(Reverse(uuid)) else None
      case _ => None
  }

  // The service uuid and the end of the group.
  function ServiceSet(s: Step, h: Handle, a: nat): Option<(bytes, nat)> {
    if s.Received? && s.message.ServiceFound? && s.message.handle == h && s.message.start == a && 0 < |s.message.uuid| <= 16 then
      Some((Reverse(s.message.uuid), s.message.end))
    else None
  }

  // The type of the last value.
  function TypeSet(s: Step, h: Handle, a: nat): Option<nat> {
    if s.Received? && s.message.AttributeValue? && s.message.handle == h && s.message.attribute == a then Some(s.message.attributeType)
    else None
  }

  // What the last step from `from` on that sets something sets it to.
  function LastSet<T>(log: seq<Step>, sets: Step -> Option<T>, from: nat, none: T): T {
    if |log| <= from then none
    else
      var last := sets(log[|log| - 1]);
      if last.Some? then last.value else LastSet(log[..|log| - 1], sets, from, none)
  }

  lemma {:induction false} LastSetIs<T>(log: seq<Step>, sets: Step -> Option<T>, from: nat, none: T)
    ensures forall k :: from <= k < |log| && sets(log[k]).Some? && (forall j :: k < j < |log| ==> sets(log[j]).None?) ==>
      LastSet(log, sets, from, none) == sets(log[k]).value
    ensures (forall k :: from <= k < |log| ==> sets(log[k]).None?) ==> LastSet(log, sets, from, none) == none
    decreases |log|
  {
    if |log| > from {
      LastSetIs(log[..|log| - 1], sets, from, none);
    }
  }

  // One step changes what is known of an attribute only by setting it.
  lemma AttributeStep(devices: Devices, s: Step, h: Handle, a: nat)
    requires h in devices && !(s.Received? && Disconnects(s.message, h))
    ensures h in ApplyStep(devices, s)
    ensures var was, now := AttributeAt(devices[h], a), AttributeAt(ApplyStep(devices, s)[h], a);
      && now.uuid == (if UuidSet(s, h, a).Some? then UuidSet(s, h, a).value else was.uuid)
      && (now.serviceUuid, now.endHandle) ==
           (if ServiceSet(s, h, a).Some? then ServiceSet(s, h, a).value else (was.serviceUuid, was.endHandle))
      && now.attributeType == (if TypeSet(s, h, a).Some? then TypeSet(s, h, a).value else was.attributeType)
  {
  }

  lemma FirstAttribute(devices: Devices, log: seq<Step>, h: Handle, a: nat)
    requires log != [] && h !in devices && TouchesAt(log, h, |log| - 1)
    ensures var s := log[|log| - 1]; h in ApplyStep(devices, s) && AttributeAt(ApplyStep(devices, s)[h], a) == NEW_ATTRIBUTE
    ensures var s := log[|log| - 1]; UuidSet(s, h, a).None? && ServiceSet(s, h, a).None? && TypeSet(s, h, a).None?
  {
  }

  // Uuid, service and type of an attribute are those set last since the handle
  // was inserted, and nothing if none has been.
  lemma {:induction false} AttributeSinceInsertion(log: seq<Step>, h: Handle, i: nat, a: nat)
    requires InsertedBy(log, h, i)
    ensures h in Run(log)
    ensures var x := AttributeAt(Run(log)[h], a);
      && x.uuid == LastSet(log, s => UuidSet(s, h, a), i, [])
      && (x.serviceUuid, x.endHandle) == LastSet(log, s => ServiceSet(s, h, a), i, ([], 0))
      && x.attributeType == LastSet(log, s => TypeSet(s, h, a), i, 0)
    decreases |log|
  {
    hide ApplyStep, TouchesAt, DisconnectsAt, UuidSet, ServiceSet, TypeSet;
    var n := |log| - 1;
    var before := log[..n];
    LogPrefix(log, h, n);
    if i == n {
      NotYet(log, h, i);
      PresentExactly(before, h);
      FirstAttribute(Run(before), log, h, a);
    } else {
      StillInserted(log, h, i);
      AttributeSinceInsertion(before, h, i, a);
      SetByStep(log, h, a);
    }
  }

  lemma SetByStep(log: seq<Step>, h: Handle, a: nat)
    requires log != [] && h in Run(log[..|log| - 1]) && !DisconnectsAt(log, h, |log| - 1)
    ensures h in Run(log)
    ensures var s := log[|log| - 1]; var was, now := AttributeAt(Run(log[..|log| - 1])[h], a), AttributeAt(Run(log)[h], a);
      && now.uuid == (if UuidSet(s, h, a).Some? then UuidSet(s, h, a).value else was.uuid)
      && (now.serviceUuid, now.endHandle) ==
           (if ServiceSet(s, h, a).Some? then ServiceSet(s, h, a).value else (was.serviceUuid, was.endHandle))
      && now.attributeType == (if TypeSet(s, h, a).Some? then TypeSet(s, h, a).value else was.attributeType)
  {
    hide ApplyStep, UuidSet, ServiceSet, TypeSet;
    AttributeStep(Run(log[..|log| - 1]), log[|log| - 1], h, a);
  }

  // ----- completion events -----

  datatype Post = Post(event: bv32, handle: Handle, code: nat)

  // What a callback posts.
  function Posts(m: Message): Option<Post> {
    match m
    case Status(h, flags, _, _) =>
      if flags & CONNECTED == 0 then None
      else if flags & COMPLETED != 0 then Some(Post(GAP_CONNECTION_EVT, 0, 0))
      else Some(Post(CONNECTION_UPDATE_EVT, h, 0))
    case Disconnected(h) => Some(Post(CONNECTION_DISCONNECT_EVT, h, 0))
    case AttributeValue(h, _, _, _) => Some(Post(ATTCLIENT_ATTRIBUTE_FOUND_EVT, h, 0))
    case Answer(r, h, result) => Some(Post(EventOf(r), if Unaddressed(r) then 0 else h, if Resultless(r) then 0 else result))
    case ServiceFound(_, _, _, _) => None
    case AttributeInfo(_, _, _) => None
    case Other => None
  }

  // Events are bit flags, so a command can wait for several at once.
  predicate SharesEvent(wanted: bv32, posted: bv32) {
    wanted & posted != 0
  }

  predicate Completes(m: Message, ce: bv32, ch: Handle) {
    Posts(m).Some? && SharesEvent(ce, Posts(m).value.event) && Posts(m).value.handle == ch
  }

  lemma DistinctEvents(r: Response, q: Response)
    ensures SharesEvent(EventOf(r), EventOf(q)) <==> r == q
    ensures !SharesEvent(EventOf(r), GAP_CONNECTION_EVT) && !SharesEvent(EventOf(r), CONNECTION_UPDATE_EVT)
    ensures !SharesEvent(EventOf(r), CONNECTION_DISCONNECT_EVT) && !SharesEvent(EventOf(r), ATTCLIENT_ATTRIBUTE_FOUND_EVT)
  {
  }

  lemma Symmetric(a: bv32, b: bv32)
    ensures SharesEvent(a, b) <==> SharesEvent(b, a)
  {
  }

  // a is one of the four events that are no responses; which one, if it meets b.
  lemma DistinctOthers(a: bv32, b: bv32)
    requires a in [GAP_CONNECTION_EVT, CONNECTION_UPDATE_EVT, CONNECTION_DISCONNECT_EVT, ATTCLIENT_ATTRIBUTE_FOUND_EVT]
    requires b in [GAP_CONNECTION_EVT, CONNECTION_UPDATE_EVT, CONNECTION_DISCONNECT_EVT, ATTCLIENT_ATTRIBUTE_FOUND_EVT]
    ensures SharesEvent(a, b) <==> a == b
  {
  }

  // A response completes a wait for that response alone: of the handle it is
  // about, or of handle 0 where it is about none; its result is the code, 0
  // where it has none.
  lemma ResponseCompletes(m: Message, r: Response, ch: Handle)
    ensures Completes(m, EventOf(r), ch) <==>
      m.Answer? && m.response == r && ch == if r in [GetInfo, GetMaxConnections, Discover, SetScanParameters, EndProcedure, ConnectDirect] then 0 else m.handle
    ensures Completes(m, EventOf(r), ch) ==>
      Posts(m).value.code == if r in [GetInfo, GetMaxConnections, GetStatus] then 0 else m.result
  {
    hide SharesEvent, EventOf;
    match m
    case Answer(q, _, _) => DistinctEvents(r, q);
    case _ => DistinctEvents(r, r);
  }

  // The four events that are no responses: a new connection, for handle 0;
  // changed parameters; a lost connection; an attribute's value.
  lemma EventCompletes(m: Message, ch: Handle)
    ensures Completes(m, GAP_CONNECTION_EVT, ch) <==> m.Status? && m.flags & 1 != 0 && m.flags & 4 != 0 && ch == 0
    ensures Completes(m, CONNECTION_UPDATE_EVT, ch) <==> m.Status? && m.flags & 1 != 0 && m.flags & 4 == 0 && ch == m.handle
    ensures Completes(m, CONNECTION_DISCONNECT_EVT, ch) <==> m == Disconnected(ch)
    ensures Completes(m, ATTCLIENT_ATTRIBUTE_FOUND_EVT, ch) <==> m.AttributeValue? && ch == m.handle
    ensures Posts(m).Some? && !m.Answer? ==> Posts(m).value.code == 0
  {
    hide SharesEvent, EventOf;
    if m.Answer? {
      var q := m.response;
      DistinctEvents(q, q);
      Symmetric(EventOf(q), GAP_CONNECTION_EVT);
      Symmetric(EventOf(q), CONNECTION_UPDATE_EVT);
      Symmetric(EventOf(q), CONNECTION_DISCONNECT_EVT);
      Symmetric(EventOf(q), ATTCLIENT_ATTRIBUTE_FOUND_EVT);
    } else if Posts(m).Some? {
      DistinctOthers(GAP_CONNECTION_EVT, Posts(m).value.event);
      DistinctOthers(CONNECTION_UPDATE_EVT, Posts(m).value.event);
      DistinctOthers(CONNECTION_DISCONNECT_EVT, Posts(m).value.event);
      DistinctOthers(ATTCLIENT_ATTRIBUTE_FOUND_EVT, Posts(m).value.event);
    }
  }

  // One turn of a waiting loop: the clock it reads first, then what comes in.
  datatype Incoming = Arrives(message: Message) | Nothing | ClientGone
  datatype Turn = Turn(now: int, incoming: Incoming)

  const TIMEOUT_CODE: nat := 2

  // The code a wait ends with and the number of turns it takes.
  function Wait(turns: seq<Turn>, ce: bv32, ch: Handle, deadline: int): (r: (nat, nat))
    ensures r.1 <= |turns|
  {
    if turns == [] || turns[0].now >= deadline then (TIMEOUT_CODE, 0)
    else if turns[0].incoming.ClientGone? then (TIMEOUT_CODE, 1)
    else if turns[0].incoming.Arrives? && Completes(turns[0].incoming.message, ce, ch) then
      (Posts(turns[0].incoming.message).value.code, 1)
    else
      var r := Wait(turns[1..], ce, ch, deadline);
      (r.0, r.1 + 1)
  }

  predicate InTime(t: Turn, deadline: int) {
    t.now < deadline && !t.incoming.ClientGone?
  }

  predicate Matches(t: Turn, ce: bv32, ch: Handle) {
    t.incoming.Arrives? && Completes(t.incoming.message, ce, ch)
  }

  // The turn that ends a wait successfully: the first match, with the clock
  // and the connection holding until then.
  predicate FirstMatch(turns: seq<Turn>, ce: bv32, ch: Handle, deadline: int, k: nat) {
    && k < |turns| && Matches(turns[k], ce, ch) && turns[k].now < deadline
    && forall j :: 0 <= j < k ==> InTime(turns[j], deadline) && !Matches(turns[j], ce, ch)
  }

  // The response to the command arrives in time, with result c, at turn k.
  predicate Answered(turns: seq<Turn>, h: Handle, deadline: int, k: nat, c: nat) {
    && k < |turns| && turns[k].now < deadline && turns[k].incoming == Arrives(Answer(DisconnectResponse, h, c))
    && forall j :: 0 <= j < k ==> InTime(turns[j], deadline) && !IsResponse(turns[j].incoming, h)
  }

  predicate IsResponse(i: Incoming, h: Handle) {
    i.Arrives? && i.message.Answer? && i.message.response == DisconnectResponse && i.message.handle == h
  }

  // The disconnect event arrives in time at turn k.
  predicate Ended(turns: seq<Turn>, h: Handle, deadline: int, k: nat) {
    && k < |turns| && turns[k].now < deadline && turns[k].incoming == Arrives(Disconnected(h))
    && forall j :: 0 <= j < k ==> InTime(turns[j], deadline) && turns[j].incoming != Arrives(Disconnected(h))
  }

  lemma AnsweredIsFirst(turns: seq<Turn>, h: Handle, deadline: int, k: nat)
    ensures FirstMatch(turns, CONNECTION_DISCONNECT_RSP_EVT, h, deadline, k) <==> exists c :: Answered(turns, h, deadline, k, c)
    ensures forall c :: Answered(turns, h, deadline, k, c) ==> Posts(turns[k].incoming.message).value.code == c
  {
    hide Completes, Posts;
    forall j | 0 <= j < |turns| ensures Matches(turns[j], CONNECTION_DISCONNECT_RSP_EVT, h) <==> IsResponse(turns[j].incoming, h) {
      if turns[j].incoming.Arrives? {
        ResponseCompletes(turns[j].incoming.message, DisconnectResponse, h);
      }
    }
    if k < |turns| && IsResponse(turns[k].incoming, h) {
      ResponseCompletes(turns[k].incoming.message, DisconnectResponse, h);
      var c := turns[k].incoming.message.result;
      assert turns[k].incoming == Arrives(Answer(DisconnectResponse, h, c));
      assert FirstMatch(turns, CONNECTION_DISCONNECT_RSP_EVT, h, deadline, k) <==> Answered(turns, h, deadline, k, c);
    }
  }

  lemma EndedIsFirst(turns: seq<Turn>, h: Handle, deadline: int, k: nat)
    ensures FirstMatch(turns, CONNECTION_DISCONNECT_EVT, h, deadline, k) <==> Ended(turns, h, deadline, k)
    ensures Ended(turns, h, deadline, k) ==> Posts(turns[k].incoming.message).value.code == 0
  {
    hide SharesEvent;
    forall j | 0 <= j < |turns|
      ensures Matches(turns[j], CONNECTION_DISCONNECT_EVT, h) <==> turns[j].incoming == Arrives(Disconnected(h))
    {
      if turns[j].incoming.Arrives? {
        EventCompletes(turns[j].incoming.message, h);
      }
    }
    if k < |turns| && turns[k].incoming.Arrives? {
      EventCompletes(turns[k].incoming.message, h);
    }
  }

  lemma {:induction false} WaitFindsFirst(turns: seq<Turn>, ce: bv32, ch: Handle, deadline: int, k: nat)
    requires FirstMatch(turns, ce, ch, deadline, k)
    ensures Wait(turns, ce, ch, deadline) == (Posts(turns[k].incoming.message).value.code, k + 1)
    decreases k
  {
    hide Completes, Posts;
    if k > 0 {
      assert InTime(turns[0], deadline);
      forall j | 0 <= j < k - 1 ensures InTime(turns[1..][j], deadline) && !Matches(turns[1..][j], ce, ch) {
        assert InTime(turns[j + 1], deadline);
      }
      WaitFindsFirst(turns[1..], ce, ch, deadline, k - 1);
    }
  }

  // Without such a turn the wait ends with the timeout code.
  lemma {:induction false} WaitTimesOut(turns: seq<Turn>, ce: bv32, ch: Handle, deadline: int)
    requires forall k :: 0 <= k < |turns| ==> !FirstMatch(turns, ce, ch, deadline, k)
    ensures Wait(turns, ce, ch, deadline).0 == TIMEOUT_CODE
    decreases |turns|
  {
    hide Completes, Posts;
    if turns != [] && InTime(turns[0], deadline) && !Matches(turns[0], ce, ch) {
      forall k | 0 <= k < |turns[1..]| ensures !FirstMatch(turns[1..], ce, ch, deadline, k) {
        assert !FirstMatch(turns, ce, ch, deadline, k + 1);
        NotFirstLater(turns, ce, ch, deadline, k);
      }
      WaitTimesOut(turns[1..], ce, ch, deadline);
    } else if turns != [] {
      assert !FirstMatch(turns, ce, ch, deadline, 0);
    }
  }

  lemma NotFirstLater(turns: seq<Turn>, ce: bv32, ch: Handle, deadline: int, k: nat)
    requires turns != [] && InTime(turns[0], deadline) && !Matches(turns[0], ce, ch) && k < |turns| - 1
    requires !FirstMatch(turns, ce, ch, deadline, k + 1)
    ensures !FirstMatch(turns[1..], ce, ch, deadline, k)
  {
    hide Completes;
    if FirstMatch(turns[1..], ce, ch, deadline, k) {
      forall j | 0 <= j < k + 1 ensures InTime(turns[j], deadline) && !Matches(turns[j], ce, ch) {
        if j > 0 {
          assert turns[j] == turns[1..][j - 1];
        }
      }
      assert false;
    }
  }
}
