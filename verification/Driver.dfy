// The driver: callbacks, the register of waiting commands, and Disconnect.
module Driver {
  import opened Bytes
  import opened DriverState

  const EVENT_TIMEOUT: nat := 200
  const NO_RESULT: nat := 3          // error code of a fresh event structure

  // ConnectionEventStruct with the variable its eventHandle points to.
  class Waiter {
    const handle: Handle
    var occurred: bool
    var errorCode: nat

    constructor (handle: Handle)
      ensures this.handle == handle && !occurred && errorCode == NO_RESULT
    {
      this.handle := handle;
      occurred := false;
      errorCode := NO_RESULT;
    }
  }

  datatype Entry = Entry(event: bv32, waiter: Waiter)

  predicate Wanted(e: Entry, ce: bv32, ch: Handle) {
    SharesEvent(e.event, ce) && e.waiter.handle == ch
  }

  // ----- erasing inside the range-for -----

  // The loop of PostCompletionEvent over the register: it walks `steps` places,
  // the length at the start, while erase shortens the vector under it. None
  // means that it looks at a place that is no longer there.
  function Swept(register: seq<Entry>, at: nat, steps: nat, ce: bv32, ch: Handle): Option<seq<Entry>>
    requires at <= steps
    decreases steps - at
  {
    if at == steps then Some(register)
    else if at >= |register| then None
    else if Wanted(register[at], ce, ch) then Swept(register[..at] + register[at + 1..], at + 1, steps, ce, ch)
    else Swept(register, at + 1, steps, ce, ch)
  }

  // The sweep is well behaved if and only if no entry but the last one matches.
  lemma {:induction false} SweepExactly(register: seq<Entry>, at: nat, steps: nat, ce: bv32, ch: Handle)
    requires at <= steps && |register| <= steps
    ensures Swept(register, at, steps, ce, ch).Some? <==>
      at == steps || (|register| == steps && forall k :: at <= k < steps - 1 ==> !Wanted(register[k], ce, ch))
    decreases steps - at
  {
    hide Wanted;
    if at < |register| && at < steps {
      if Wanted(register[at], ce, ch) {
        SweepExactly(register[..at] + register[at + 1..], at + 1, steps, ce, ch);
      } else {
        SweepExactly(register, at + 1, steps, ce, ch);
      }
    }
  }

  // With at most one waiting command it always is, and removes exactly a match.
  lemma OneWaiterIsSafe(register: seq<Entry>, ce: bv32, ch: Handle)
    requires |register| <= 1
    ensures Swept(register, 0, |register|, ce, ch)
         == Some(if register != [] && Wanted(register[0], ce, ch) then [] else register)
  {
    if register != [] {
      assert register[..0] + register[0 + 1..] == [];
    }
  }

  // What a wait or a callback leaves in the register of one command at most.
  function Left(register: seq<Entry>, p: Option<Post>): seq<Entry>
    requires |register| <= 1
  {
    if p.Some? && register != [] && Wanted(register[0], p.value.event, p.value.handle) then [] else register
  }

  // The messages among the turns of a loop.
  function Logged(turns: seq<Turn>): seq<Step> {
    if turns == [] then []
    else
      var n := |turns| - 1;
      Logged(turns[..n]) + if turns[n].incoming.Arrives? then [Received(turns[n].incoming.message)] else []
  }

  lemma RunOne(log: seq<Step>, s: Step)
    ensures Run(log + [s]) == ApplyStep(Run(log), s)
  {
    assert (log + [s])[..|log|] == log;
  }

  predicate ClientStays(turns: seq<Turn>) {
    forall k :: 0 <= k < |turns| ==> !turns[k].incoming.ClientGone?
  }

  lemma StaysStep(turns: seq<Turn>, n: nat)
    requires n < |turns|
    ensures ClientStays(turns[..n + 1]) <==> ClientStays(turns[..n]) && !turns[n].incoming.ClientGone?
  {
    if ClientStays(turns[..n + 1]) {
      assert forall k :: 0 <= k < n ==> turns[..n][k] == turns[..n + 1][k];
      assert turns[..n + 1][n] == turns[n];
    }
  }

  function Ahead(r: (nat, nat), n: nat): (nat, nat) {
    (r.0, r.1 + n)
  }

  // How the wait will end, seen from its n-th turn.
  function Outlook(turns: seq<Turn>, ce: bv32, ch: Handle, deadline: int, occurred: bool, code: nat, connected: bool, n: nat): (nat, nat) {
    if occurred then (code, n)
    else if !connected then (TIMEOUT_CODE, n)
    else Ahead(Wait(turns, ce, ch, deadline), n)
  }

  lemma OutlookStep(turns: seq<Turn>, ce: bv32, ch: Handle, deadline: int, n: nat)
    requires turns != [] && turns[0].now < deadline
    ensures var m := Matches(turns[0], ce, ch);
      Ahead(Wait(turns, ce, ch, deadline), n)
      == Outlook(turns[1..], ce, ch, deadline, m, if m then Posts(turns[0].incoming.message).value.code else 0,
                 !turns[0].incoming.ClientGone?, n + 1)
  {
    hide Completes, Posts;
  }

  lemma OutlookEnd(turns: seq<Turn>, ce: bv32, ch: Handle, deadline: int, occurred: bool, code: nat, connected: bool, n: nat)
    requires occurred || !connected || turns == [] || turns[0].now >= deadline
    ensures Outlook(turns, ce, ch, deadline, occurred, code, connected, n) == (if occurred then code else TIMEOUT_CODE, n)
  {
  }

  lemma WaitStep(turns: seq<Turn>, ce: bv32, ch: Handle, deadline: int)
    requires turns != [] && turns[0].now < deadline
    ensures Wait(turns, ce, ch, deadline) ==
      if turns[0].incoming.ClientGone? then (TIMEOUT_CODE, 1)
      else if Matches(turns[0], ce, ch) then (Posts(turns[0].incoming.message).value.code, 1)
      else Ahead(Wait(turns[1..], ce, ch, deadline), 1)
  {
    hide Completes, Posts;
  }

  lemma WaitOver(turns: seq<Turn>, ce: bv32, ch: Handle, deadline: int)
    requires turns == [] || turns[0].now >= deadline
    ensures Wait(turns, ce, ch, deadline) == (TIMEOUT_CODE, 0)
  {
  }

  lemma LoggedStep(turns: seq<Turn>, n: nat)
    requires n < |turns|
    ensures Logged(turns[..n + 1])
         == Logged(turns[..n]) + if turns[n].incoming.Arrives? then [Received(turns[n].incoming.message)] else []
  {
    assert turns[..n + 1][..n] == turns[..n];
  }

  lemma NothingLogged(log: seq<Step>)
    ensures log + Logged([]) == log
  {
  }

  lemma WantsItself(e: Entry)
    requires e.event != 0
    ensures Wanted(e, e.event, e.waiter.handle)
  {
    SharesItself(e.event);
  }

  // The message completes the wait if and only if it releases the waiter.
  lemma MatchIsWanted(m: Message, e: Entry, ce: bv32, ch: Handle)
    requires e.event == ce && e.waiter.handle == ch
    ensures Completes(m, ce, ch) <==> Posts(m).Some? && Wanted(e, Posts(m).value.event, Posts(m).value.handle)
  {
    hide Posts, SharesEvent;
  }

  lemma SharesItself(a: bv32)
    requires a != 0
    ensures SharesEvent(a, a)
  {
  }

  // ----- the driver -----

  class BLED112 {
    var connectedDevices: Devices
    var completionEventRegister: seq<Entry>
    var isConnected: bool
    ghost var log: seq<Step>

    // Callbacks register nothing and commands wait one at a time. What the
    // driver holds is what the log of messages makes of it.
    ghost predicate Valid()
      reads this
    {
      |completionEventRegister| <= 1 && connectedDevices == Run(log)
    }

    constructor ()
      ensures Valid() && log == [] && completionEventRegister == [] && isConnected
    {
      connectedDevices, completionEventRegister, isConnected, log := map[], [], true, [];
    }

    ghost function Waiters(): set<Waiter>
      reads this
    {
      set e | e in completionEventRegister :: e.waiter
    }

    // Two waiting commands never share an event structure.
    ghost predicate DistinctWaiters()
      reads this
    {
      forall i, j :: 0 <= i < j < |completionEventRegister| ==> completionEventRegister[i].waiter != completionEventRegister[j].waiter
    }

    // What a post has done to an entry that was registered.
    twostate predicate Informed(e: Entry, ce: bv32, ch: Handle, code: nat)
      reads e.waiter
    {
      if Wanted(e, ce, ch) then e.waiter.occurred && e.waiter.errorCode == code
      else e.waiter.occurred == old(e.waiter.occurred) && e.waiter.errorCode == old(e.waiter.errorCode)
    }

    method PostCompletionEvent(ce: bv32, ch: Handle, code: nat)
      requires Swept(completionEventRegister, 0, |completionEventRegister|, ce, ch).Some? && DistinctWaiters()
      modifies this`completionEventRegister, Waiters()
      ensures Some(completionEventRegister) == Swept(old(completionEventRegister), 0, |old(completionEventRegister)|, ce, ch)
      ensures forall e :: e in old(completionEventRegister) ==> Informed(e, ce, ch, code)
    {
      hide Wanted;
      ghost var reg := completionEventRegister;
      SweepExactly(reg, 0, |reg|, ce, ch);
      var i, end := 0, |completionEventRegister|;
      while i != end
        invariant 0 <= i <= end == |reg|
        invariant Swept(reg, 0, end, ce, ch) == Swept(completionEventRegister, i, end, ce, ch)
        invariant i < end ==> completionEventRegister == reg
        invariant forall k :: 0 <= k < i ==> Informed(reg[k], ce, ch, code)
        invariant forall k :: i <= k < end ==>
          reg[k].waiter.occurred == old(reg[k].waiter.occurred) && reg[k].waiter.errorCode == old(reg[k].waiter.errorCode)
      {
        var e := completionEventRegister[i];
        if Wanted(e, ce, ch) {
          e.waiter.occurred := true;
          e.waiter.errorCode := code;
          completionEventRegister := completionEventRegister[..i] + completionEventRegister[i + 1..];
        }
        i := i + 1;
      }
    }

    method PostOne(ce: bv32, ch: Handle, code: nat)
      requires |completionEventRegister| <= 1
      modifies this`completionEventRegister, Waiters()
      ensures completionEventRegister == Left(old(completionEventRegister), Some(Post(ce, ch, code)))
      ensures forall e :: e in old(completionEventRegister) ==> Informed(e, ce, ch, code)
    {
      OneWaiterIsSafe(completionEventRegister, ce, ch);
      PostCompletionEvent(ce, ch, code);
    }

    // What every callback does, `register` being the register it finds.
    twostate predicate Handled(register: seq<Entry>, m: Message)
      requires |register| <= 1
      reads this, set e | e in register :: e.waiter
    {
      && connectedDevices == Apply(old(connectedDevices), m)
      && completionEventRegister == Left(register, Posts(m))
      && forall e :: e in register ==>
           if Posts(m).Some? then Informed(e, Posts(m).value.event, Posts(m).value.handle, Posts(m).value.code)
           else e.waiter.occurred == old(e.waiter.occurred) && e.waiter.errorCode == old(e.waiter.errorCode)
    }

    method BleEvtConnectionGetStatus(h: Handle, flags: bv8, mac: bytes, parameters: seq<nat>)
      requires Valid()
      modifies this`connectedDevices, this`completionEventRegister, Waiters()
      ensures Handled(old(completionEventRegister), Status(h, flags, mac, parameters))
    {
      if flags & CONNECTED != 0 {
        var attributes := if h in connectedDevices then connectedDevices[h].attributes else map[];
        connectedDevices := connectedDevices[h := Device(mac, flags, parameters, attributes)];
        if flags & COMPLETED != 0 {
          PostOne(GAP_CONNECTION_EVT, 0, 0);
        } else {
          PostOne(CONNECTION_UPDATE_EVT, h, 0);
        }
      }
    }

    method BleEvtConnectionDisconnect(h: Handle)
      requires Valid()
      modifies this`connectedDevices, this`completionEventRegister, Waiters()
      ensures Handled(old(completionEventRegister), Disconnected(h))
    {
      PostOne(CONNECTION_DISCONNECT_EVT, h, 0);
      connectedDevices := connectedDevices - {h};
    }

    // ParseUUID: the bytes in reverse, or an exception.
    method ParseUUID(raw: bytes) returns (uuid: Option<bytes>)
      ensures uuid == if UuidOk(raw) then Some(Reverse(raw)) else None
    {
      if !(|raw| <= UUID_SIZE && |raw| > 0) {
        return None;
      }
      var addr: bytes := [];
      var at := |raw|;
      while at > 0
        invariant 0 <= at <= |raw| && |addr| == |raw| - at
        invariant forall k :: 0 <= k < |addr| ==> addr[k] == raw[|raw| - 1 - k]
      {
        at := at - 1;
        addr := addr + [raw[at]];
      }
      assert addr == Reverse(raw);
      uuid := Some(addr);
    }

    method BleEvtGattServiceFound(h: Handle, start: nat, end: nat, raw: bytes)
      requires Valid()
      modifies this`connectedDevices
      ensures connectedDevices == Apply(old(connectedDevices), ServiceFound(h, start, end, raw))
    {
      var serviceUuid := ParseUUID(raw);
      if serviceUuid.Some? && h in connectedDevices {
        var x := AttributeAt(connectedDevices[h], start);
        x := x.(serviceUuid := serviceUuid.value);
        x := x.(uuid := [0x28, 0x00]);
        x := x.(endHandle := end);
        connectedDevices := WithAttribute(connectedDevices, h, start, x);
      }
    }

    method BleEvtGattAttributeInfoFound(h: Handle, a: nat, raw: bytes)
      requires Valid()
      modifies this`connectedDevices
      ensures connectedDevices == Apply(old(connectedDevices), AttributeInfo(h, a, raw))
    {
      var uuid := ParseUUID(raw);
      if uuid.Some? && h in connectedDevices {
        connectedDevices := WithAttribute(connectedDevices, h, a, AttributeAt(connectedDevices[h], a).(uuid := uuid.value));
      }
    }

    // The payload is copied byte by byte into the emptied cache.
    method BleEvtGattAttributeValue(h: Handle, a: nat, kind: nat, data: bytes)
      requires Valid()
      modifies this`connectedDevices, this`completionEventRegister, Waiters()
      ensures Handled(old(completionEventRegister), AttributeValue(h, a, kind, data))
    {
      if h in connectedDevices {
        var x := AttributeAt(connectedDevices[h], a).(attributeType := kind);
        var rawData: bytes := [];
        var i := 0;
        while i < |data|
          invariant 0 <= i <= |data| && rawData == data[..i]
        {
          rawData := rawData + [data[i]];
          i := i + 1;
        }
        assert data[..|data|] == data;
        connectedDevices := WithAttribute(connectedDevices, h, a, x.(rawData := rawData));
      }
      PostOne(ATTCLIENT_ATTRIBUTE_FOUND_EVT, h, 0);
    }

    method BleResponse(r: Response, h: Handle, result: nat)
      requires Valid()
      modifies this`completionEventRegister, Waiters()
      ensures Handled(old(completionEventRegister), Answer(r, h, result))
    {
      PostOne(EventOf(r), if Unaddressed(r) then 0 else h, if Resultless(r) then 0 else result);
    }

    // DecodeIncomingTCPMessage
    method DecodeIncomingMessage(m: Message)
      requires Valid()
      modifies this`connectedDevices, this`completionEventRegister, this`log, Waiters()
      ensures Valid() && log == old(log) + [Received(m)] && Handled(old(completionEventRegister), m)
    {
      hide Apply, Run;
      match m {
        case Status(h, flags, mac, parameters) =>
          BleEvtConnectionGetStatus(h, flags, mac, parameters);
        case Disconnected(h) =>
          BleEvtConnectionDisconnect(h);
        case ServiceFound(h, start, end, uuid) =>
          BleEvtGattServiceFound(h, start, end, uuid);
        case AttributeInfo(h, a, uuid) =>
          BleEvtGattAttributeInfoFound(h, a, uuid);
        case AttributeValue(h, a, kind, data) =>
          BleEvtGattAttributeValue(h, a, kind, data);
        case Answer(r, h, result) =>
          BleResponse(r, h, result);
        case Other =>
          OtherChangesNothing(connectedDevices);
      }
      RunOne(log, Received(m));
      log := log + [Received(m)];
    }

    // The first handle in key order with this address.
    method MACToConnectionHandle(mac: bytes) returns (found: bool, h: Handle)
      requires Valid()
      ensures found <==> exists k: Handle :: KnownAs(log, k, mac)
      ensures found <==> exists k: Handle :: k in connectedDevices && connectedDevices[k].mac == mac
      ensures found ==> h in connectedDevices && connectedDevices[h].mac == mac
      ensures found ==> forall k: Handle :: k < h && k in connectedDevices ==> connectedDevices[k].mac != mac
    {
      hide KnownAs, Run;
      forall k: Handle ensures k in connectedDevices && connectedDevices[k].mac == mac <==> KnownAs(log, k, mac) {
        AddressKnown(log, k, mac);
      }
      found, h := false, 0;
      var c: int := 0;
      while c < 256
        invariant 0 <= c <= 256
        invariant forall k: Handle :: k < c && k in connectedDevices ==> connectedDevices[k].mac != mac
      {
        if c in connectedDevices && connectedDevices[c].mac == mac {
          return true, c;
        }
        c := c + 1;
      }
    }

    // GetAttribute, which is also how ReadAttribute looks a cached attribute
    // up. Both maps are indexed, so that a device or an attribute that is not
    // there is made; `mac` is what a new device's address happens to hold.
    method GetAttribute(h: Handle, a: nat, mac: bytes) returns (x: Attribute)
      requires Valid()
      modifies this`connectedDevices, this`log
      ensures Valid() && log == old(log) + [Looked(h, Some(a), mac)]
      ensures x == if h in old(connectedDevices) then AttributeAt(old(connectedDevices)[h], a) else NEW_ATTRIBUTE
      ensures h in connectedDevices && AttributeAt(connectedDevices[h], a) == x
      ensures forall k :: k != h && k in old(connectedDevices) ==> k in connectedDevices && connectedDevices[k] == old(connectedDevices)[k]
    {
      RunOne(log, Looked(h, Some(a), mac));
      if h !in connectedDevices {
        connectedDevices := connectedDevices[h := Device(mac, 0, [], map[])];
      }
      if a !in connectedDevices[h].attributes {
        connectedDevices := WithAttribute(connectedDevices, h, a, NEW_ATTRIBUTE);
      } else {
        PutAgain(connectedDevices, h, a);
      }
      x := connectedDevices[h].attributes[a];
      assert connectedDevices == ApplyStep(old(connectedDevices), Looked(h, Some(a), mac));
      log := log + [Looked(h, Some(a), mac)];
    }

    method GetConnectionInfo(h: Handle, mac: bytes) returns (d: Device)
      requires Valid()
      modifies this`connectedDevices, this`log
      ensures Valid() && log == old(log) + [Looked(h, None, mac)] && h in connectedDevices && connectedDevices[h] == d
      ensures h in old(connectedDevices) ==> connectedDevices == old(connectedDevices)
      ensures h !in old(connectedDevices) ==> d.flags & CONNECTED == 0 && d.attributes == map[] && connectedDevices - {h} == old(connectedDevices)
    {
      RunOne(log, Looked(h, None, mac));
      if h !in connectedDevices {
        connectedDevices := connectedDevices[h := Device(mac, 0, [], map[])];
      }
      d := connectedDevices[h];
      assert connectedDevices == ApplyStep(old(connectedDevices), Looked(h, None, mac));
      log := log + [Looked(h, None, mac)];
    }

    // ProcessTCPMsgFromSocket while one command waits.
    method TakeTurn(turn: Turn, ghost ce: bv32, ghost w: Waiter)
      requires Valid() && completionEventRegister == [Entry(ce, w)] && !w.occurred
      modifies this, w
      ensures Valid() && isConnected == (old(isConnected) && !turn.incoming.ClientGone?)
      ensures log == old(log) + if turn.incoming.Arrives? then [Received(turn.incoming.message)] else []
      ensures w.occurred == Matches(turn, ce, w.handle)
      ensures w.occurred ==> w.errorCode == Posts(turn.incoming.message).value.code
      ensures completionEventRegister == if w.occurred then [] else [Entry(ce, w)]
    {
      hide Completes, Posts, Apply, Run, SharesEvent;
      match turn.incoming {
        case Arrives(m) =>
          MatchIsWanted(m, Entry(ce, w), ce, w.handle);
          assert Entry(ce, w) in completionEventRegister;
          DecodeIncomingMessage(m);
        case Nothing =>
        case ClientGone =>
          isConnected := false;
      }
    }

    // Registers, takes turns until released, out of time or out of connection,
    // and releases itself with the timeout code in the end. The turns stand for
    // what ProcessTCPMsgFromSocket brings; when they run out the time is up.
    method WaitForCompletionEvent(ce: bv32, ch: Handle, waitTime: nat, begTime: int, turns: seq<Turn>)
      returns (conEvStr: Waiter, used: nat)
      requires Valid() && completionEventRegister == [] && ce != 0
      modifies this
      ensures Valid() && completionEventRegister == [] && fresh(conEvStr) && used <= |turns|
      ensures var r := if old(isConnected) then Wait(turns, ce, ch, begTime + waitTime) else (TIMEOUT_CODE, 0);
        conEvStr.errorCode == r.0 && used == r.1
      ensures log == old(log) + Logged(turns[..used])
      ensures isConnected == (old(isConnected) && ClientStays(turns[..used]))
    {
      hide Completes, Posts, Apply, Run, SharesEvent, Wait, Logged, Wanted;
      conEvStr := new Waiter(ch);
      completionEventRegister := completionEventRegister + [Entry(ce, conEvStr)];
      used := Pump(ce, conEvStr, waitTime, begTime, turns);
      if !conEvStr.occurred {
        WantsItself(Entry(ce, conEvStr));
        assert Entry(ce, conEvStr) in completionEventRegister;
        PostOne(ce, ch, TIMEOUT_CODE);
      }
    }

    // The loop of WaitForCompletionEvent.
    method Pump(ghost ce: bv32, w: Waiter, waitTime: nat, begTime: int, turns: seq<Turn>) returns (used: nat)
      requires Valid() && completionEventRegister == [Entry(ce, w)] && !w.occurred
      modifies this, w
      ensures Valid() && used <= |turns| && log == old(log) + Logged(turns[..used])
      ensures var r := if old(isConnected) then Wait(turns, ce, w.handle, begTime + waitTime) else (TIMEOUT_CODE, 0);
        used == r.1 && r.0 == if w.occurred then w.errorCode else TIMEOUT_CODE
      ensures completionEventRegister == if w.occurred then [] else [Entry(ce, w)]
      ensures isConnected == (old(isConnected) && ClientStays(turns[..used]))
    {
      hide Completes, Posts, Apply, Run, SharesEvent, Wait, Logged, Wanted;
      used := 0;
      ghost var deadline, was := begTime + waitTime, isConnected;
      assert turns[0..] == turns && turns[..0] == [];
      NothingLogged(log);
      while !w.occurred && isConnected && used < |turns| && turns[used].now - begTime < waitTime
        invariant Valid() && used <= |turns| && log == old(log) + Logged(turns[..used])
        invariant isConnected == (was && ClientStays(turns[..used]))
        invariant completionEventRegister == if w.occurred then [] else [Entry(ce, w)]
        invariant was ==> Wait(turns, ce, w.handle, deadline) == Outlook(turns[used..], ce, w.handle, deadline, w.occurred, w.errorCode, isConnected, used)
        invariant !was ==> !w.occurred && used == 0
        decreases |turns| - used
      {
        ghost var here := turns[used..];
        OutlookStep(here, ce, w.handle, deadline, used);
        LoggedStep(turns, used);
        TakeTurn(turns[used], ce, w);
        StaysStep(turns, used);
        assert here[1..] == turns[used + 1..];
        used := used + 1;
      }
      OutlookEnd(turns[used..], ce, w.handle, deadline, w.occurred, w.errorCode, isConnected, used);
    }

    // Disconnect: the response to the command first, then the disconnect event.
    // `sent` tells whether the command could be written to the socket.
    method Disconnect(mac: bytes, sent: bool, begTime: int, begTime': int, turns: seq<Turn>)
      returns (found: bool, h: Handle, code: nat, used: nat)
      requires Valid() && completionEventRegister == []
      modifies this
      ensures Valid() && completionEventRegister == [] && used <= |turns|
      ensures found <==> exists k: Handle :: k in old(connectedDevices) && old(connectedDevices)[k].mac == mac
      ensures found ==> h in old(connectedDevices) && old(connectedDevices)[h].mac == mac
      ensures !found ==> code == 0 && used == 0
      ensures found && !sent ==> code == 1 && used == 0
      ensures found && sent ==> (code, used) == DisconnectResult(turns, h, begTime, begTime', old(isConnected))
      ensures log == old(log) + Logged(turns[..used])
      ensures found && code == 0 ==> h !in connectedDevices
    {
      hide Wait, Run, Apply, KnownAs;
      used := 0;
      assert turns[..0] == [] && log + [] == log;
      found, h := MACToConnectionHandle(mac);
      if !found {
        return found, h, 0, 0;
      }
      if !sent {
        return found, h, 1, 0;
      }
      var conEvSt, first := WaitForCompletionEvent(CONNECTION_DISCONNECT_RSP_EVT, h, EVENT_TIMEOUT, begTime, turns);
      if conEvSt.errorCode != 0 {
        return found, h, conEvSt.errorCode, first;
      }
      ghost var mid := log;
      var rest := turns[first..];
      WaitKeepsClient(turns, CONNECTION_DISCONNECT_RSP_EVT, h, begTime + EVENT_TIMEOUT);
      var second;
      conEvSt, second := WaitForCompletionEvent(CONNECTION_DISCONNECT_EVT, h, EVENT_TIMEOUT, begTime', rest);
      code := conEvSt.errorCode;
      used := first + second;
      LoggedTwice(turns, first, second);
      if code == 0 {
        WaitedForDisconnect(rest, h, begTime' + EVENT_TIMEOUT);
        LoggedStep(rest, second - 1);
        GoneAtEnd(mid + Logged(rest[..second - 1]), h);
        assert log == mid + Logged(rest[..second - 1]) + [Received(Disconnected(h))];
      }
    }
  }

  // The code and the turns of Disconnect once the command has been sent.
  function DisconnectResult(turns: seq<Turn>, h: Handle, begTime: int, begTime': int, connected: bool): (nat, nat) {
    if !connected then (TIMEOUT_CODE, 0)
    else
      var first := Wait(turns, CONNECTION_DISCONNECT_RSP_EVT, h, begTime + EVENT_TIMEOUT);
      if first.0 != 0 then first
      else Ahead(Wait(turns[first.1..], CONNECTION_DISCONNECT_EVT, h, begTime' + EVENT_TIMEOUT), first.1)
  }

  // The disconnect event comes in time at turn j of those behind turn k.
  predicate EndedBehind(turns: seq<Turn>, h: Handle, deadline: int, k: nat, j: nat) {
    k < |turns| && Ended(turns[k + 1..], h, deadline, j)
  }

  // A response with another result than 0 is the code; after a response with 0
  // the disconnect event makes it 0; if either does not come within 200 the
  // code is 2, and so it is without a connection to the client.
  lemma DisconnectCodes(turns: seq<Turn>, h: Handle, begTime: int, begTime': int, first: int, second: int)
    requires first == begTime + 200 && second == begTime' + 200
    ensures var result := DisconnectResult(turns, h, begTime, begTime', true);
      && (forall k: nat, c: nat :: Answered(turns, h, first, k, c) && c != 0 ==> result == (c, k + 1))
      && (forall k: nat, j: nat :: Answered(turns, h, first, k, 0) && EndedBehind(turns, h, second, k, j) ==> result == (0, k + j + 2))
      && (forall k: nat :: Answered(turns, h, first, k, 0) && (forall j: nat :: !EndedBehind(turns, h, second, k, j)) ==> result.0 == 2)
      && ((forall k: nat, c: nat :: !Answered(turns, h, first, k, c)) ==> result.0 == 2)
    ensures DisconnectResult(turns, h, begTime, begTime', false) == (2, 0)
  {
    hide Wait, Answered, Ended, FirstMatch, Posts;
    var result := DisconnectResult(turns, h, begTime, begTime', true);
    forall k: nat, c: nat | Answered(turns, h, first, k, c)
      ensures k + 1 <= |turns| && Wait(turns, CONNECTION_DISCONNECT_RSP_EVT, h, first) == (c, k + 1)
    {
      AnsweredIsFirst(turns, h, first, k);
      WaitFindsFirst(turns, CONNECTION_DISCONNECT_RSP_EVT, h, first, k);
    }
    forall k: nat, j: nat | Answered(turns, h, first, k, 0) && EndedBehind(turns, h, second, k, j) ensures result == (0, k + j + 2) {
      EndedIsFirst(turns[k + 1..], h, second, j);
      WaitFindsFirst(turns[k + 1..], CONNECTION_DISCONNECT_EVT, h, second, j);
    }
    forall k: nat | Answered(turns, h, first, k, 0) && (forall j: nat :: !EndedBehind(turns, h, second, k, j)) ensures result.0 == 2 {
      assert k + 1 <= |turns|;
      NeverEnds(turns, h, second, k);
    }
    if forall k: nat, c: nat :: !Answered(turns, h, first, k, c) {
      forall k: nat ensures !FirstMatch(turns, CONNECTION_DISCONNECT_RSP_EVT, h, first, k) {
        AnsweredIsFirst(turns, h, first, k);
      }
      WaitTimesOut(turns, CONNECTION_DISCONNECT_RSP_EVT, h, first);
    }
  }

  lemma NeverEnds(turns: seq<Turn>, h: Handle, deadline: int, k: nat)
    requires k < |turns| && forall j: nat :: !EndedBehind(turns, h, deadline, k, j)
    ensures Wait(turns[k + 1..], CONNECTION_DISCONNECT_EVT, h, deadline).0 == 2
  {
    hide Wait, Ended, FirstMatch;
    var rest := turns[k + 1..];
    forall j: nat ensures !FirstMatch(rest, CONNECTION_DISCONNECT_EVT, h, deadline, j) {
      EndedIsFirst(rest, h, deadline, j);
      assert !EndedBehind(turns, h, deadline, k, j);
    }
    WaitTimesOut(rest, CONNECTION_DISCONNECT_EVT, h, deadline);
  }

  // A wait that ends with another code than the one for time-outs has not lost
  // the client.
  lemma {:induction false} WaitKeepsClient(turns: seq<Turn>, ce: bv32, ch: Handle, deadline: int)
    requires Wait(turns, ce, ch, deadline).0 != TIMEOUT_CODE
    ensures ClientStays(turns[..Wait(turns, ce, ch, deadline).1])
    decreases |turns|
  {
    hide Completes, Posts, Wait;
    if turns == [] || turns[0].now >= deadline {
      WaitOver(turns, ce, ch, deadline);
    } else {
      WaitStep(turns, ce, ch, deadline);
      var n := Wait(turns, ce, ch, deadline).1;
      if !Matches(turns[0], ce, ch) && !turns[0].incoming.ClientGone? {
        WaitKeepsClient(turns[1..], ce, ch, deadline);
        forall k | 0 <= k < n ensures !turns[..n][k].incoming.ClientGone? {
          if k > 0 {
            assert turns[..n][k] == turns[1..][..n - 1][k - 1];
          }
        }
      }
    }
  }

  lemma PutAgain(devices: Devices, h: Handle, a: nat)
    requires h in devices && a in devices[h].attributes
    ensures WithAttribute(devices, h, a, devices[h].attributes[a]) == devices
  {
    assert devices[h].attributes[a := devices[h].attributes[a]] == devices[h].attributes;
  }

  lemma OtherChangesNothing(devices: Devices)
    ensures Apply(devices, Other) == devices
  {
  }

  lemma {:induction false} LoggedTwice(turns: seq<Turn>, m: nat, n: nat)
    requires m + n <= |turns|
    ensures Logged(turns[..m + n]) == Logged(turns[..m]) + Logged(turns[m..][..n])
    decreases n
  {
    if n == 0 {
      assert turns[m..][..0] == [];
    } else {
      LoggedTwice(turns, m, n - 1);
      LoggedStep(turns, m + n - 1);
      LoggedStep(turns[m..], n - 1);
      assert turns[m..][n - 1] == turns[m + n - 1];
    }
  }

  // Only a disconnect event for the handle completes a wait for one with 0, and
  // it is the last message handled.
  lemma {:induction false} WaitedForDisconnect(turns: seq<Turn>, h: Handle, deadline: int)
    requires Wait(turns, CONNECTION_DISCONNECT_EVT, h, deadline).0 == 0
    ensures var used := Wait(turns, CONNECTION_DISCONNECT_EVT, h, deadline).1;
      0 < used && turns[used - 1].incoming == Arrives(Disconnected(h))
    decreases |turns|
  {
    hide Completes, Posts, Wait;
    if turns == [] || turns[0].now >= deadline {
      WaitOver(turns, CONNECTION_DISCONNECT_EVT, h, deadline);
    } else {
      WaitStep(turns, CONNECTION_DISCONNECT_EVT, h, deadline);
      if Matches(turns[0], CONNECTION_DISCONNECT_EVT, h) {
        OnlyDisconnects(turns[0].incoming.message, h);
      } else if !turns[0].incoming.ClientGone? {
        WaitedForDisconnect(turns[1..], h, deadline);
      }
    }
  }

  lemma OnlyDisconnects(m: Message, h: Handle)
    requires Completes(m, CONNECTION_DISCONNECT_EVT, h)
    ensures m == Disconnected(h)
  {
    assert CONNECTION_DISCONNECT_EVT & CONNECTION_UPDATE_EVT == 0;
  }

  lemma GoneAtEnd(log: seq<Step>, h: Handle)
    ensures h !in Run(log + [Received(Disconnected(h))])
  {
    RunOne(log, Received(Disconnected(h)));
  }
}
