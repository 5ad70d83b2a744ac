// Advertisement data: length, type and data records, as section 11 of the
// Bluetooth Core Specification, volume 3, part C lays them out.
module Advertisement {
  import opened Bytes

  const BGAPI_PAYLOAD_SIZE: nat := 60

  datatype Record = Record(kind: byte, data: bytes)

  predicate RecordOk(r: Record) {
    |r.data| <= 254
  }

  // The length byte counts the type byte and the data.
  function Encoded(r: Record): bytes
    requires RecordOk(r)
  {
    [1 + |r.data|, r.kind] + r.data
  }

  function Packet(rs: seq<Record>): bytes
    requires forall r :: r in rs ==> RecordOk(r)
  {
    if rs == [] then [] else Encoded(rs[0]) + Packet(rs[1..])
  }

  function Records(raw: bytes): Option<seq<Record>>
    decreases |raw|
  {
    if raw == [] then Some([])
    else
      var length := raw[0];
      if length >= |raw| || length == 0 then None
      else
        Joined([Record(raw[1], raw[2..length + 1])], Records(raw[length + 1..]))
  }

  function Joined(rs: seq<Record>, rest: Option<seq<Record>>): Option<seq<Record>> {
    if rest.Some? then Some(rs + rest.value) else None
  }

  lemma JoinedTwice(rs: seq<Record>, r: Record, rest: Option<seq<Record>>)
    ensures Joined(rs, Joined([r], rest)) == Joined(rs + [r], rest)
    ensures Joined([], rest) == rest
    ensures Joined(rs, Some([])) == Some(rs)
  {
    if rest.Some? {
      assert rs + ([r] + rest.value) == rs + [r] + rest.value;
      assert [] + rest.value == rest.value;
    }
    assert rs + [] == rs;
  }

  // What each type stands for: the data of its last record.
  function Latest(rs: seq<Record>): map<byte, bytes> {
    if rs == [] then map[]
    else var n := |rs| - 1; Latest(rs[..n])[rs[n].kind := rs[n].data]
  }

  // Accepted are exactly the concatenations of records, and the records are
  // those the packet is made of.
  lemma {:induction false} AcceptsPackets(raw: bytes, rs: seq<Record>)
    ensures Records(raw) == Some(rs) <==> (forall r :: r in rs ==> RecordOk(r)) && raw == Packet(rs)
    decreases |raw|
  {
    if Records(raw) == Some(rs) {
      Assembled(raw, rs);
    }
    if (forall r :: r in rs ==> RecordOk(r)) && raw == Packet(rs) {
      Disassembled(rs);
    }
  }

  lemma {:induction false} Assembled(raw: bytes, rs: seq<Record>)
    requires Records(raw) == Some(rs)
    ensures (forall r :: r in rs ==> RecordOk(r)) && raw == Packet(rs)
    decreases |raw|
  {
    if raw != [] {
      var n := raw[0];
      Assembled(raw[n + 1..], rs[1..]);
      assert rs == [rs[0]] + rs[1..];
      Pieces(raw, n);
    }
  }

  lemma Pieces(raw: bytes, n: nat)
    requires 1 <= n < |raw|
    ensures raw == [raw[0], raw[1]] + raw[2..n + 1] + raw[n + 1..]
  {
  }

  lemma {:induction false} Disassembled(rs: seq<Record>)
    requires forall r :: r in rs ==> RecordOk(r)
    ensures Records(Packet(rs)) == Some(rs)
    decreases |rs|
  {
    if rs != [] {
      var raw, rest := Packet(rs), Packet(rs[1..]);
      var n := 1 + |rs[0].data|;
      Disassembled(rs[1..]);
      assert raw[n + 1..] == rest && raw[2..n + 1] == rs[0].data;
      assert rs == [rs[0]] + rs[1..];
    }
  }

  lemma {:induction false} LatestIsLast(rs: seq<Record>, kind: byte)
    ensures kind in Latest(rs) <==> exists k :: 0 <= k < |rs| && rs[k].kind == kind
    ensures forall k :: 0 <= k < |rs| && rs[k].kind == kind && (forall j :: k < j < |rs| ==> rs[j].kind != kind) ==>
      kind in Latest(rs) && Latest(rs)[kind] == rs[k].data
    decreases |rs|
  {
    if rs != [] {
      var before := rs[..|rs| - 1];
      LatestIsLast(before, kind);
      assert forall k :: 0 <= k < |before| ==> before[k] == rs[k];
      if exists k :: 0 <= k < |rs| && rs[k].kind == kind {
        var k :| 0 <= k < |rs| && rs[k].kind == kind;
        assert k < |before| ==> before[k].kind == kind;
      }
    }
  }

  lemma RecordsStep(raw: bytes)
    requires raw != []
    ensures raw[0] >= |raw| || raw[0] == 0 ==> Records(raw) == None
    ensures 0 < raw[0] < |raw| ==> Records(raw) == Joined([Record(raw[1], raw[2..raw[0] + 1])], Records(raw[raw[0] + 1..]))
  {
    hide Joined;
  }

  lemma RecordsEnd()
    ensures Records([]) == Some([])
  {
  }

  lemma NothingJoined(rs: seq<Record>)
    ensures Joined(rs, None) == None
  {
  }

  // memcpy into the fixed payload array of one AdvertisementPayload.
  method CopyPayload(raw: bytes, from: nat, n: nat) returns (data: array<byte>)
    requires from + n <= |raw| && n <= BGAPI_PAYLOAD_SIZE
    ensures fresh(data) && data.Length == BGAPI_PAYLOAD_SIZE && data[..n] == raw[from..from + n]
  {
    data := new byte[BGAPI_PAYLOAD_SIZE](_ => 0);
    for k := 0 to n
      invariant data[..k] == raw[from..from + k]
    {
      data[k] := raw[from + k];
      assert data[..k + 1] == data[..k] + [data[k]];
    }
  }

  // ParseBGAPIAdvertisementPacket, for the packets its caller lets through. An
  // exception is an empty result.
  method ParseBGAPIAdvertisementPacket(rawData: bytes) returns (dataMap: Option<map<byte, bytes>>)
    requires |rawData| <= BGAPI_PAYLOAD_SIZE
    ensures var rs := Records(rawData); dataMap == if rs.Some? then Some(Latest(rs.value)) else None
  {
    var found: map<byte, bytes> := map[];
    var i := 0;
    ghost var rs: seq<Record> := [];
    hide Joined, Records;
    assert rawData[0..] == rawData;
    JoinedTwice([], Record(0, []), Records(rawData));
    while i < |rawData|
      invariant 0 <= i <= |rawData| && found == Latest(rs)
      invariant Records(rawData) == Joined(rs, Records(rawData[i..]))
    {
      ghost var here := rawData[i..];
      RecordsStep(here);
      var length := rawData[i];
      if i + length >= |rawData| {
        NothingJoined(rs);
        return None;
      } else if length <= 0 {
        NothingJoined(rs);
        return None;
      }
      var kind := rawData[i + 1];
      var data := CopyPayload(rawData, i + 2, length - 1);
      found := found[kind := data[..length - 1]];
      ghost var r := Record(kind, data[..length - 1]);
      assert here[2..length + 1] == rawData[i + 2..i + length + 1];
      assert here[length + 1..] == rawData[i + length + 1..];
      JoinedTwice(rs, r, Records(here[length + 1..]));
      assert (rs + [r])[..|rs|] == rs;
      rs := rs + [r];
      i := i + length + 1;
    }
    assert rawData[i..] == [];
    RecordsEnd();
    JoinedTwice(rs, Record(0, []), Some([]));
    dataMap := Some(found);
  }

  // The caller's check comes first: longer packets are refused unread.
  method Receive(payload: bytes) returns (dataMap: Option<map<byte, bytes>>)
    ensures dataMap.Some? <==> |payload| <= BGAPI_PAYLOAD_SIZE && Records(payload).Some?
    ensures dataMap.Some? ==> dataMap.value == Latest(Records(payload).value)
  {
    if |payload| > BGAPI_PAYLOAD_SIZE {
      return None;
    }
    dataMap := ParseBGAPIAdvertisementPacket(payload);
  }
}
