// ble_send_message: packets built by interpreting a descriptor, four bits an
// argument, lowest first.
module Bgapi {
  import opened Bytes

  // The first two bytes of a header, and a command's descriptor. The low three
  // bits of typeHilen are the high bits of the payload length.
  datatype Message = Message(typeHilen: bv8, lolen: byte, cls: byte, command: byte, params: nat)

  // What the caller passes for one argument.
  datatype Arg = Number(value: int) | Address(hw: bytes) | Data(data: bytes)

  const TWO_TO_THE_16: int := 0x1_0000

  function Kinds(params: nat): seq<nat> {
    if params == 0 then [] else [params % 16] + Kinds(params / 16)
  }

  predicate IsArray(kind: nat) { kind == 8 || kind == 9 || kind == 11 }

  // The bytes of a number; the other kinds have none.
  function NumberSize(kind: nat): nat {
    if kind == 6 || kind == 7 then 4
    else if kind == 4 || kind == 5 then 2
    else if kind == 2 || kind == 3 then 1
    else 0
  }

  // The bytes an argument takes in the fixed part of the payload.
  function Width(kind: nat): nat {
    if NumberSize(kind) > 0 then NumberSize(kind)
    else if kind == 8 || kind == 9 then 1
    else if kind == 10 then 6
    else if kind == 11 then 2
    else 0
  }

  function Widths(kinds: seq<nat>): nat {
    if kinds == [] then 0 else Width(kinds[0]) + Widths(kinds[1..])
  }

  // The arguments a call must pass: none for a nibble that stands for nothing.
  predicate Matches(kinds: seq<nat>, args: seq<Arg>) {
    if kinds == [] then args == []
    else if Width(kinds[0]) == 0 then Matches(kinds[1..], args)
    else args != [] && ArgOk(kinds[0], args[0]) && Matches(kinds[1..], args[1..])
  }

  predicate ArgOk(kind: nat, arg: Arg) {
    if NumberSize(kind) > 0 then arg.Number?
    else if IsArray(kind) then arg.Data? && |arg.data| < TWO_TO_THE_16
    else arg.Address? && |arg.hw| == 6
  }

  // n written with the given number of bytes, lowest first.
  function Low(n: int, size: nat): (r: bytes)
    ensures |r| == size
    decreases size
  {
    if size == 0 then [] else [n % 256] + Low(n / 256, size - 1)
  }

  // The bytes one argument puts into the fixed part.
  function Fixed(kind: nat, arg: Arg): (r: bytes)
    requires ArgOk(kind, arg)
    ensures Width(kind) > 0 ==> |r| == Width(kind)
  {
    if NumberSize(kind) > 0 then Low(arg.value, NumberSize(kind))
    else if kind == 11 then Low(|arg.data|, 2)
    else if IsArray(kind) then Low(|arg.data|, 1)
    else arg.hw
  }

  function FixedPart(kinds: seq<nat>, args: seq<Arg>): (r: bytes)
    requires Matches(kinds, args)
    ensures |r| == Widths(kinds)
  {
    if kinds == [] then []
    else if Width(kinds[0]) == 0 then FixedPart(kinds[1..], args)
    else Fixed(kinds[0], args[0]) + FixedPart(kinds[1..], args[1..])
  }

  // The last array passed; its bytes are sent behind the fixed part.
  function LastData(args: seq<Arg>): bytes {
    if args == [] then []
    else if args[|args| - 1].Data? then args[|args| - 1].data
    else LastData(args[..|args| - 1])
  }

  // At most one array, and nothing after it; the table's length is the width
  // of the fixed part; its high length bits are clear.
  predicate WellFormed(m: Message) {
    var kinds := Kinds(m.params);
    && Widths(kinds) == m.lolen && m.typeHilen & 7 == 0
    && forall k :: 0 <= k < |kinds| - 1 ==> !IsArray(kinds[k])
  }

  // An array whose length its own length field can hold.
  predicate DataFits(kinds: seq<nat>, args: seq<Arg>) {
    |LastData(args)| <= if kinds != [] && kinds[|kinds| - 1] == 11 then 0x7FF - Widths(kinds) else 255
  }

  // The number of payload bytes a header announces.
  function Announced(typeHilen: bv8, lolen: byte): nat {
    lolen as int + 256 * (typeHilen & 7) as int
  }

  // ----- sending -----

  datatype Packet = Packet(typeHilen: bv8, lolen: byte, cls: byte, command: byte, payload: bytes, data: bytes)

  // What an array argument does to the length in the header.
  function Lengthened(typeHilen: bv8, lolen: byte, n: nat): (bv8, byte)
    requires n < TWO_TO_THE_16
  {
    var u16 := (n + lolen) % TWO_TO_THE_16;
    (typeHilen | (u16 / 256) as bv8, u16 % 256)
  }

  function Header(m: Message, args: seq<Arg>): (bv8, byte)
    requires forall k :: 0 <= k < |args| && args[k].Data? ==> |args[k].data| < TWO_TO_THE_16
  {
    if args == [] then (m.typeHilen, m.lolen)
    else
      var h := Header(m, args[..|args| - 1]);
      var last := args[|args| - 1];
      if last.Data? then Lengthened(h.0, h.1, |last.data|) else h
  }

  lemma {:induction false} ArgsBounded(kinds: seq<nat>, args: seq<Arg>)
    requires Matches(kinds, args)
    ensures forall k :: 0 <= k < |args| && args[k].Data? ==> |args[k].data| < TWO_TO_THE_16
    decreases |kinds|
  {
    if kinds != [] {
      if Width(kinds[0]) == 0 {
        ArgsBounded(kinds[1..], args);
      } else {
        ArgsBounded(kinds[1..], args[1..]);
        assert forall k :: 0 < k < |args| ==> args[k] == args[1..][k - 1];
      }
    }
  }

  // The packet as handed to bglib_output: the header and the first lolen bytes
  // of the fixed part, then the array.
  method SendMessage(m: Message, args: seq<Arg>) returns (sent: Packet)
    requires m.params < TWO_TO_THE_32 && Matches(Kinds(m.params), args)
    ensures (forall k :: 0 <= k < |args| && args[k].Data? ==> |args[k].data| < TWO_TO_THE_16)
    ensures (sent.typeHilen, sent.lolen) == Header(m, args) && sent.cls == m.cls && sent.command == m.command
    ensures sent.data == LastData(args)
    ensures m.lolen <= Widths(Kinds(m.params)) ==> sent.payload == FixedPart(Kinds(m.params), args)[..m.lolen]
  {
    hide Header, LastData, Fixed, FixedPart, Lengthened, Matches, ArgOk;
    var i, next: nat := m.params, 0;
    var hilen, lolen := m.typeHilen, m.lolen;
    var b: bytes, dataPtr: bytes := [], [];
    ghost var kinds := Kinds(i);
    ArgsBounded(kinds, args);
    NothingYet(m, args);
    NothingLeft(args);
    while i != 0
      invariant next <= |args| && Matches(Kinds(i), args[next..])
      invariant b + FixedPart(Kinds(i), args[next..]) == FixedPart(kinds, args)
      invariant (hilen, lolen) == Header(m, args[..next]) && dataPtr == LastData(args[..next])
      decreases i
    {
      var kind := i % 16;
      Consume(m, i, args, next);
      if Width(kind) > 0 {
        var put;
        put, hilen, lolen := PutArg(kind, args[next], hilen, lolen);
        b := b + put;
        if args[next].Data? {
          dataPtr := args[next].data;
        }
        next := next + 1;
      }
      i := i / 16;
    }
    NothingLeft(args[next..]);
    assert args[..next] == args;
    sent := Packet(hilen, lolen, m.cls, m.command, if m.lolen <= |b| then b[..m.lolen] else b, dataPtr);
  }

  // The cases of the switch.
  method PutArg(kind: nat, arg: Arg, hilen: bv8, lolen: byte) returns (b: bytes, hilen': bv8, lolen': byte)
    requires Width(kind) > 0 && ArgOk(kind, arg)
    ensures b == Fixed(kind, arg)
    ensures (hilen', lolen') == if arg.Data? then Lengthened(hilen, lolen, |arg.data|) else (hilen, lolen)
  {
    hilen', lolen' := hilen, lolen;
    if NumberSize(kind) > 0 {
      b := NumberBytes(arg.value, NumberSize(kind));
    } else if kind == 10 {
      b := arg.hw;
    } else {
      var dataLen := |arg.data|;
      b := [dataLen % 256];
      if kind == 11 {
        b := b + [dataLen / 256];
      }
      LengthBytes(dataLen);
      var u16 := (dataLen + lolen) % TWO_TO_THE_16;
      lolen' := u16 % 256;
      hilen' := hilen | (u16 / 256) as bv8;
    }
  }

  // One number, lowest byte first: the shifts of cases 2 to 7.
  method NumberBytes(value: int, size: nat) returns (b: bytes)
    requires size in {1, 2, 4}
    ensures b == Low(value, size)
  {
    hide Low;
    var u := value;
    b := [];
    var k := 0;
    assert [] + Low(u, size) == Low(u, size);
    while k < size
      invariant k <= size && b + Low(u, size - k) == Low(value, size)
    {
      LowStep(b, u, size - k);
      b := b + [u % 256];
      u := u / 256;
      k := k + 1;
    }
    LowStep(b, u, 0);
  }

  lemma LowStep(b: bytes, u: int, size: nat)
    ensures size > 0 ==> b + Low(u, size) == b + [u % 256] + Low(u / 256, size - 1)
    ensures size == 0 ==> b + Low(u, size) == b
  {
  }

  lemma LengthBytes(n: nat)
    requires n < TWO_TO_THE_16
    ensures Low(n, 1) == [n % 256] && Low(n, 2) == [n % 256] + [n / 256]
  {
    assert Low(n / 256 / 256, 0) == [];
    assert Low(n / 256, 1) == [n / 256 % 256] + Low(n / 256 / 256, 0);
    assert Low(n, 1) == [n % 256] + Low(n / 256, 0);
  }

  lemma NothingYet(m: Message, args: seq<Arg>)
    ensures args[..0] == [] && args[0..] == args && Header(m, []) == (m.typeHilen, m.lolen) && LastData([]) == []
  {
  }

  lemma NothingLeft(args: seq<Arg>)
    ensures Matches(Kinds(0), args) ==> args == [] && FixedPart(Kinds(0), args) == []
  {
  }

  // What one nibble does to the arguments still to be sent.
  lemma Consume(m: Message, i: nat, args: seq<Arg>, next: nat)
    requires i != 0 && next <= |args| && Matches(Kinds(i), args[next..])
    requires forall k :: 0 <= k < |args| && args[k].Data? ==> |args[k].data| < TWO_TO_THE_16
    ensures Width(i % 16) == 0 ==>
      Matches(Kinds(i / 16), args[next..]) && FixedPart(Kinds(i), args[next..]) == FixedPart(Kinds(i / 16), args[next..])
    ensures Width(i % 16) > 0 ==>
      && next < |args| && ArgOk(i % 16, args[next]) && Matches(Kinds(i / 16), args[next + 1..])
      && FixedPart(Kinds(i), args[next..]) == Fixed(i % 16, args[next]) + FixedPart(Kinds(i / 16), args[next + 1..])
      && LastData(args[..next + 1]) == (if args[next].Data? then args[next].data else LastData(args[..next]))
      && var h := Header(m, args[..next]);
         Header(m, args[..next + 1]) == if args[next].Data? then Lengthened(h.0, h.1, |args[next].data|) else h
  {
    hide Fixed, Lengthened;
    assert Kinds(i)[1..] == Kinds(i / 16);
    if Width(i % 16) > 0 {
      assert args[next..][1..] == args[next + 1..];
      assert args[..next + 1][..next] == args[..next];
    }
  }

  // ----- the announced length -----

  // Only the last argument is an array.
  predicate OneArray(args: seq<Arg>) {
    forall k :: 0 <= k < |args| - 1 ==> !args[k].Data?
  }

  lemma {:induction false} ArrayComesLast(kinds: seq<nat>, args: seq<Arg>)
    requires Matches(kinds, args) && forall k :: 0 <= k < |kinds| - 1 ==> !IsArray(kinds[k])
    ensures OneArray(args)
    ensures args != [] && args[|args| - 1].Data? ==> kinds != [] && IsArray(kinds[|kinds| - 1])
    decreases |kinds|
  {
    if kinds != [] {
      assert forall k :: 0 <= k < |kinds| - 1 ==> kinds[1..][k] == kinds[k + 1];
      if Width(kinds[0]) == 0 {
        ArrayComesLast(kinds[1..], args);
      } else {
        ArrayComesLast(kinds[1..], args[1..]);
        assert forall k :: 0 < k < |args| ==> args[k] == args[1..][k - 1];
      }
    }
  }

  lemma {:induction false} NoArraySent(m: Message, args: seq<Arg>)
    requires forall k :: 0 <= k < |args| ==> !args[k].Data?
    ensures Header(m, args) == (m.typeHilen, m.lolen) && LastData(args) == []
    decreases |args|
  {
    if args != [] {
      NoArraySent(m, args[..|args| - 1]);
    }
  }

  // The header announces exactly the bytes sent behind it.
  lemma LengthMatches(m: Message, args: seq<Arg>)
    requires WellFormed(m) && Matches(Kinds(m.params), args) && DataFits(Kinds(m.params), args)
    ensures forall k :: 0 <= k < |args| && args[k].Data? ==> |args[k].data| < TWO_TO_THE_16
    ensures var h := Header(m, args);
      && Announced(h.0, h.1) == |FixedPart(Kinds(m.params), args)| + |LastData(args)|
      && h.0 & 0xF8 == m.typeHilen
  {
    var kinds := Kinds(m.params);
    ArgsBounded(kinds, args);
    ArrayComesLast(kinds, args);
    TopBits(m.typeHilen);
    if args == [] || !args[|args| - 1].Data? {
      NoArraySent(m, args);
    } else {
      NoArraySent(m, args[..|args| - 1]);
      HighBits(m.typeHilen, |LastData(args)|, m.lolen);
    }
  }

  lemma TopBits(t: bv8)
    requires t & 7 == 0
    ensures t & 0xF8 == t
  {
  }

  lemma HighBits(t: bv8, n: nat, lolen: byte)
    requires t & 7 == 0 && n + lolen <= 0x7FF
    ensures n < TWO_TO_THE_16
    ensures var h := Lengthened(t, lolen, n); Announced(h.0, h.1) == n + lolen && h.0 & 0xF8 == t
  {
    hide Announced;
    var total := n + lolen;
    AnnouncedOf(t, total / 256, total % 256);
    assert total % TWO_TO_THE_16 == total;
  }

  lemma AnnouncedOf(t: bv8, q: nat, r: byte)
    requires t & 7 == 0 && q <= 7
    ensures Announced(t | q as bv8, r) == 256 * q + r && (t | q as bv8) & 0xF8 == t
  {
    ByteOf(q);
    OrKeeps(t, q as bv8);
  }

  lemma OrKeeps(t: bv8, h: bv8)
    requires t & 7 == 0 && h <= 7
    ensures (t | h) & 7 == h && (t | h) & 0xF8 == t
  {
  }

  lemma ByteOf(q: nat)
    requires q <= 7
    ensures (q as bv8) as int == q && q as bv8 <= 7
  {
  }

  // ----- decoding by the same descriptor -----

  function Pow256(n: nat): (p: nat)
    ensures p >= 1
  {
    if n == 0 then 1 else 256 * Pow256(n - 1)
  }

  predicate Signed(kind: nat) { kind == 3 || kind == 5 || kind == 7 }

  // The value of a number field: little-endian, two's complement if signed.
  function NumberOf(kind: nat, field: bytes): int {
    var n := NatLE(field);
    if Signed(kind) && 2 * n >= Pow256(|field|) then n - Pow256(|field|) else n
  }

  function Cons(arg: Arg, rest: Option<seq<Arg>>): Option<seq<Arg>> {
    if rest.Some? then Some([arg] + rest.value) else None
  }

  // The arguments in a payload; an array follows its length at once.
  function DecodeArgs(kinds: seq<nat>, payload: bytes): Option<seq<Arg>> {
    if kinds == [] then (if payload == [] then Some([]) else None)
    else
      var kind, w := kinds[0], Width(kinds[0]);
      if w == 0 then DecodeArgs(kinds[1..], payload)
      else if |payload| < w then None
      else if NumberSize(kind) > 0 then Cons(Number(NumberOf(kind, payload[..w])), DecodeArgs(kinds[1..], payload[w..]))
      else if kind == 10 then Cons(Address(payload[..w]), DecodeArgs(kinds[1..], payload[w..]))
      else
        var n := NatLE(payload[..w]);
        if |payload| < w + n then None else Cons(Data(payload[w..w + n]), DecodeArgs(kinds[1..], payload[w + n..]))
  }

  // A number the field can hold.
  predicate InRange(kind: nat, arg: Arg) {
    arg.Number? ==>
      var p := Pow256(NumberSize(kind));
      if Signed(kind) then 0 <= 2 * arg.value + p && 2 * arg.value < p else 0 <= arg.value < p
  }

  predicate AllInRange(kinds: seq<nat>, args: seq<Arg>)
    requires Matches(kinds, args)
  {
    kinds == []
    || if Width(kinds[0]) == 0 then AllInRange(kinds[1..], args)
       else InRange(kinds[0], args[0]) && AllInRange(kinds[1..], args[1..])
  }

  lemma {:induction false} LowValue(n: int, size: nat)
    ensures NatLE(Low(n, size)) == n % Pow256(size)
    decreases size
  {
    if size > 0 {
      LowValue(n / 256, size - 1);
      DivMod(n, Pow256(size - 1));
      assert Low(n, size)[1..] == Low(n / 256, size - 1);
    }
  }

  lemma DivMod(n: int, p: nat)
    requires p >= 1
    ensures n % (256 * p) == n % 256 + 256 * (n / 256 % p)
  {
    var q, r := n / 256, n % 256;
    var a, b := q / p, q % p;
    assert n == 256 * (p * a + b) + r;
    assert 256 * (p * a) == 256 * p * a;
    ModUnique(n, 256 * p, a, 256 * b + r);
  }

  lemma ModUnique(n: int, m: nat, a: int, r: int)
    requires m >= 1 && n == m * a + r && 0 <= r < m
    ensures n % m == r
  {
    assert n == m * (n / m) + n % m;
    var q := n / m;
    assert m * (q - a) == m * q - m * a;
    SmallMultiple(m, q - a, r - n % m);
  }

  lemma SmallMultiple(m: nat, d: int, e: int)
    requires m >= 1 && m * d == e && 0 < e + m && e < m
    ensures d == 0
  {
    TimesAtLeast(m, if d >= 1 then d else 1);
    TimesAtLeast(m, if d <= -1 then -d else 1);
  }

  lemma {:induction false} TimesAtLeast(m: nat, d: nat)
    requires d >= 1
    ensures m * d >= m
    decreases d
  {
    if d > 1 {
      TimesAtLeast(m, d - 1);
      assert m * d == m * (d - 1) + m;
    }
  }

  // A field gives back any number it can hold.
  lemma FieldKeeps(kind: nat, value: int)
    requires NumberSize(kind) > 0 && InRange(kind, Number(value))
    ensures NumberOf(kind, Low(value, NumberSize(kind))) == value
  {
    var p := Pow256(NumberSize(kind));
    LowValue(value, NumberSize(kind));
    if value < 0 {
      ModUnique(value, p, -1, value + p);
    } else {
      ModUnique(value, p, 0, value);
    }
  }

  lemma {:induction false} LastDataAfter(arg: Arg, args: seq<Arg>)
    requires !arg.Data?
    ensures LastData([arg] + args) == LastData(args)
    decreases |args|
  {
    if args == [] {
      assert ([arg] + args)[..0] == [];
    } else {
      var most := args[..|args| - 1];
      assert ([arg] + args)[..|args|] == [arg] + most;
      LastDataAfter(arg, most);
    }
  }

  // The payload sent, decoded by the descriptor, gives the arguments back.
  lemma {:induction false} PayloadDecodes(kinds: seq<nat>, args: seq<Arg>)
    requires Matches(kinds, args) && AllInRange(kinds, args)
    requires forall k :: 0 <= k < |kinds| - 1 ==> !IsArray(kinds[k])
    requires kinds != [] ==> |LastData(args)| < Pow256(if kinds[|kinds| - 1] == 11 then 2 else 1)
    ensures DecodeArgs(kinds, FixedPart(kinds, args) + LastData(args)) == Some(args)
    decreases |kinds|
  {
    hide DecodeArgs, ArgOk, InRange, LastData, Fixed;
    if kinds == [] {
      NothingDecodes();
    } else {
      var kind, rest, w := kinds[0], kinds[1..], Width(kinds[0]);
      assert forall k :: 0 <= k < |kinds| - 1 ==> rest[k] == kinds[k + 1];
      if w == 0 {
        PayloadDecodes(rest, args);
        SkipDecodes(kinds, FixedPart(rest, args) + LastData(args));
      } else {
        var arg, others := args[0], args[1..];
        assert args == [arg] + others;
        if IsArray(kind) {
          assert kinds == [kind];
          ArrayDecodes(kind, arg, args);
        } else {
          ArgKind(kind, arg);
          LastDataAfter(arg, others);
          PayloadDecodes(rest, others);
          var tail := FixedPart(rest, others) + LastData(others);
          FieldDecodes(kind, rest, arg, tail);
          assert FixedPart(kinds, args) + LastData(args) == Fixed(kind, arg) + tail;
          assert kinds == [kind] + rest;
        }
      }
    }
  }

  lemma ArgKind(kind: nat, arg: Arg)
    requires Width(kind) > 0 && ArgOk(kind, arg)
    ensures arg.Data? <==> IsArray(kind)
  {
  }

  lemma NothingDecodes()
    ensures DecodeArgs([], [] + LastData([])) == Some([])
  {
  }

  lemma SkipDecodes(kinds: seq<nat>, payload: bytes)
    requires kinds != [] && Width(kinds[0]) == 0
    ensures DecodeArgs(kinds, payload) == DecodeArgs(kinds[1..], payload)
  {
  }

  lemma FieldDecodes(kind: nat, rest: seq<nat>, arg: Arg, tail: bytes)
    requires Width(kind) > 0 && !IsArray(kind) && ArgOk(kind, arg) && InRange(kind, arg)
    ensures DecodeArgs([kind] + rest, Fixed(kind, arg) + tail) == Cons(arg, DecodeArgs(rest, tail))
  {
    var kinds, payload, w := [kind] + rest, Fixed(kind, arg) + tail, Width(kind);
    assert kinds[1..] == rest && payload[w..] == tail && payload[..w] == Fixed(kind, arg);
    if NumberSize(kind) > 0 {
      FieldKeeps(kind, arg.value);
    }
  }

  lemma ArrayDecodes(kind: nat, arg: Arg, args: seq<Arg>)
    requires IsArray(kind) && Matches([kind], args) && args != [] && arg == args[0]
    requires |LastData(args)| < Pow256(if kind == 11 then 2 else 1)
    ensures DecodeArgs([kind], FixedPart([kind], args) + LastData(args)) == Some(args)
  {
    hide Low, NatLE, LastData, Pow256;
    OneData(args);
    var w, data := Width(kind), arg.data;
    assert [kind][1..] == [] && args[1..] == [] && args == [arg];
    var fixed := Low(|data|, w);
    var payload := fixed + data;
    assert FixedPart([kind], args) == fixed + [] == fixed;
    LowValue(|data|, w);
    ModUnique(|data|, Pow256(w), 0, |data|);
    assert payload[..w] == fixed && payload[w..w + |data|] == data && payload[w + |data|..] == [];
    assert [Data(data)] + [] == args;
  }

  lemma OneData(args: seq<Arg>)
    requires args != [] && args[|args| - 1].Data?
    ensures LastData(args) == args[|args| - 1].data
  {
  }

  // A well-formed command, sent and read back by its own descriptor: as many
  // bytes as announced, and the arguments they were made from.
  method SendAndDecode(m: Message, args: seq<Arg>) returns (sent: Packet, decoded: Option<seq<Arg>>)
    requires WellFormed(m) && m.params < TWO_TO_THE_32 && Matches(Kinds(m.params), args)
    requires DataFits(Kinds(m.params), args) && AllInRange(Kinds(m.params), args)
    ensures Announced(sent.typeHilen, sent.lolen) == |sent.payload| + |sent.data|
    ensures sent.typeHilen & 0xF8 == m.typeHilen && sent.cls == m.cls && sent.command == m.command
    ensures decoded == Some(args)
  {
    hide Header, FixedPart, DecodeArgs, AllInRange, Announced, LastData;
    var kinds := Kinds(m.params);
    LengthMatches(m, args);
    assert Pow256(1) == 256 && Pow256(2) == 0x10000;
    PayloadDecodes(kinds, args);
    sent := SendMessage(m, args);
    var fixed := FixedPart(kinds, args);
    assert fixed[..m.lolen] == fixed;
    decoded := DecodeArgs(kinds, sent.payload + sent.data);
  }

  // ----- the code, byte by byte -----

  function Pow16(n: nat): (p: nat)
    ensures p >= 1
  {
    if n == 0 then 1 else 16 * Pow16(n - 1)
  }

  // The descriptor is read four bits at a time, lowest first, to its last bit.
  lemma {:induction false} NibbleOrder(params: nat)
    ensures params < Pow16(|Kinds(params)|)
    ensures forall k :: 0 <= k < |Kinds(params)| ==> Kinds(params)[k] == params / Pow16(k) % 16
    decreases params
  {
    if params > 0 {
      var rest := params / 16;
      NibbleOrder(rest);
      forall k | 0 < k < |Kinds(params)| ensures Kinds(params)[k] == params / Pow16(k) % 16 {
        assert Kinds(params)[k] == Kinds(rest)[k - 1] == rest / Pow16(k - 1) % 16;
        DivTwice(params, Pow16(k - 1));
      }
      assert params / 1 == params;
    }
  }

  lemma DivTwice(n: nat, b: nat)
    requires b >= 1
    ensures n / 16 / b == n / (16 * b)
  {
    var q, r := n / 16, n % 16;
    var p, t := q / b, q % b;
    assert q == b * p + t;
    assert 16 * (b * p) == 16 * b * p;
    QuotientUnique(n, 16 * b, p, 16 * t + r);
  }

  lemma QuotientUnique(n: nat, m: nat, p: nat, r: nat)
    requires m >= 1 && n == m * p + r && r < m
    ensures n / m == p
  {
    assert n == m * (n / m) + n % m;
    assert m * (p - n / m) == m * p - m * (n / m);
    SmallMultiple(m, p - n / m, n % m - r);
  }

  // What each case of the switch puts into the fixed part.
  lemma BytesPerKind(kind: nat, arg: Arg)
    requires Width(kind) > 0 && ArgOk(kind, arg)
    ensures kind in [2, 3, 4, 5, 6, 7, 8, 9, 10, 11]
    ensures kind in [6, 7] ==>
      arg.Number? && Fixed(kind, arg) == [arg.value % 256, arg.value / 0x100 % 256, arg.value / 0x1_0000 % 256, arg.value / 0x100_0000 % 256]
    ensures kind in [4, 5] ==> arg.Number? && Fixed(kind, arg) == [arg.value % 256, arg.value / 0x100 % 256]
    ensures kind in [2, 3] ==> arg.Number? && Fixed(kind, arg) == [arg.value % 256]
    ensures kind in [8, 9] ==> arg.Data? && Fixed(kind, arg) == [|arg.data| % 256]
    ensures kind == 10 ==> arg.Address? && Fixed(kind, arg) == arg.hw && |arg.hw| == 6
    ensures kind == 11 ==> arg.Data? && Fixed(kind, arg) == [|arg.data| % 256, |arg.data| / 256]
  {
    if NumberSize(kind) > 0 {
      LowBytes(arg.value);
    } else if IsArray(kind) {
      LowBytes(|arg.data|);
    }
  }

  lemma LowBytes(n: int)
    ensures Low(n, 1) == [n % 256] && Low(n, 2) == [n % 256, n / 0x100 % 256]
    ensures Low(n, 4) == [n % 256, n / 0x100 % 256, n / 0x1_0000 % 256, n / 0x100_0000 % 256]
  {
    assert n / 256 / 256 == n / 0x1_0000 && n / 256 / 256 / 256 == n / 0x100_0000;
    assert Low(n, 1) == [n % 256] + Low(n / 256, 0);
    assert Low(n / 256, 1) == [n / 256 % 256] + Low(n / 256 / 256, 0);
    assert Low(n, 2) == [n % 256] + Low(n / 256, 1);
    assert Low(n / 256 / 256, 2) == [n / 256 / 256 % 256] + Low(n / 256 / 256 / 256, 1);
    assert Low(n / 256 / 256 / 256, 1) == [n / 256 / 256 / 256 % 256] + Low(n / 256 / 256 / 256 / 256, 0);
    assert Low(n / 256, 3) == [n / 256 % 256] + Low(n / 256 / 256, 2);
    assert Low(n, 4) == [n % 256] + Low(n / 256, 3);
  }

  // attclient_attribute_write: connection, attribute handle and an array.
  method AttributeWrite(cls: byte, command: byte, connection: byte, handle: nat, data: bytes) returns (sent: Packet)
    requires handle < TWO_TO_THE_16 && |data| < 256
    ensures sent.payload == [connection, handle % 256, handle / 256, |data|] && sent.data == data
    ensures sent.cls == cls && sent.command == command
    ensures sent.lolen == (4 + |data|) % 256 && sent.typeHilen == if 4 + |data| < 256 then 0 else 1
  {
    hide Header, LastData, FixedPart, Fixed, Matches;
    var m := Message(0, 4, cls, command, 0x842);
    var args := [Number(connection), Number(handle), Data(data)];
    AttributeWriteArgs(connection, handle, data);
    AttributeWriteHeader(m, connection, handle, data);
    sent := SendMessage(m, args);
  }

  lemma AttributeWriteArgs(connection: byte, handle: nat, data: bytes)
    requires handle < TWO_TO_THE_16 && |data| < 256
    ensures var args := [Number(connection), Number(handle), Data(data)]; var kinds := Kinds(0x842);
      && kinds == [2, 4, 8] && Matches(kinds, args) && LastData(args) == data
      && FixedPart(kinds, args) == [connection, handle % 256, handle / 256, |data|] && Widths(kinds) == 4
  {
    hide Kinds, Matches, FixedPart, Widths, Fixed, LastData, ArgOk;
    AttributeWriteKinds();
    OneData([Number(connection), Number(handle), Data(data)]);
    HandleAndData(handle, data);
    TakesNumber(2, connection);
    OneArg(2, [4, 8], Number(connection), [Number(handle), Data(data)]);
    assert [2] + [4, 8] == [2, 4, 8];
    assert [Number(connection)] + [Number(handle), Data(data)] == [Number(connection), Number(handle), Data(data)];
  }

  lemma AttributeWriteKinds()
    ensures Kinds(0x842) == [2, 4, 8]
  {
    assert Kinds(0x8) == [8] && Kinds(0x84) == [4, 8];
  }

  lemma TakesNumber(kind: nat, n: nat)
    requires (kind == 2 && n < 256) || (kind == 4 && n < TWO_TO_THE_16)
    ensures ArgOk(kind, Number(n)) && Width(kind) == kind / 2
    ensures Fixed(kind, Number(n)) == if kind == 2 then [n] else [n % 256, n / 256]
  {
    hide Fixed, Low;
    BytesPerKind(kind, Number(n));
  }

  lemma HandleAndData(handle: nat, data: bytes)
    requires handle < TWO_TO_THE_16 && |data| < 256
    ensures Matches([4, 8], [Number(handle), Data(data)]) && Widths([4, 8]) == 3
    ensures FixedPart([4, 8], [Number(handle), Data(data)]) == [handle % 256, handle / 256, |data|]
  {
    hide Kinds, Matches, FixedPart, Widths, Fixed, LastData;
    NoArgs();
    BytesPerKind(8, Data(data));
    OneArg(8, [], Data(data), []);
    assert [8] + [] == [8] && [Data(data)] + [] == [Data(data)];
    TakesNumber(4, handle);
    OneArg(4, [8], Number(handle), [Data(data)]);
    assert [4] + [8] == [4, 8] && [Number(handle)] + [Data(data)] == [Number(handle), Data(data)];
  }

  lemma NoArgs()
    ensures Matches([], []) && FixedPart([], []) == [] && Widths([]) == 0
  {
  }

  lemma OneArg(kind: nat, kinds: seq<nat>, arg: Arg, args: seq<Arg>)
    requires Width(kind) > 0 && ArgOk(kind, arg) && Matches(kinds, args)
    ensures Matches([kind] + kinds, [arg] + args) && Widths([kind] + kinds) == Width(kind) + Widths(kinds)
    ensures FixedPart([kind] + kinds, [arg] + args) == Fixed(kind, arg) + FixedPart(kinds, args)
  {
    assert ([kind] + kinds)[1..] == kinds && ([arg] + args)[1..] == args;
  }

  lemma AttributeWriteHeader(m: Message, connection: byte, handle: nat, data: bytes)
    requires m.typeHilen == 0 && m.lolen == 4 && |data| < 256
    ensures var args := [Number(connection), Number(handle), Data(data)];
      Header(m, args) == (if 4 + |data| < 256 then 0 else 1, (4 + |data|) % 256)
  {
    hide Lengthened;
    var args := [Number(connection), Number(handle), Data(data)];
    assert args[..2] == [Number(connection), Number(handle)] && args[..2][..1] == [Number(connection)] && args[..2][..1][..0] == [];
    assert Header(m, []) == (0, 4);
    assert Header(m, args[..2][..1]) == (0, 4);
    assert Header(m, args[..2]) == (0, 4);
    OneLength(|data|);
  }

  lemma OneLength(n: nat)
    requires n < 256
    ensures Lengthened(0, 4, n) == (if 4 + n < 256 then 0 else 1, (4 + n) % 256)
  {
    assert (n + 4) % TWO_TO_THE_16 == n + 4;
  }
}
