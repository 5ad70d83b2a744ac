// What a loaded or packed tpl holds, as plain values: the meaning of tpl_pack
// and tpl_unpack, and what whole sequences of calls return.
module TplState {
  import opened Bytes
  import opened TplSchema
  import opened TplWire
  import opened TplImage

  // The movable part of a node: where its C variable is, how many records its
  // data pointer has advanced, and, for a '#' node, the iteration counter.
  datatype Cursor = Cursor(addr: int, rec: nat, iternum: nat)

  predicate AtPound(nodes: seq<Node>, p: nat) {
    Flat(nodes) && p <= |nodes| && (p < |nodes| ==> nodes[p].Pound? && PoundOk(nodes, p))
  }

  predicate InSpan(nodes: seq<Node>, p: nat, j: int)
    requires AtPound(nodes, p)
  {
    p < |nodes| && p - nodes[p].span <= j < p
  }

  // The row's cursors while the '#' node p counts `it` iterations, for a walk
  // that moves addresses (da), data pointers (dd), or neither.
  ghost function Moved(row: seq<Cursor>, nodes: seq<Node>, p: nat, it: nat, da: bool, dd: bool): (r: seq<Cursor>)
    requires AtPound(nodes, p) && |row| == |nodes|
    ensures |r| == |row|
  {
    seq(|row|, j requires 0 <= j < |row| =>
      if j == p then row[j].(iternum := it)
      else if InSpan(nodes, p, j) then MoveOne(row[j], nodes[p].stride, it, da, dd)
      else row[j])
  }

  function MoveOne(c: Cursor, stride: int, it: nat, da: bool, dd: bool): Cursor {
    Cursor(if da then c.addr + it * stride else c.addr, if dd then c.rec + it else c.rec, c.iternum)
  }

  lemma MovedZero(row: seq<Cursor>, nodes: seq<Node>, p: nat, da: bool, dd: bool)
    requires AtPound(nodes, p) && |row| == |nodes| && (p < |nodes| ==> row[p].iternum == 0)
    ensures Moved(row, nodes, p, 0, da, dd) == row
  {
  }

  function Shifted(row: seq<Cursor>, first: nat, end: nat, byAddr: int, byRec: int): (r: seq<Cursor>)
    requires first <= end <= |row|
    requires forall j :: first <= j < end ==> 0 <= row[j].rec + byRec
    ensures |r| == |row|
  {
    seq(|row|, j requires 0 <= j < |row| =>
      if first <= j < end then Cursor(row[j].addr + byAddr, row[j].rec + byRec, row[j].iternum) else row[j])
  }

  function By(moves: bool, d: int): int {
    if moves then d else 0
  }

  // One more iteration: count it and advance every pointer of the span.
  lemma MovedAdvance(base: seq<Cursor>, nodes: seq<Node>, p: nat, it: nat, da: bool, dd: bool)
    requires AtPound(nodes, p) && p < |nodes| && |base| == |nodes|
    ensures var row := Moved(base, nodes, p, it, da, dd);
      Shifted(row[p := row[p].(iternum := it + 1)], p - nodes[p].span, p, By(da, nodes[p].stride), By(dd, 1))
      == Moved(base, nodes, p, it + 1, da, dd)
  {
    StrideStep(nodes[p].stride, it);
  }

  // The last one: clear the counter and take every pointer back.
  lemma MovedRewind(base: seq<Cursor>, nodes: seq<Node>, p: nat, it: nat, da: bool, dd: bool)
    requires AtPound(nodes, p) && p < |nodes| && |base| == |nodes| && base[p].iternum == 0
    ensures forall j :: p - nodes[p].span <= j < p ==> By(dd, it) <= Moved(base, nodes, p, it, da, dd)[j].rec
    ensures var row := Moved(base, nodes, p, it, da, dd);
      Shifted(row[p := row[p].(iternum := 0)], p - nodes[p].span, p, By(da, -(it * nodes[p].stride)), By(dd, -(it as int)))
      == base
  {
  }

  lemma MovedAt(base: seq<Cursor>, nodes: seq<Node>, p: nat, it: nat, da: bool, dd: bool)
    requires AtPound(nodes, p) && p < |nodes| && |base| == |nodes|
    ensures Moved(base, nodes, p, it, da, dd)[p].iternum == it
  {
  }

  lemma StrideStep(stride: int, it: nat)
    ensures it * stride + stride == (it + 1) * stride
  {
  }

  // The user's memory: the value found at each mapped address.
  type Memory = map<int, Val>

  // Where slot t is read or written: field base plus iteration times stride.
  function SlotAddr(row: seq<Cursor>, nodes: seq<Node>, t: Slot): int
    requires Flat(nodes) && |row| == |nodes| && t.pos < |nodes|
  {
    var p := NextPound(nodes, t.pos);
    if InSpan(nodes, p, t.pos) then row[t.pos].addr + t.iter * nodes[p].stride else row[t.pos].addr
  }

  ghost predicate SlotsIn(nodes: seq<Node>, slots: seq<Slot>) {
    forall k :: 0 <= k < |slots| ==> slots[k].pos < |nodes| && slots[k].node == nodes[slots[k].pos] && !slots[k].node.Pound?
  }

  // ----- packing -----

  // Every leaf of the row has a well-typed value at its address.
  ghost predicate MemOk(row: seq<Cursor>, nodes: seq<Node>, slots: seq<Slot>, mem: Memory)
    requires Flat(nodes) && |row| == |nodes| && SlotsIn(nodes, slots)
  {
    forall k :: 0 <= k < |slots| && slots[k].node.Leaf? ==>
      SlotAddr(row, nodes, slots[k]) in mem && FieldTyped(slots[k].node.field, mem[SlotAddr(row, nodes, slots[k])])
  }

  // The element one tpl_pack call builds: leaves from memory, arrays from what
  // was packed into them since their parent was last packed.
  ghost function PackVals(row: seq<Cursor>, nodes: seq<Node>, slots: seq<Slot>, mem: Memory, pending: seq<seq<Elem>>): (r: seq<Val>)
    requires Flat(nodes) && |row| == |nodes| && SlotsIn(nodes, slots) && MemOk(row, nodes, slots, mem)
    requires forall k :: 0 <= k < |slots| && slots[k].node.Ary? ==> slots[k].node.id < |pending|
    ensures |r| == |slots|
  {
    seq(|slots|, k requires 0 <= k < |slots| =>
      if slots[k].node.Leaf? then mem[SlotAddr(row, nodes, slots[k])] else List(pending[slots[k].node.id]))
  }

  ghost predicate Names(slots: seq<Slot>, id: nat) {
    exists k :: 0 <= k < |slots| && slots[k].node == Ary(id)
  }

  ghost function Cleared(pending: seq<seq<Elem>>, slots: seq<Slot>): (r: seq<seq<Elem>>)
    ensures |r| == |pending|
  {
    seq(|pending|, j requires 0 <= j < |pending| => if Names(slots, j) then [] else pending[j])
  }

  ghost function LeafPart(slots: seq<Slot>, vals: seq<Val>): (r: seq<Val>)
    requires |vals| == |slots|
    ensures |r| == |slots|
  {
    seq(|slots|, k requires 0 <= k < |slots| => if slots[k].node.Leaf? then vals[k] else List([]))
  }

  // The root's own values (once they have been packed) and every backbone.
  datatype Packed = Packed(root: Option<seq<Val>>, pending: seq<seq<Elem>>)

  ghost function PackStep(s: Schema, rows: seq<seq<Cursor>>, st: Packed, i: nat, mem: Memory): Packed
    requires Ready(s, rows, st, i) && MemOk(rows[i], Nodes(s[i]), RowSlots(s, i), mem)
  {
    var slots := RowSlots(s, i);
    var vals := PackVals(rows[i], Nodes(s[i]), slots, mem, st.pending);
    if i == 0 then st.(root := Some(LeafPart(slots, vals)))
    else st.(pending := Cleared(st.pending, slots)[i := st.pending[i] + [Elem(vals)]])
  }

  ghost predicate Ready(s: Schema, rows: seq<seq<Cursor>>, st: Packed, i: nat) {
    && i < |s| == |rows| == |st.pending|
    && Flat(Nodes(s[i])) && |rows[i]| == |Nodes(s[i])| && SlotsIn(Nodes(s[i]), RowSlots(s, i))
    && Above(s, RowSlots(s, i), i)
  }

  // ----- where a walk stands -----

  // At node c, with the next '#' counter at `it`, n slots have been visited.
  ghost predicate Walking(nodes: seq<Node>, slots: seq<Slot>, c: nat, it: nat, n: nat) {
    && Flat(nodes) && c <= |nodes| && it < CountAt(nodes, NextPound(nodes, c))
    && n <= |slots| && Walk(nodes, c, it) == slots[n..]
    && (it > 0 ==> var p := NextPound(nodes, c); p < |nodes| && PoundOk(nodes, p) && p - nodes[p].span <= c)
  }

  lemma WalkStart(s: Schema, r: nat)
    requires SchemaOk(s) && r < |s|
    ensures Walking(Nodes(s[r]), RowSlots(s, r), 0, 0, 0)
    ensures SlotsIn(Nodes(s[r]), RowSlots(s, r)) && Above(s, RowSlots(s, r), r)
    ensures forall p :: 0 <= p < |Nodes(s[r])| ==> PoundOk(Nodes(s[r]), p)
  {
    WalkVisitsSlots(s[r]);
    RowAbove(s, r);
    SlotsInNodes(Nodes(s[r]), 0, 0);
    assert RowSlots(s, r)[0..] == RowSlots(s, r);
  }

  lemma {:induction false} SlotsInNodes(nodes: seq<Node>, c: nat, it: nat)
    requires Flat(nodes) && c <= |nodes| && it < CountAt(nodes, NextPound(nodes, c))
    ensures SlotsIn(nodes, Walk(nodes, c, it))
    decreases |nodes| - NextPound(nodes, c), CountAt(nodes, NextPound(nodes, c)) - it, NextPound(nodes, c) - c
  {
    hide Walk;
    if c == |nodes| {
      WalkDone(nodes);
    } else if nodes[c].Pound? {
      if it + 1 < nodes[c].count {
        WalkBack(nodes, c, it);
        SlotsInNodes(nodes, c - nodes[c].span, it + 1);
      } else {
        WalkPast(nodes, c, it);
        SlotsInNodes(nodes, c + 1, 0);
      }
    } else {
      WalkLeaf(nodes, c, it);
      SlotsInNodes(nodes, c + 1, it);
    }
  }

  lemma StepLeaf(nodes: seq<Node>, slots: seq<Slot>, c: nat, it: nat, n: nat)
    requires Walking(nodes, slots, c, it, n) && c < |nodes| && !nodes[c].Pound?
    ensures n < |slots| && slots[n] == Slot(nodes[c], c, it)
    ensures Walking(nodes, slots, c + 1, it, n + 1)
    ensures NextPound(nodes, c + 1) == NextPound(nodes, c)
  {
    WalkLeaf(nodes, c, it);
    hide Walk;
    assert slots[n..][0] == slots[n] && slots[n..][1..] == slots[n + 1..];
  }

  lemma StepTurn(nodes: seq<Node>, slots: seq<Slot>, c: nat, it: nat, n: nat)
    requires Walking(nodes, slots, c, it, n) && c < |nodes| && nodes[c].Pound?
    ensures PoundOk(nodes, c)
    ensures it + 1 < nodes[c].count ==>
      NextPound(nodes, c - nodes[c].span) == c && Walking(nodes, slots, c - nodes[c].span, it + 1, n)
    ensures it + 1 >= nodes[c].count ==>
      it + 1 == nodes[c].count && NextPound(nodes, c + 1) > c && Walking(nodes, slots, c + 1, 0, n)
  {
    assert PoundOk(nodes, c);
    if it + 1 < nodes[c].count {
      WalkBack(nodes, c, it);
    } else {
      WalkPast(nodes, c, it);
    }
  }

  lemma AtEnd(nodes: seq<Node>, slots: seq<Slot>, it: nat, n: nat)
    requires Walking(nodes, slots, |nodes|, it, n)
    ensures n == |slots| && it == 0
  {
  }

  // Arrays are never inside a '#' loop.
  lemma AryIter(s: Schema, r: nat, n: nat)
    requires SchemaOk(s) && r < |s| && n < |RowSlots(s, r)| && RowSlots(s, r)[n].node.Ary?
    ensures RowSlots(s, r)[n].iter == 0
    ensures forall m :: 0 <= m < |RowSlots(s, r)| && m != n ==> RowSlots(s, r)[m].node != RowSlots(s, r)[n].node
  {
    SlotsFit(s[r], 0);
    ArysDistinct(s[r], 0);
    assert SlotFits(RowSlots(s, r)[n], s[r], 0, |Nodes(s[r])|);
  }

  // The pointers of the node at hand are those of its slot.
  lemma LeafCursor(row: seq<Cursor>, nodes: seq<Node>, slots: seq<Slot>, c: nat, it: nat, n: nat, da: bool, dd: bool)
    requires Walking(nodes, slots, c, it, n) && c < |nodes| && !nodes[c].Pound? && |row| == |nodes|
    requires row[c].rec == 0
    ensures var cur := Moved(row, nodes, NextPound(nodes, c), it, da, dd)[c];
      && (da ==> cur.addr == SlotAddr(row, nodes, Slot(nodes[c], c, it)))
      && (dd ==> cur.rec == it)
  {
  }

  // The cursors of all rows while a walk of row r stands at node c.
  ghost function Here(rows: seq<seq<Cursor>>, nodes: seq<Node>, r: nat, c: nat, it: nat, da: bool, dd: bool): (res: seq<seq<Cursor>>)
    requires r < |rows| && Flat(nodes) && |rows[r]| == |nodes| && c <= |nodes|
    ensures |res| == |rows|
  {
    var p := NextPound(nodes, c);
    assert p < |nodes| ==> PoundOk(nodes, p);
    rows[r := Moved(rows[r], nodes, p, it, da, dd)]
  }

  lemma HereAtRest(rows: seq<seq<Cursor>>, nodes: seq<Node>, r: nat, c: nat, da: bool, dd: bool)
    requires r < |rows| && Flat(nodes) && |rows[r]| == |nodes| && c <= |nodes|
    requires forall j :: 0 <= j < |nodes| ==> rows[r][j].iternum == 0
    ensures Here(rows, nodes, r, c, 0, da, dd) == rows
  {
    var p := NextPound(nodes, c);
    assert p < |nodes| ==> PoundOk(nodes, p);
    MovedZero(rows[r], nodes, p, da, dd);
  }

  lemma ElemsSizeAppend(es: seq<Elem>, e: Elem)
    ensures ElemsSize(es + [e]) == ElemsSize(es) + ValsSize(e.vals)
  {
    if es == [] {
      assert es + [e] == [e];
      assert [e][1..] == [];
    } else {
      assert (es + [e])[1..] == es[1..] + [e];
      ElemsSizeAppend(es[1..], e);
    }
  }

  lemma ValsSizeAppend(vals: seq<Val>, v: Val)
    ensures ValsSize(vals + [v]) == ValsSize(vals) + Size(v)
  {
    if vals == [] {
      assert vals + [v] == [v];
      assert [v][1..] == [];
    } else {
      assert (vals + [v])[1..] == vals[1..] + [v];
      ValsSizeAppend(vals[1..], v);
    }
  }

  // A number field of n words of w bytes takes w * n bytes.
  lemma {:induction false} ScalarSize(words: seq<bytes>, size: nat)
    requires forall w :: w in words ==> |w| == size
    ensures JoinSize(words) == size * |words|
    decreases |words|
  {
    if words != [] {
      ScalarSize(words[1..], size);
      TimesStep(size, |words|);
    }
  }

  lemma TimesStep(size: nat, n: nat)
    requires 0 < n
    ensures size + size * (n - 1) == size * n
  {
  }

  // The size tpl_pack and tpl_ser_osz add for one leaf.
  function FieldSize(f: Field, v: Val): nat
    requires FieldTyped(f, v)
  {
    match f
    case Scalar(size, num) => size * num
    case Text(num) => StrsSize(v.strings)
    case Blob => 4 + |v.data|
  }

  lemma FieldSizeIsSize(f: Field, v: Val)
    requires FieldTyped(f, v)
    ensures FieldSize(f, v) == Size(v)
  {
    if f.Scalar? {
      ScalarSize(v.words, f.size);
    }
  }

  // What clearing has done after one more visit.
  lemma ClearedStep(pending: seq<seq<Elem>>, slots: seq<Slot>, n: nat)
    requires n < |slots|
    ensures slots[n].node.Ary? && slots[n].node.id < |pending| ==>
      Cleared(pending, slots[..n + 1]) == Cleared(pending, slots[..n])[slots[n].node.id := []]
    ensures !slots[n].node.Ary? ==> Cleared(pending, slots[..n + 1]) == Cleared(pending, slots[..n])
  {
    assert slots[..n + 1] == slots[..n] + [slots[n]];
    forall j | 0 <= j < |pending|
      ensures Names(slots[..n + 1], j) <==> Names(slots[..n], j) || slots[n].node == Ary(j)
    {
      if Names(slots[..n], j) {
        var k :| 0 <= k < n && slots[..n][k].node == Ary(j);
        assert slots[..n + 1][k].node == Ary(j);
      }
      if slots[n].node == Ary(j) {
        assert slots[..n + 1][n].node == Ary(j);
      }
    }
  }

  // ----- what holds between calls -----

  ghost predicate RowAtRest(nodes: seq<Node>, row: seq<Cursor>) {
    && Flat(nodes) && |row| == |nodes|
    && forall j :: 0 <= j < |row| ==> row[j].iternum == 0 && row[j].rec == 0
  }

  ghost predicate AtRest(s: Schema, rows: seq<seq<Cursor>>) {
    |rows| == |s| && forall r :: 0 <= r < |s| ==> RowAtRest(Nodes(s[r]), rows[r])
  }

  ghost predicate BackboneOk(s: Schema, r: nat, es: seq<Elem>)
    requires r < |s|
  {
    forall e :: e in es ==> ElemTyped(s, r, e)
  }

  ghost predicate BackbonesOk(s: Schema, pending: seq<seq<Elem>>) {
    |pending| == |s| && forall r :: 1 <= r < |s| ==> BackboneOk(s, r, pending[r])
  }

  ghost predicate SizesOk(pending: seq<seq<Elem>>, osz: seq<nat>) {
    |osz| == |pending| && forall r :: 1 <= r < |osz| ==> osz[r] == ElemsSize(pending[r])
  }

  // Sizes while an element of array i is being built.
  ghost predicate Bubbled(i: nat, pending: seq<seq<Elem>>, osz: seq<nat>, here: nat) {
    && |osz| == |pending| && i < |osz| && osz[i] == here
    && forall r :: 1 <= r < |osz| && r != i ==> osz[r] == ElemsSize(pending[r])
  }

  ghost predicate CellOk(t: Slot, data: map<(nat, nat), Val>) {
    t.node.Leaf? ==> Key(t) in data && FieldTyped(t.node.field, data[Key(t)])
  }

  // Every variable of the root has been packed (or is a string still NULL).
  ghost predicate RootReady(s: Schema, data: map<(nat, nat), Val>)
    requires SchemaOk(s)
  {
    forall k :: 0 <= k < |RowSlots(s, 0)| ==> CellOk(RowSlots(s, 0)[k], data)
  }

  ghost function RootVals(s: Schema, data: map<(nat, nat), Val>): (r: seq<Val>)
    requires SchemaOk(s) && RootReady(s, data)
    ensures |r| == |RowSlots(s, 0)|
  {
    var slots := RowSlots(s, 0);
    seq(|slots|, k requires 0 <= k < |slots| =>
      assert CellOk(slots[k], data);
      if slots[k].node.Leaf? then data[Key(slots[k])] else List([]))
  }

  lemma RowReady(s: Schema, rows: seq<seq<Cursor>>, r: nat)
    requires SchemaOk(s) && AtRest(s, rows) && r < |s|
    ensures RowAtRest(Nodes(s[r]), rows[r])
    ensures Walking(Nodes(s[r]), RowSlots(s, r), 0, 0, 0)
    ensures SlotsIn(Nodes(s[r]), RowSlots(s, r)) && Above(s, RowSlots(s, r), r)
  {
    WalkStart(s, r);
    assert RowAtRest(Nodes(s[r]), rows[r]);
  }

  lemma WalkingFacts(nodes: seq<Node>, slots: seq<Slot>, c: nat, it: nat, n: nat)
    requires Walking(nodes, slots, c, it, n)
    ensures Flat(nodes) && c <= |nodes| && it < CountAt(nodes, NextPound(nodes, c)) && n <= |slots|
  {
  }

  // ----- the root while it is being packed -----

  ghost predicate Stored(row: seq<Cursor>, nodes: seq<Node>, slots: seq<Slot>, n: nat, mem: Memory, data: map<(nat, nat), Val>) {
    && Flat(nodes) && |row| == |nodes| && SlotsIn(nodes, slots) && MemOk(row, nodes, slots, mem) && n <= |slots|
    && forall k :: 0 <= k < n && slots[k].node.Leaf? ==>
      Key(slots[k]) in data && data[Key(slots[k])] == mem[SlotAddr(row, nodes, slots[k])]
  }

  lemma StoredStart(row: seq<Cursor>, nodes: seq<Node>, slots: seq<Slot>, mem: Memory, data: map<(nat, nat), Val>)
    requires Flat(nodes) && |row| == |nodes| && SlotsIn(nodes, slots) && MemOk(row, nodes, slots, mem)
    ensures Stored(row, nodes, slots, 0, mem, data)
  {
  }

  lemma StoredStep(row: seq<Cursor>, nodes: seq<Node>, slots: seq<Slot>, n: nat, mem: Memory, data: map<(nat, nat), Val>)
    requires Stored(row, nodes, slots, n, mem, data) && n < |slots| && Distinct(slots)
    ensures slots[n].node.Leaf? ==> SlotAddr(row, nodes, slots[n]) in mem
    ensures slots[n].node.Leaf? ==>
      Stored(row, nodes, slots, n + 1, mem, data[Key(slots[n]) := mem[SlotAddr(row, nodes, slots[n])]])
    ensures !slots[n].node.Leaf? ==> Stored(row, nodes, slots, n + 1, mem, data)
  {
  }

  lemma StoredRoot(s: Schema, row: seq<Cursor>, mem: Memory, pending: seq<seq<Elem>>, data: map<(nat, nat), Val>)
    requires SchemaOk(s) && |pending| == |s| && Above(s, RowSlots(s, 0), 0)
    requires Stored(row, Nodes(s[0]), RowSlots(s, 0), |RowSlots(s, 0)|, mem, data)
    ensures RootReady(s, data)
    ensures RootVals(s, data) == LeafPart(RowSlots(s, 0), PackVals(row, Nodes(s[0]), RowSlots(s, 0), mem, pending))
  {
    var slots := RowSlots(s, 0);
    forall k | 0 <= k < |slots| ensures CellOk(slots[k], data) {
    }
  }

  // ----- an array element while it is being packed -----

  ghost predicate Building(i: nat, slots: seq<Slot>, vals: seq<Val>, pend0: seq<seq<Elem>>, size0: nat, n: nat,
                           elem: seq<Val>, pending: seq<seq<Elem>>, osz: seq<nat>)
  {
    && n <= |slots| == |vals| && elem == vals[..n]
    && pending == Cleared(pend0, slots[..n])
    && Bubbled(i, pending, osz, size0 + ValsSize(elem))
  }

  lemma LeafValue(row: seq<Cursor>, nodes: seq<Node>, slots: seq<Slot>, mem: Memory, pend0: seq<seq<Elem>>, n: nat)
    requires Flat(nodes) && |row| == |nodes| && SlotsIn(nodes, slots) && MemOk(row, nodes, slots, mem)
    requires forall k :: 0 <= k < |slots| && slots[k].node.Ary? ==> slots[k].node.id < |pend0|
    requires n < |slots| && slots[n].node.Leaf?
    ensures SlotAddr(row, nodes, slots[n]) in mem
    ensures PackVals(row, nodes, slots, mem, pend0)[n] == mem[SlotAddr(row, nodes, slots[n])]
    ensures FieldTyped(slots[n].node.field, mem[SlotAddr(row, nodes, slots[n])])
  {
  }

  lemma AryValue(s: Schema, i: nat, row: seq<Cursor>, mem: Memory, pend0: seq<seq<Elem>>, n: nat)
    requires i < |s| == |pend0| && Above(s, RowSlots(s, i), i)
    requires Flat(Nodes(s[i])) && |row| == |Nodes(s[i])| && SlotsIn(Nodes(s[i]), RowSlots(s, i))
    requires MemOk(row, Nodes(s[i]), RowSlots(s, i), mem)
    requires n < |RowSlots(s, i)| && RowSlots(s, i)[n].node.Ary?
    ensures i < RowSlots(s, i)[n].node.id < |s|
    ensures PackVals(row, Nodes(s[i]), RowSlots(s, i), mem, pend0)[n] == List(pend0[RowSlots(s, i)[n].node.id])
  {
    assert RowSlots(s, i)[n] in RowSlots(s, i);
  }

  lemma BuildStart(i: nat, slots: seq<Slot>, vals: seq<Val>, pend0: seq<seq<Elem>>, osz: seq<nat>)
    requires |slots| == |vals| && i < |pend0| && SizesOk(pend0, osz)
    ensures Building(i, slots, vals, pend0, osz[i], 0, [], pend0, osz)
  {
    assert slots[..0] == [];
    assert Cleared(pend0, slots[..0]) == pend0;
  }

  lemma BuildLeaf(i: nat, slots: seq<Slot>, vals: seq<Val>, pend0: seq<seq<Elem>>, size0: nat, n: nat,
                  elem: seq<Val>, pending: seq<seq<Elem>>, osz: seq<nat>)
    requires Building(i, slots, vals, pend0, size0, n, elem, pending, osz)
    requires n < |slots| && slots[n].node.Leaf? && FieldTyped(slots[n].node.field, vals[n]) && 0 < i
    ensures Building(i, slots, vals, pend0, size0, n + 1, elem + [vals[n]], pending,
                     osz[i := osz[i] + FieldSize(slots[n].node.field, vals[n])])
  {
    ClearedStep(pend0, slots, n);
    ValsSizeAppend(elem, vals[n]);
    FieldSizeIsSize(slots[n].node.field, vals[n]);
    hide Cleared;
    assert vals[..n + 1] == vals[..n] + [vals[n]];
  }

  lemma BuildAry(i: nat, slots: seq<Slot>, vals: seq<Val>, pend0: seq<seq<Elem>>, size0: nat, n: nat,
                 elem: seq<Val>, pending: seq<seq<Elem>>, osz: seq<nat>)
    requires Building(i, slots, vals, pend0, size0, n, elem, pending, osz)
    requires n < |slots| && slots[n].node.Ary? && i < slots[n].node.id < |pend0|
    requires vals[n] == List(pend0[slots[n].node.id])
    requires forall m :: 0 <= m < |slots| && m != n ==> slots[m].node != slots[n].node
    ensures var id := slots[n].node.id;
      pending[id] == pend0[id] &&
      Building(i, slots, vals, pend0, size0, n + 1, elem + [List(pending[id])], pending[id := []],
               osz[i := osz[i] + 4 + osz[id]][id := 0])
  {
    var id := slots[n].node.id;
    assert !Names(slots[..n], id);
    ClearedStep(pend0, slots, n);
    ValsSizeAppend(elem, vals[n]);
    hide Cleared;
    assert vals[..n + 1] == vals[..n] + [vals[n]];
  }

  lemma Built(s: Schema, i: nat, row: seq<Cursor>, mem: Memory, pend0: seq<seq<Elem>>, size0: nat,
              elem: seq<Val>, pending: seq<seq<Elem>>, osz: seq<nat>)
    requires SchemaOk(s) && 0 < i < |s| && BackbonesOk(s, pend0) && size0 == ElemsSize(pend0[i])
    requires Flat(Nodes(s[i])) && |row| == |Nodes(s[i])| && SlotsIn(Nodes(s[i]), RowSlots(s, i))
    requires Above(s, RowSlots(s, i), i) && MemOk(row, Nodes(s[i]), RowSlots(s, i), mem)
    requires Building(i, RowSlots(s, i), PackVals(row, Nodes(s[i]), RowSlots(s, i), mem, pend0), pend0, size0, |RowSlots(s, i)|, elem, pending, osz)
    ensures elem == PackVals(row, Nodes(s[i]), RowSlots(s, i), mem, pend0)
    ensures pending == Cleared(pend0, RowSlots(s, i)) && pending[i] == pend0[i] && (pend0[0] == [] ==> pending[0] == [])
    ensures BackbonesOk(s, pending[i := pending[i] + [Elem(elem)]])
    ensures SizesOk(pending[i := pending[i] + [Elem(elem)]], osz)
  {
    var slots := RowSlots(s, i);
    assert slots[..|slots|] == slots;
    assert !Names(slots, i);
    ElemsSizeAppend(pending[i], Elem(elem));
    PackedTyped(s, i, row, mem, pend0);
    hide PackVals, MemOk, SlotsIn, Names;
    BackbonesAppend(s, i, pend0, slots, Elem(elem));
  }

  lemma BackbonesAppend(s: Schema, i: nat, pend0: seq<seq<Elem>>, slots: seq<Slot>, e: Elem)
    requires i < |s| && BackbonesOk(s, pend0) && ElemTyped(s, i, e)
    ensures BackbonesOk(s, Cleared(pend0, slots)[i := Cleared(pend0, slots)[i] + [e]])
  {
    hide ElemTyped, Names;
    var next := Cleared(pend0, slots)[i := Cleared(pend0, slots)[i] + [e]];
    forall r | 1 <= r < |s| ensures BackboneOk(s, r, next[r]) {
      assert BackboneOk(s, r, pend0[r]);
    }
  }

  lemma PackedTyped(s: Schema, i: nat, row: seq<Cursor>, mem: Memory, pend0: seq<seq<Elem>>)
    requires SchemaOk(s) && i < |s| && BackbonesOk(s, pend0)
    requires Flat(Nodes(s[i])) && |row| == |Nodes(s[i])| && SlotsIn(Nodes(s[i]), RowSlots(s, i))
    requires Above(s, RowSlots(s, i), i) && MemOk(row, Nodes(s[i]), RowSlots(s, i), mem)
    ensures ElemTyped(s, i, Elem(PackVals(row, Nodes(s[i]), RowSlots(s, i), mem, pend0)))
  {
    var slots := RowSlots(s, i);
    var vals := PackVals(row, Nodes(s[i]), slots, mem, pend0);
    forall k | 0 <= k < |slots| ensures Typed(s, slots[k].node, vals[k]) {
      if slots[k].node.Ary? {
        assert slots[k] in slots;
        assert BackboneOk(s, slots[k].node.id, pend0[slots[k].node.id]);
      }
    }
    assert ValsTyped(s, slots, vals);
  }

  // ----- a loaded image -----

  // The root's values, and for each array the elements still to be delivered.
  datatype Loaded = Loaded(root: seq<Val>, rem: seq<seq<Elem>>)

  ghost function Nothing(s: Schema): Loaded {
    Loaded([], seq(|s|, _ => []))
  }

  // Array id has n elements left, which start at cur.
  ghost predicate Tail(s: Schema, text: bytes, m: Mode, id: nat, n: nat, cur: Option<nat>, es: seq<Elem>)
    requires SchemaOk(s) && id < |s|
  {
    && n == |es|
    && (n > 0 ==>
      && cur.Some? && cur.value <= |text|
      && var r := ScanElems(s, text, cur.value, id, n, m); r.Good? && r.value == es && !r.wide)
  }

  ghost predicate ImageReadable(s: Schema, fmt: bytes, fxlens: seq<nat>, text: bytes, m: Mode, num: seq<nat>, cur: seq<Option<nat>>, ld: Loaded)
    requires SchemaOk(s)
  {
    && HeaderSize(fmt, fxlens) <= |text| && At(text, 8, fmt + [0])
    && (var d := DataScan(s, fmt, fxlens, text, m); d.Good? && d.value == ld.root && !d.wide)
    && Tails(s, text, m, num, cur, ld.rem, 0)
  }

  // ----- dumping -----

  // The values tpl_dump writes: the root's own and the root-level backbones.
  ghost function Tree(slots: seq<Slot>, root: seq<Val>, pending: seq<seq<Elem>>): (r: seq<Val>)
    requires |root| == |slots|
    requires forall k :: 0 <= k < |slots| && slots[k].node.Ary? ==> slots[k].node.id < |pending|
    ensures |r| == |slots|
  {
    seq(|slots|, k requires 0 <= k < |slots| => if slots[k].node.Ary? then List(pending[slots[k].node.id]) else root[k])
  }

  ghost function TreeOf(s: Schema, data: map<(nat, nat), Val>, pending: seq<seq<Elem>>): (r: seq<Val>)
    requires SchemaOk(s) && RootReady(s, data) && |pending| == |s|
    ensures |r| == |RowSlots(s, 0)|
  {
    WalkStart(s, 0);
    AboveAt(s, RowSlots(s, 0), 0);
    Tree(RowSlots(s, 0), RootVals(s, data), pending)
  }

  lemma AboveAt(s: Schema, slots: seq<Slot>, r: nat)
    requires Above(s, slots, r)
    ensures forall k :: 0 <= k < |slots| && slots[k].node.Ary? ==> r < slots[k].node.id < |s|
  {
    forall k | 0 <= k < |slots| && slots[k].node.Ary? ensures r < slots[k].node.id < |s| {
      assert slots[k] in slots;
    }
  }

  lemma TreeTyped(s: Schema, data: map<(nat, nat), Val>, pending: seq<seq<Elem>>)
    requires SchemaOk(s) && RootReady(s, data) && BackbonesOk(s, pending)
    ensures ValsTyped(s, RowSlots(s, 0), TreeOf(s, data, pending))
  {
    hide Slots, RootReady, BackboneOk, Walking;
    var slots := RowSlots(s, 0);
    var tree := TreeOf(s, data, pending);
    forall k | 0 <= k < |slots| ensures Typed(s, slots[k].node, tree[k]) {
      TreeSlot(s, data, pending, k);
    }
  }

  lemma TreeSlot(s: Schema, data: map<(nat, nat), Val>, pending: seq<seq<Elem>>, n: nat)
    requires SchemaOk(s) && RootReady(s, data) && BackbonesOk(s, pending)
    requires n < |RowSlots(s, 0)|
    ensures var t := RowSlots(s, 0)[n]; var tree := TreeOf(s, data, pending);
      && (t.node.Leaf? ==> Key(t) in data && FieldTyped(t.node.field, data[Key(t)]) && tree[n] == data[Key(t)])
      && (t.node.Ary? ==> 0 < t.node.id < |s| && tree[n] == List(pending[t.node.id]) && BackboneOk(s, t.node.id, pending[t.node.id]))
      && Typed(s, t.node, tree[n])
  {
    hide Slots;
    WalkStart(s, 0);
    AboveAt(s, RowSlots(s, 0), 0);
    assert CellOk(RowSlots(s, 0)[n], data);
    if RowSlots(s, 0)[n].node.Ary? {
      assert BackboneOk(s, RowSlots(s, 0)[n].node.id, pending[RowSlots(s, 0)[n].node.id]);
    }
  }

  lemma PendingSize(s: Schema, pending: seq<seq<Elem>>, osz: seq<nat>, id: nat)
    requires |pending| == |s| && SizesOk(pending, osz) && 0 < id < |s|
    ensures Size(List(pending[id])) == 4 + osz[id]
  {
  }

  lemma SizePrefix(vals: seq<Val>, n: nat)
    requires n < |vals|
    ensures ValsSize(vals[..n + 1]) == ValsSize(vals[..n]) + Size(vals[n])
  {
    assert vals[..n + 1] == vals[..n] + [vals[n]];
    ValsSizeAppend(vals[..n], vals[n]);
  }

  lemma SerSuffix(vals: seq<Val>, n: nat, big: bool)
    requires AllFit(vals) && n < |vals|
    ensures Fits(vals[n]) && AllFit(vals[n..]) && AllFit(vals[n + 1..])
    ensures SerVals(vals[n..], big) == Ser(vals[n], big) + SerVals(vals[n + 1..], big)
  {
    assert vals[n..][0] == vals[n] && vals[n..][1..] == vals[n + 1..];
  }

  // Where a dump stands: what is in the buffer, followed by what is still to
  // be written, is the final content.
  ghost predicate Dumping(done: bytes, vals: seq<Val>, n: nat, big: bool, target: bytes) {
    n <= |vals| && AllFit(vals) && AllFit(vals[n..]) && done + SerVals(vals[n..], big) == target
  }

  lemma DumpStep(done: bytes, vals: seq<Val>, n: nat, big: bool, target: bytes)
    requires Dumping(done, vals, n, big, target) && n < |vals|
    ensures Fits(vals[n]) && |done| + |Ser(vals[n], big)| <= |target|
    ensures Dumping(done + Ser(vals[n], big), vals, n + 1, big, target)
  {
    SerSuffix(vals, n, big);
    assert (done + Ser(vals[n], big)) + SerVals(vals[n + 1..], big) == done + (Ser(vals[n], big) + SerVals(vals[n + 1..], big));
  }

  lemma DumpStart(done: bytes, vals: seq<Val>, big: bool)
    requires AllFit(vals)
    ensures Dumping(done, vals, 0, big, done + SerVals(vals, big))
  {
    assert vals[0..] == vals;
  }

  lemma DumpDone(done: bytes, vals: seq<Val>, big: bool, target: bytes)
    requires Dumping(done, vals, |vals|, big, target)
    ensures done == target
  {
    assert vals[|vals|..] == [];
  }

  lemma ElemsSuffix(es: seq<Elem>, b: nat, big: bool)
    requires Fits(List(es)) && b < |es|
    ensures AllFit(es[b].vals) && Fits(List(es[b..])) && Fits(List(es[b + 1..]))
    ensures SerElems(es[b..], big) == SerVals(es[b].vals, big) + SerElems(es[b + 1..], big)
  {
    assert es[b..][0] == es[b] && es[b..][1..] == es[b + 1..];
  }

  // The same for a backbone: elements b.. are still to be written.
  ghost predicate DumpingElems(done: bytes, es: seq<Elem>, b: nat, big: bool, target: bytes) {
    b <= |es| && Fits(List(es)) && Fits(List(es[b..])) && done + SerElems(es[b..], big) == target
  }

  lemma DumpElemsStart(done: bytes, es: seq<Elem>, big: bool)
    requires Fits(List(es))
    ensures DumpingElems(done + Word32(|es|, big), es, 0, big, done + Ser(List(es), big))
  {
    assert es[0..] == es;
    assert (done + Word32(|es|, big)) + SerElems(es, big) == done + (Word32(|es|, big) + SerElems(es, big));
  }

  lemma DumpElemsRoom(done: bytes, es: seq<Elem>, big: bool)
    requires Fits(List(es))
    ensures 4 <= |Ser(List(es), big)| && |es| < TWO_TO_THE_31
  {
  }

  lemma DumpElemsStep(done: bytes, es: seq<Elem>, b: nat, big: bool, target: bytes)
    requires DumpingElems(done, es, b, big, target) && b < |es|
    ensures AllFit(es[b].vals) && |done| + |SerVals(es[b].vals, big)| <= |target|
    ensures DumpingElems(done + SerVals(es[b].vals, big), es, b + 1, big, target)
  {
    ElemsSuffix(es, b, big);
    var x, y := SerVals(es[b].vals, big), SerElems(es[b + 1..], big);
    assert (done + x) + y == done + (x + y);
  }

  lemma DumpElemsDone(done: bytes, es: seq<Elem>, big: bool, target: bytes)
    requires DumpingElems(done, es, |es|, big, target)
    ensures done == target
  {
    assert es[|es|..] == [];
  }

  lemma ElemFits(s: Schema, id: nat, es: seq<Elem>, b: nat)
    requires id < |s| && BackboneOk(s, id, es) && b < |es|
    ensures ValsTyped(s, RowSlots(s, id), es[b].vals)
  {
    assert es[b] in es && ElemTyped(s, id, es[b]);
  }

  lemma TypedLength(s: Schema, slots: seq<Slot>, vals: seq<Val>)
    requires ValsTyped(s, slots, vals)
    ensures |vals| == |slots|
  {
  }

  lemma ElemArrayOk(s: Schema, slots: seq<Slot>, vals: seq<Val>, n: nat, r: nat)
    requires ValsTyped(s, slots, vals) && n < |slots| && slots[n].node.Ary? && Above(s, slots, r)
    ensures r < slots[n].node.id < |s| && vals[n].List? && BackboneOk(s, slots[n].node.id, vals[n].elems)
  {
    assert slots[n] in slots && Typed(s, slots[n].node, vals[n]);
  }

  // ----- checked lengths -----

  function EndOf<T>(r: Scan<T>): Option<nat> {
    match r
    case Bad => None
    case Good(_, end, _) => Some(end)
  }

  lemma ElemsEnd(s: Schema, text: bytes, pos: nat, r: nat, n: nat, m: Mode)
    requires SchemaOk(s) && r < |s| && pos <= |text|
    ensures Above(s, RowSlots(s, r), r)
    ensures n == 0 ==> EndOf(ScanElems(s, text, pos, r, n, m)) == Some(pos)
    ensures n > 0 ==>
      var mid := EndOf(ScanVals(s, text, pos, RowSlots(s, r), m, r));
      && (mid.None? ==> EndOf(ScanElems(s, text, pos, r, n, m)) == None)
      && (mid.Some? ==> mid.value <= |text| && EndOf(ScanElems(s, text, pos, r, n, m)) == EndOf(ScanElems(s, text, mid.value, r, n - 1, m)))
  {
    hide ScanVals, SchemaOk, Slots;
    RowAbove(s, r);
  }

  lemma ValsEnd(s: Schema, text: bytes, pos: nat, slots: seq<Slot>, n: nat, m: Mode, r: nat)
    requires SchemaOk(s) && r < |s| && pos <= |text| && n < |slots| && Above(s, slots[n..], r)
    ensures slots[n].node.Ary? ==> r < slots[n].node.id < |s|
    ensures Above(s, slots[n + 1..], r)
    ensures var mid := EndOf(ScanNode(s, text, pos, slots[n].node, m, r));
      && (mid.None? ==> EndOf(ScanVals(s, text, pos, slots[n..], m, r)) == None)
      && (mid.Some? ==> mid.value <= |text| && EndOf(ScanVals(s, text, pos, slots[n..], m, r)) == EndOf(ScanVals(s, text, mid.value, slots[n + 1..], m, r)))
  {
    hide SchemaOk, ScanNode;
    assert slots[n] in slots[n..];
    assert slots[n..][0] == slots[n] && slots[n..][1..] == slots[n + 1..];
  }

  lemma ValsEndDone(s: Schema, text: bytes, pos: nat, slots: seq<Slot>, m: Mode, r: nat)
    requires SchemaOk(s) && r < |s| && pos <= |text| && Above(s, slots[|slots|..], r)
    ensures EndOf(ScanVals(s, text, pos, slots[|slots|..], m, r)) == Some(pos)
  {
    hide SchemaOk, ScanNode;
    assert slots[|slots|..] == [];
  }

  // ----- sanity -----

  datatype Flags = Flags(wronly: bool, rdonly: bool, xendian: bool, v12: bool)

  // tpl_needs_endian_swap
  function NeedsSwap(flagByte: byte, hostBig: bool): bool {
    (flagByte % 2 == 1) != hostBig
  }

  // The flags after tpl_sanity: bits are set for this image, never cleared.
  function SanityFlags(f: Flags, text: bytes, hostBig: bool): Flags {
    if |text| < 9 || text[..3] != MAGIC then f
    else
      var g := if NeedsSwap(text[3], hostBig) then f.(xendian := true) else f;
      if text[3] < 2 then g.(v12 := true) else g
  }

  // The mode in which tpl_load checks an image: flags left by an earlier
  // rejected image stay, unless the tpl held packed or loaded data.
  function LoadMode(f: Flags, image: bytes, hostBig: bool): Mode {
    var g := SanityFlags(if f.wronly || f.rdonly then Flags(false, false, false, false) else f, image, hostBig);
    Mode(if g.xendian then !hostBig else hostBig, g.xendian, g.v12)
  }

  // The first NUL at or behind position 8 ends the stored format string.
  lemma FmtInText(s: Schema, fmt: bytes, fxlens: seq<nat>, text: bytes, dv: nat)
    requires FmtOk(s, fmt, fxlens) && 8 <= dv <= |text|
    requires forall j :: 8 <= j < dv ==> text[j] != 0
    requires dv == |text| || text[dv] == 0
    ensures At(text, 8, fmt + [0]) <==> dv < |text| && text[8..dv] == fmt
  {
    if At(text, 8, fmt + [0]) {
      NulAt(s, fmt, fxlens, text);
      assert dv == 8 + |fmt|;
    }
    if dv < |text| && text[8..dv] == fmt {
      assert text[8..8 + |fmt| + 1] == fmt + [0];
    }
  }

  lemma NulAt(s: Schema, fmt: bytes, fxlens: seq<nat>, text: bytes)
    requires FmtOk(s, fmt, fxlens) && At(text, 8, fmt + [0])
    ensures text[8 + |fmt|] == 0 && text[8..8 + |fmt|] == fmt
    ensures forall j :: 8 <= j < 8 + |fmt| ==> text[j] != 0 && text[j] in FMT_CHARS
  {
    var part := fmt + [0];
    var got := text[8..8 + |part|];
    assert got[|fmt|] == part[|fmt|];
    assert text[8..8 + |fmt|] == got[..|fmt|];
    forall j | 8 <= j < 8 + |fmt| ensures text[j] == fmt[j - 8] {
      assert got[j - 8] == part[j - 8];
    }
  }

  lemma BadChar(s: Schema, fmt: bytes, fxlens: seq<nat>, text: bytes, dv: nat)
    requires FmtOk(s, fmt, fxlens) && 8 <= dv < |text| && text[dv] != 0 && text[dv] !in FMT_CHARS
    requires forall j :: 8 <= j < dv ==> text[j] != 0
    ensures !At(text, 8, fmt + [0])
  {
    if At(text, 8, fmt + [0]) {
      NulAt(s, fmt, fxlens, text);
    }
  }

  // ----- unpacking -----

  // The C variables after the first n slots have been unpacked into them.
  ghost function Written(row: seq<Cursor>, nodes: seq<Node>, slots: seq<Slot>, vals: seq<Val>, mem: Memory, n: nat): Memory
    requires Flat(nodes) && |row| == |nodes| && SlotsIn(nodes, slots) && |vals| == |slots| && n <= |slots|
  {
    if n == 0 then mem
    else
      var m := Written(row, nodes, slots, vals, mem, n - 1);
      if slots[n - 1].node.Leaf? then m[SlotAddr(row, nodes, slots[n - 1]) := vals[n - 1]] else m
  }

  // The elements arrays have to deliver after the first n slots: unpacking a
  // row hands each of its arrays the elements found in that row.
  ghost function Delivered(rem: seq<seq<Elem>>, slots: seq<Slot>, vals: seq<Val>, n: nat): (r: seq<seq<Elem>>)
    requires |vals| == |slots| && n <= |slots|
    requires forall k :: 0 <= k < |slots| && slots[k].node.Ary? ==> slots[k].node.id < |rem| && vals[k].List?
    ensures |r| == |rem|
  {
    if n == 0 then rem
    else
      var r := Delivered(rem, slots, vals, n - 1);
      if slots[n - 1].node.Ary? then r[slots[n - 1].node.id := vals[n - 1].elems] else r
  }

  ghost predicate Shaped(s: Schema, r: nat, vals: seq<Val>)
    requires r < |s|
  {
    var slots := RowSlots(s, r);
    && |vals| == |slots|
    && forall k :: 0 <= k < |slots| && slots[k].node.Ary? ==> r < slots[k].node.id < |s| && vals[k].List?
  }

  ghost predicate Deliverable(s: Schema, ld: Loaded, i: nat) {
    && i < |s| == |ld.rem|
    && (i > 0 ==> ld.rem[i] != [])
    && Shaped(s, i, NextVals(ld, i))
  }

  ghost function NextVals(ld: Loaded, i: nat): seq<Val> {
    if i == 0 then ld.root else if i < |ld.rem| && ld.rem[i] != [] then ld.rem[i][0].vals else []
  }

  // One tpl_unpack call that delivers something.
  ghost function UnpackStep(s: Schema, ld: Loaded, i: nat): Loaded
    requires Deliverable(s, ld, i)
  {
    var rem := if i == 0 then ld.rem else ld.rem[i := ld.rem[i][1..]];
    Loaded(ld.root, Delivered(rem, RowSlots(s, i), NextVals(ld, i), |RowSlots(s, i)|))
  }

  // ----- where an unpacking walk stands -----

  // The slots from n on are at pos, hold vals[n..], and end at end.
  ghost predicate Rest(s: Schema, text: bytes, m: Mode, r: nat, pos: nat, n: nat, vals: seq<Val>, end: nat)
    requires SchemaOk(s) && r < |s|
  {
    && pos <= |text| && n <= |RowSlots(s, r)| == |vals| && Above(s, RowSlots(s, r)[n..], r)
    && ScanVals(s, text, pos, RowSlots(s, r)[n..], m, r) == Good(vals[n..], end, false)
  }

  lemma RestStart(s: Schema, text: bytes, m: Mode, r: nat, pos: nat, vals: seq<Val>, end: nat)
    requires SchemaOk(s) && r < |s| && pos <= |text| && Above(s, RowSlots(s, r), r)
    requires ScanVals(s, text, pos, RowSlots(s, r), m, r) == Good(vals, end, false)
    ensures Rest(s, text, m, r, pos, 0, vals, end)
  {
    hide ScanVals, SchemaOk, Slots;
    assert RowSlots(s, r)[0..] == RowSlots(s, r) && vals[0..] == vals;
  }

  lemma RestStep(s: Schema, text: bytes, m: Mode, r: nat, pos: nat, n: nat, vals: seq<Val>, end: nat)
    requires SchemaOk(s) && r < |s| && Rest(s, text, m, r, pos, n, vals, end) && n < |RowSlots(s, r)|
    ensures var node := RowSlots(s, r)[n].node;
      && (node.Ary? ==> r < node.id < |s|)
      && var res := ScanNode(s, text, pos, node, m, r);
         res.Good? && res.value == vals[n] && !res.wide && Rest(s, text, m, r, res.end, n + 1, vals, end)
  {
    hide SchemaOk, ScanNode, Slots;
    var slots := RowSlots(s, r);
    assert slots[n] in slots[n..];
    assert slots[n..][0] == slots[n] && slots[n..][1..] == slots[n + 1..];
    assert vals[n..][0] == vals[n] && vals[n..][1..] == vals[n + 1..];
  }

  lemma RestDone(s: Schema, text: bytes, m: Mode, r: nat, pos: nat, vals: seq<Val>, end: nat)
    requires SchemaOk(s) && r < |s| && Rest(s, text, m, r, pos, |RowSlots(s, r)|, vals, end)
    ensures pos == end
  {
    assert RowSlots(s, r)[|RowSlots(s, r)|..] == [];
  }

  // Reading an array node: its count, and where its elements start.
  lemma ArrayTail(s: Schema, text: bytes, m: Mode, r: nat, pos: nat, id: nat)
    requires SchemaOk(s) && r < id < |s| && pos <= |text|
    requires var res := ScanNode(s, text, pos, Ary(id), m, r); res.Good? && !res.wide
    ensures pos + 4 <= |text|
    ensures var res := ScanNode(s, text, pos, Ary(id), m, r);
      res.value.List? && Tail(s, text, m, id, ReadWord32(text[pos..pos + 4], m.big), Some(pos + 4), res.value.elems)
  {
    hide ScanElems, ReadWord32, SchemaOk;
  }

  // The next element of an array, and the tail behind it.
  lemma TailStep(s: Schema, text: bytes, m: Mode, id: nat, n: nat, cur: Option<nat>, es: seq<Elem>)
    requires SchemaOk(s) && 0 < id < |s| && Tail(s, text, m, id, n, cur, es) && n > 0
    ensures cur.Some? && cur.value <= |text| && Above(s, RowSlots(s, id), id)
    ensures var res := ScanVals(s, text, cur.value, RowSlots(s, id), m, id);
      res.Good? && !res.wide && res.value == es[0].vals && Tail(s, text, m, id, n - 1, Some(res.end), es[1..])
  {
    hide ScanVals, SchemaOk, Slots;
    RowAbove(s, id);
  }

  // Scanned values have the shape of their row.
  lemma {:induction false} ScanShape(s: Schema, text: bytes, pos: nat, slots: seq<Slot>, m: Mode, r: nat)
    requires SchemaOk(s) && r < |s| && Above(s, slots, r) && pos <= |text|
    ensures var res := ScanVals(s, text, pos, slots, m, r); res.Good? ==>
      forall k :: 0 <= k < |slots| && slots[k].node.Ary? ==> r < slots[k].node.id < |s| && res.value[k].List?
    decreases |slots|
  {
    hide SchemaOk;
    if slots != [] {
      assert slots[0] in slots;
      var res := ScanNode(s, text, pos, slots[0].node, m, r);
      if res.Good? {
        ScanShape(s, text, res.end, slots[1..], m, r);
      }
    }
  }

  lemma RowShape(s: Schema, text: bytes, pos: nat, m: Mode, r: nat)
    requires SchemaOk(s) && r < |s| && Above(s, RowSlots(s, r), r) && pos <= |text|
    requires ScanVals(s, text, pos, RowSlots(s, r), m, r).Good?
    ensures Shaped(s, r, ScanVals(s, text, pos, RowSlots(s, r), m, r).value)
  {
    hide ScanVals, SchemaOk, Slots;
    ScanShape(s, text, pos, RowSlots(s, r), m, r);
  }

  // ----- images without the null-string flag -----

  lemma {:induction false} NoTextRow(row: Row, base: nat)
    requires forall j :: 0 <= j < |row| ==> !ItemHasText(row[j])
    ensures NoTextSlots(Slots(row, base))
    decreases |row|
  {
    hide Slots, Nodes, NodesOf, ItemSlots, ItemHasText;
    SlotsUnfold(row, base);
    if row == [] {
    } else {
      NoTextItem(row[0], base);
      NoTextRow(row[1..], base + |NodesOf(row[0])|);
    }
  }

  ghost predicate NoTextSlots(slots: seq<Slot>) {
    forall k :: 0 <= k < |slots| && slots[k].node.Leaf? ==> !slots[k].node.field.Text?
  }

  lemma NoTextItem(item: Item, base: nat)
    requires !ItemHasText(item)
    ensures NoTextSlots(ItemSlots(item, base))
  {
    hide Passes;
    if item.Struct? {
      PassesFit(item.fields, base, 0, item.count);
    }
  }

  // Without string fields the 1.2 string format makes no difference.
  lemma {:induction false} FormatIrrelevant(s: Schema, text: bytes, pos: nat, slots: seq<Slot>, m: Mode, r: nat)
    requires SchemaOk(s) && !HasText(s) && r < |s| && Above(s, slots, r) && pos <= |text| && NoTextSlots(slots)
    ensures ScanVals(s, text, pos, slots, m.(v12 := false), r) == ScanVals(s, text, pos, slots, m, r)
    decreases |s| - r, 0, |slots|
  {
    hide SchemaOk, HasText;
    if slots != [] {
      assert slots[0] in slots;
      if slots[0].node.Ary? {
        ArrayFormatIrrelevant(s, text, pos, slots[0].node.id, m, r);
      }
      assert ScanNode(s, text, pos, slots[0].node, m.(v12 := false), r) == ScanNode(s, text, pos, slots[0].node, m, r);
      var res := ScanNode(s, text, pos, slots[0].node, m, r);
      if res.Good? {
        FormatIrrelevant(s, text, res.end, slots[1..], m, r);
      }
    }
  }

  lemma {:induction false} ArrayFormatIrrelevant(s: Schema, text: bytes, pos: nat, id: nat, m: Mode, r: nat)
    requires SchemaOk(s) && !HasText(s) && r < id < |s| && pos <= |text|
    ensures ScanNode(s, text, pos, Ary(id), m.(v12 := false), r) == ScanNode(s, text, pos, Ary(id), m, r)
    decreases |s| - id, 2
  {
    hide ScanElems, ReadWord32, SchemaOk, HasText;
    if pos + 4 <= |text| {
      var n := ReadWord32(text[pos..pos + 4], m.big);
      ElemsFormatIrrelevant(s, text, pos + 4, id, n, m);
    }
  }

  lemma {:induction false} ElemsFormatIrrelevant(s: Schema, text: bytes, pos: nat, id: nat, n: nat, m: Mode)
    requires SchemaOk(s) && !HasText(s) && id < |s| && pos <= |text|
    ensures ScanElems(s, text, pos, id, n, m.(v12 := false)) == ScanElems(s, text, pos, id, n, m)
    decreases |s| - id, 1, n
  {
    hide ScanVals, SchemaOk, HasText, Slots;
    if n > 0 {
      RowAbove(s, id);
      RowNoText(s, id);
      FormatIrrelevant(s, text, pos, RowSlots(s, id), m, id);
      var res := ScanVals(s, text, pos, RowSlots(s, id), m, id);
      if res.Good? {
        ElemsFormatIrrelevant(s, text, res.end, id, n - 1, m);
      }
    }
  }

  lemma RowNoText(s: Schema, id: nat)
    requires SchemaOk(s) && !HasText(s) && id < |s|
    ensures NoTextSlots(RowSlots(s, id))
  {
    hide SchemaOk;
    forall j | 0 <= j < |s[id]| ensures !ItemHasText(s[id][j]) {
    }
    NoTextRow(s[id], 0);
  }

  // The mode in which tpl_unpack reads a loaded image, whatever it was checked in.
  function ReadBackMode(image: bytes, hostBig: bool): Mode
    requires 4 <= |image|
  {
    var swap := NeedsSwap(image[3], hostBig);
    Mode(if swap then !hostBig else hostBig, swap, false)
  }

  // What tpl_load takes on trust about an image it accepts: read the way
  // tpl_unpack reads it, its data are well formed and no count reaches 2^31.
  ghost predicate Trusted(s: Schema, fmt: bytes, fxlens: seq<nat>, image: bytes, hostBig: bool)
    requires SchemaOk(s) && HeaderSize(fmt, fxlens) <= |image| && 4 <= |image|
  {
    var d := DataScan(s, fmt, fxlens, image, ReadBackMode(image, hostBig));
    d.Good? && !d.wide
  }

  // With no stale flag from a rejected image, and strings in the present
  // format or none at all, an accepted image is to be trusted exactly when
  // every stored count that is read stays below 2^31.
  lemma AcceptedIsTrusted(s: Schema, fmt: bytes, fxlens: seq<nat>, f: Flags, image: bytes, hostBig: bool, excess: bool)
    requires SchemaOk(s) && 0 < |s| && Accepts(s, fmt, fxlens, image, LoadMode(f, image, hostBig), excess)
    requires f.wronly || f.rdonly || !f.xendian
    requires LoadMode(f, image, hostBig).v12 ==> !HasText(s)
    ensures HeaderSize(fmt, fxlens) <= |image| && 4 <= |image|
    ensures Trusted(s, fmt, fxlens, image, hostBig) <==> !DataScan(s, fmt, fxlens, image, LoadMode(f, image, hostBig)).wide
  {
    hide SchemaOk, ScanVals, Slots, At, LensMatch, HasText;
    var m := LoadMode(f, image, hostBig);
    assert ReadBackMode(image, hostBig) == m.(v12 := false);
    RowAbove(s, 0);
    if m.v12 {
      RowNoText(s, 0);
      FormatIrrelevant(s, image, HeaderSize(fmt, fxlens), RowSlots(s, 0), m, 0);
    }
  }

  // Right after loading, root-level arrays have everything left and nested
  // ones nothing.
  ghost function FreshlyLoaded(s: Schema, root: seq<Val>): Loaded
    requires SchemaOk(s) && Shaped(s, 0, root)
  {
    Loaded(root, Delivered(Nothing(s).rem, RowSlots(s, 0), root, |RowSlots(s, 0)|))
  }

  lemma TrustedShape(s: Schema, fmt: bytes, fxlens: seq<nat>, image: bytes, hostBig: bool)
    requires SchemaOk(s) && 0 < |s| && HeaderSize(fmt, fxlens) <= |image| && 4 <= |image|
    requires Trusted(s, fmt, fxlens, image, hostBig)
    ensures var d := DataScan(s, fmt, fxlens, image, ReadBackMode(image, hostBig)); d.Good? && !d.wide && Shaped(s, 0, d.value)
  {
    hide SchemaOk, ScanVals, Slots;
    RowAbove(s, 0);
    RowShape(s, image, HeaderSize(fmt, fxlens), ReadBackMode(image, hostBig), 0);
  }

  ghost predicate AtRow(s: Schema, rows: seq<seq<Cursor>>, r: nat) {
    && r < |s| == |rows| && Flat(Nodes(s[r])) && |rows[r]| == |Nodes(s[r])|
    && SlotsIn(Nodes(s[r]), RowSlots(s, r))
  }

  // Every array but r stands in front of what it has left.
  ghost predicate Tails(s: Schema, text: bytes, m: Mode, num: seq<nat>, cur: seq<Option<nat>>, rem: seq<seq<Elem>>, r: nat)
    requires SchemaOk(s)
  {
    && |num| == |cur| == |rem| == |s|
    && forall id :: 1 <= id < |s| && id != r ==> Tail(s, text, m, id, num[id], cur[id], rem[id])
  }

  lemma NothingTails(s: Schema, text: bytes, m: Mode, num: seq<nat>, cur: seq<Option<nat>>)
    requires SchemaOk(s) && |num| == |cur| == |s| && forall id :: 0 <= id < |s| ==> num[id] == 0
    ensures Tails(s, text, m, num, cur, Nothing(s).rem, 0)
  {
  }

  lemma AcceptedHeader(s: Schema, fmt: bytes, fxlens: seq<nat>, text: bytes, m: Mode, excess: bool)
    requires SchemaOk(s) && Accepts(s, fmt, fxlens, text, m, excess)
    ensures 9 <= |text| && text[..3] == MAGIC && HeaderSize(fmt, fxlens) <= |text| && At(text, 8, fmt + [0])
  {
  }

  lemma RestBounds(s: Schema, text: bytes, m: Mode, r: nat, pos: nat, n: nat, vals: seq<Val>, end: nat)
    requires SchemaOk(s) && r < |s| && Rest(s, text, m, r, pos, n, vals, end)
    ensures pos <= |text| && n <= |RowSlots(s, r)| == |vals| && end <= |text|
  {
  }

  lemma LeafNode(s: Schema, text: bytes, pos: nat, f: Field, m: Mode, r: nat)
    requires SchemaOk(s) && r < |s| && pos <= |text|
    ensures ScanNode(s, text, pos, Leaf(f), m, r) == ScanField(text, pos, f, m)
  {
  }

  lemma TreeShaped(s: Schema, data: map<(nat, nat), Val>, pending: seq<seq<Elem>>)
    requires SchemaOk(s) && RootReady(s, data) && BackbonesOk(s, pending) && 0 < |s|
    ensures Shaped(s, 0, TreeOf(s, data, pending))
  {
    hide SchemaOk, TreeOf, RootReady, Slots;
    forall k | 0 <= k < |RowSlots(s, 0)| && RowSlots(s, 0)[k].node.Ary?
      ensures 0 < RowSlots(s, 0)[k].node.id < |s| && TreeOf(s, data, pending)[k].List?
    {
      TreeSlot(s, data, pending, k);
    }
  }

  // What a packed tpl holds once it has been dumped and loaded.
  ghost function PackedAsLoaded(s: Schema, data: map<(nat, nat), Val>, pending: seq<seq<Elem>>): Loaded
    requires SchemaOk(s) && RootReady(s, data) && BackbonesOk(s, pending) && 0 < |s|
  {
    TreeShaped(s, data, pending);
    FreshlyLoaded(s, TreeOf(s, data, pending))
  }

  // The image this host has just dumped passes its own sanity check, and what
  // tpl_load takes on trust holds of it.
  lemma OwnImage(s: Schema, fmt: bytes, fxlens: seq<nat>, data: map<(nat, nat), Val>, pending: seq<seq<Elem>>, host: bool, f: Flags)
    requires SchemaOk(s) && FmtOk(s, fmt, fxlens) && RootReady(s, data) && BackbonesOk(s, pending) && 0 < |s|
    requires AllFit(TreeOf(s, data, pending)) && HeaderSize(fmt, fxlens) + ValsSize(TreeOf(s, data, pending)) < TWO_TO_THE_32
    requires f.wronly || f.rdonly || (!f.xendian && !f.v12)
    ensures var image := Image(fmt, fxlens, TreeOf(s, data, pending), host);
      var m := LoadMode(f, image, host);
      && Accepts(s, fmt, fxlens, image, m, false) && HeaderSize(fmt, fxlens) <= |image| && 4 <= |image|
      && Trusted(s, fmt, fxlens, image, host)
      && DataScan(s, fmt, fxlens, image, ReadBackMode(image, host))
         == Good(TreeOf(s, data, pending), HeaderSize(fmt, fxlens) + ValsSize(TreeOf(s, data, pending)), false)
  {
    ForeignImage(s, fmt, fxlens, TreeOf(s, data, pending), host, host, f) by {
      TreeTyped(s, data, pending);
    }
    SameHostVals(TreeOf(s, data, pending));
  }

  // The same for an image dumped on a host of either byte order: it is accepted
  // and scanned as the packed values in this host's byte order.
  lemma ForeignImage(s: Schema, fmt: bytes, fxlens: seq<nat>, vals: seq<Val>, writer: bool, reader: bool, f: Flags)
    requires SchemaOk(s) && FmtOk(s, fmt, fxlens) && 0 < |s|
    requires ValsTyped(s, RowSlots(s, 0), vals) && AllFit(vals) && HeaderSize(fmt, fxlens) + ValsSize(vals) < TWO_TO_THE_32
    requires f.wronly || f.rdonly || (!f.xendian && !f.v12)
    ensures var image := Image(fmt, fxlens, vals, writer);
      var m := LoadMode(f, image, reader);
      && Accepts(s, fmt, fxlens, image, m, false) && HeaderSize(fmt, fxlens) <= |image| && 4 <= |image|
      && Trusted(s, fmt, fxlens, image, reader)
      && DataScan(s, fmt, fxlens, image, ReadBackMode(image, reader))
         == Good(ViewVals(vals, writer != reader), HeaderSize(fmt, fxlens) + ValsSize(vals), false)
  {
    hide SchemaOk, FmtOk, DataScan, HeaderMatches, ValsTyped, AllFit, ViewVals, Slots, ScanVals, HasText, Preamble, SerVals;
    LensAreInts(s, fmt, fxlens);
    var image := Image(fmt, fxlens, vals, writer);
    ImageAccepted(s, fmt, fxlens, vals, writer, writer != reader, false);
    AcceptedHeader(s, fmt, fxlens, image, Mode(writer, writer != reader, false), false);
    var m := LoadMode(f, image, reader);
    FlagByteReads(s, fmt, fxlens, writer, reader);
    if m.v12 {
      DataFormatIrrelevant(s, fmt, fxlens, image, m);
    }
  }

  lemma FlagByteReads(s: Schema, fmt: bytes, fxlens: seq<nat>, writer: bool, reader: bool)
    requires FmtOk(s, fmt, fxlens)
    ensures NeedsSwap(FlagByte(fmt, writer), reader) == (writer != reader)
    ensures FlagByte(fmt, writer) < 2 ==> !HasText(s)
  {
  }

  lemma DataFormatIrrelevant(s: Schema, fmt: bytes, fxlens: seq<nat>, image: bytes, m: Mode)
    requires SchemaOk(s) && !HasText(s) && 0 < |s| && HeaderSize(fmt, fxlens) <= |image|
    ensures DataScan(s, fmt, fxlens, image, m.(v12 := false)) == DataScan(s, fmt, fxlens, image, m)
  {
    hide SchemaOk, ScanVals, Slots, HasText;
    RowAbove(s, 0);
    RowNoText(s, 0);
    FormatIrrelevant(s, image, HeaderSize(fmt, fxlens), RowSlots(s, 0), m, 0);
  }

  lemma DeliveredStep(rem: seq<seq<Elem>>, slots: seq<Slot>, vals: seq<Val>, n: nat)
    requires |vals| == |slots| && n < |slots|
    requires forall k :: 0 <= k < |slots| && slots[k].node.Ary? ==> slots[k].node.id < |rem| && vals[k].List?
    ensures Delivered(rem, slots, vals, 0) == rem
    ensures Delivered(rem, slots, vals, n + 1) ==
      if slots[n].node.Ary? then Delivered(rem, slots, vals, n)[slots[n].node.id := vals[n].elems] else Delivered(rem, slots, vals, n)
  {
  }

  lemma DeliveredStart(rem: seq<seq<Elem>>, slots: seq<Slot>, vals: seq<Val>)
    requires |vals| == |slots|
    requires forall k :: 0 <= k < |slots| && slots[k].node.Ary? ==> slots[k].node.id < |rem| && vals[k].List?
    ensures Delivered(rem, slots, vals, 0) == rem
  {
  }

  lemma WrittenStep(row: seq<Cursor>, nodes: seq<Node>, slots: seq<Slot>, vals: seq<Val>, mem: Memory, n: nat)
    requires Flat(nodes) && |row| == |nodes| && SlotsIn(nodes, slots) && |vals| == |slots| && n < |slots|
    ensures Written(row, nodes, slots, vals, mem, n + 1) ==
      if slots[n].node.Leaf? then Written(row, nodes, slots, vals, mem, n)[SlotAddr(row, nodes, slots[n]) := vals[n]]
      else Written(row, nodes, slots, vals, mem, n)
  {
  }

  lemma WrittenStart(row: seq<Cursor>, nodes: seq<Node>, slots: seq<Slot>, vals: seq<Val>, mem: Memory)
    requires Flat(nodes) && |row| == |nodes| && SlotsIn(nodes, slots) && |vals| == |slots|
    ensures Written(row, nodes, slots, vals, mem, 0) == mem
  {
  }

  lemma TailsSet(s: Schema, text: bytes, m: Mode, num: seq<nat>, cur: seq<Option<nat>>, rem: seq<seq<Elem>>, r: nat,
                 id: nat, n: nat, at: Option<nat>, es: seq<Elem>)
    requires SchemaOk(s) && Tails(s, text, m, num, cur, rem, r) && 0 < id < |s|
    requires Tail(s, text, m, id, n, at, es)
    ensures Tails(s, text, m, num[id := n], cur[id := at], rem[id := es], r)
    ensures r == id ==> Tails(s, text, m, num[id := n], cur[id := at], rem[id := es], 0)
  {
    hide Tail, SchemaOk;
  }
}
