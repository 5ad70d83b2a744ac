// Whole runs: any sequence of packs, a dump on one host, a load on another,
// any sequence of unpacks.
module TplRuns {
  import opened Bytes
  import opened TplSchema
  import opened TplWire
  import opened TplImage
  import opened TplState
  import opened TplCounters
  import opened TplReset
  import opened TplObject

  // ----- packing runs -----

  datatype PackCall = PackCall(row: nat, mem: Memory)

  ghost predicate CallOk(s: Schema, rows: seq<seq<Cursor>>, call: PackCall) {
    && call.row < |s| == |rows|
    && Flat(Nodes(s[call.row])) && |rows[call.row]| == |Nodes(s[call.row])|
    && SlotsIn(Nodes(s[call.row]), RowSlots(s, call.row)) && Above(s, RowSlots(s, call.row), call.row)
    && MemOk(rows[call.row], Nodes(s[call.row]), RowSlots(s, call.row), call.mem)
  }

  ghost predicate CallsOk(s: Schema, rows: seq<seq<Cursor>>, calls: seq<PackCall>) {
    forall k :: 0 <= k < |calls| ==> CallOk(s, rows, calls[k])
  }

  ghost function PackRun(s: Schema, rows: seq<seq<Cursor>>, st: Packed, calls: seq<PackCall>): (r: Packed)
    requires |st.pending| == |s| && CallsOk(s, rows, calls)
    ensures |r.pending| == |s|
    decreases |calls|
  {
    if calls == [] then st
    else
      var n := |calls| - 1;
      PackStep(s, rows, PackRun(s, rows, st, calls[..n]), calls[n].row, calls[n].mem)
  }

  // Packing row c takes over what array i has collected.
  predicate Holds(s: Schema, c: nat, i: nat) {
    c < |s| && Array(i) in s[c]
  }

  // The elements the calls on array i build, in call order.
  ghost function Collected(s: Schema, rows: seq<seq<Cursor>>, st: Packed, calls: seq<PackCall>, i: nat): seq<Elem>
    requires |st.pending| == |s| && CallsOk(s, rows, calls)
    decreases |calls|
  {
    if calls == [] then []
    else
      var n := |calls| - 1;
      var before := PackRun(s, rows, st, calls[..n]);
      var c := calls[n].row;
      Collected(s, rows, st, calls[..n], i)
      + if c == i then [Elem(PackVals(rows[c], Nodes(s[c]), RowSlots(s, c), calls[n].mem, before.pending))] else []
  }

  // As long as the row holding array i is not packed, the array collects
  // exactly its own elements in the order of the calls, whatever else is packed.
  lemma {:induction false} PackInOrder(s: Schema, rows: seq<seq<Cursor>>, st: Packed, calls: seq<PackCall>, i: nat)
    requires SchemaOk(s) && |st.pending| == |s| && CallsOk(s, rows, calls) && 0 < i < |s|
    requires forall k :: 0 <= k < |calls| ==> !Holds(s, calls[k].row, i)
    ensures PackRun(s, rows, st, calls).pending[i] == st.pending[i] + Collected(s, rows, st, calls, i)
    decreases |calls|
  {
    hide SchemaOk, PackVals, Slots, Nodes;
    if calls != [] {
      var n := |calls| - 1;
      PackInOrder(s, rows, st, calls[..n], i);
      assert CallOk(s, rows, calls[n]);
      NotNamed(s, calls[n].row, i);
    }
  }

  lemma NotNamed(s: Schema, c: nat, i: nat)
    requires SchemaOk(s) && c < |s| && !Holds(s, c, i)
    ensures !Names(RowSlots(s, c), i)
  {
    hide Slots, Nodes;
    SlotsFit(s[c], 0);
    forall k | 0 <= k < |RowSlots(s, c)| ensures RowSlots(s, c)[k].node != Ary(i) {
      assert SlotFits(RowSlots(s, c)[k], s[c], 0, |Nodes(s[c])|);
    }
  }

  // ----- unpacking runs -----

  // The return code of tpl_unpack and what is left afterwards.
  ghost function UnpackCode(s: Schema, ld: Loaded, i: int): int {
    if !(0 <= i < |s|) || |ld.rem| != |s| then -1 else if i == 0 then 1 else |ld.rem[i]|
  }

  ghost function UnpackCall(s: Schema, ld: Loaded, i: int): Loaded {
    if i >= 0 && Deliverable(s, ld, i) then UnpackStep(s, ld, i) else ld
  }

  ghost function UnpackRun(s: Schema, ld: Loaded, calls: seq<int>): Loaded
    decreases |calls|
  {
    if calls == [] then ld else UnpackCall(s, UnpackRun(s, ld, calls[..|calls| - 1]), calls[|calls| - 1])
  }

  ghost function UnpackCodes(s: Schema, ld: Loaded, calls: seq<int>): (r: seq<int>)
    ensures |r| == |calls|
    decreases |calls|
  {
    if calls == [] then []
    else
      var n := |calls| - 1;
      UnpackCodes(s, ld, calls[..n]) + [UnpackCode(s, UnpackRun(s, ld, calls[..n]), calls[n])]
  }

  // The mapped variables after one call and after all of them.
  ghost function CallMemory(s: Schema, rows: seq<seq<Cursor>>, ld: Loaded, i: int, mem: Memory): Memory {
    if i >= 0 && Deliverable(s, ld, i) && AtRow(s, rows, i) then
      Written(rows[i], Nodes(s[i]), RowSlots(s, i), NextVals(ld, i), mem, |RowSlots(s, i)|)
    else mem
  }

  ghost function MemoryAfter(s: Schema, rows: seq<seq<Cursor>>, ld: Loaded, calls: seq<int>, mem: Memory): Memory
    decreases |calls|
  {
    if calls == [] then mem
    else
      var n := |calls| - 1;
      CallMemory(s, rows, UnpackRun(s, ld, calls[..n]), calls[n], MemoryAfter(s, rows, ld, calls[..n], mem))
  }

  function Count(calls: seq<int>, i: int): nat
    decreases |calls|
  {
    if calls == [] then 0 else Count(calls[..|calls| - 1], i) + if calls[|calls| - 1] == i then 1 else 0
  }

  function Min(a: nat, b: nat): nat { if a < b then a else b }

  // Array i delivers its elements one by one, first to last, to successive
  // calls on it; other calls may come in between, in any order, except on the
  // row that holds the array. When the elements are used up it stays empty.
  lemma {:induction false} UnpackInOrder(s: Schema, ld: Loaded, calls: seq<int>, i: nat)
    requires SchemaOk(s) && 0 < i < |s| == |ld.rem|
    requires forall k :: 0 <= k < |calls| && calls[k] >= 0 ==> !Holds(s, calls[k], i)
    requires forall k :: 0 <= k < |ld.rem[i]| ==> Shaped(s, i, ld.rem[i][k].vals)
    ensures |UnpackRun(s, ld, calls).rem| == |s|
    ensures UnpackRun(s, ld, calls).rem[i] == ld.rem[i][Min(Count(calls, i), |ld.rem[i]|)..]
    decreases |calls|
  {
    hide SchemaOk, Shaped, Slots, Nodes, Delivered;
    if calls == [] {
    } else {
      var n := |calls| - 1;
      UnpackInOrder(s, ld, calls[..n], i);
      var before := UnpackRun(s, ld, calls[..n]);
      var c := calls[n];
      assert UnpackRun(s, ld, calls) == UnpackCall(s, before, c);
      if c >= 0 && Deliverable(s, before, c) {
        NotNamed(s, c, i);
        DeliveredElsewhere(if c == 0 then before.rem else before.rem[c := before.rem[c][1..]],
                           RowSlots(s, c), NextVals(before, c), |RowSlots(s, c)|, i) by {
          ShapedArrays(s, c, NextVals(before, c));
        }
      } else if c == i {
        StillShaped(s, ld, before, i, Min(Count(calls[..n], i), |ld.rem[i]|));
      }
    }
  }

  lemma ShapedArrays(s: Schema, c: nat, vals: seq<Val>)
    requires c < |s| && Shaped(s, c, vals)
    ensures |vals| == |RowSlots(s, c)|
    ensures forall k :: 0 <= k < |RowSlots(s, c)| && RowSlots(s, c)[k].node.Ary? ==> RowSlots(s, c)[k].node.id < |s| && vals[k].List?
  {
  }

  lemma StillShaped(s: Schema, ld: Loaded, before: Loaded, i: nat, d: nat)
    requires 0 < i < |s| == |ld.rem| == |before.rem| && d <= |ld.rem[i]| && before.rem[i] == ld.rem[i][d..]
    requires forall k :: 0 <= k < |ld.rem[i]| ==> Shaped(s, i, ld.rem[i][k].vals)
    requires !Deliverable(s, before, i)
    ensures before.rem[i] == [] && d == |ld.rem[i]|
  {
    hide Shaped;
  }

  lemma {:induction false} DeliveredElsewhere(rem: seq<seq<Elem>>, slots: seq<Slot>, vals: seq<Val>, n: nat, i: nat)
    requires |vals| == |slots| && n <= |slots| && i < |rem| && !Names(slots, i)
    requires forall k :: 0 <= k < |slots| && slots[k].node.Ary? ==> slots[k].node.id < |rem| && vals[k].List?
    ensures Delivered(rem, slots, vals, n)[i] == rem[i]
    decreases n
  {
    if n > 0 {
      DeliveredElsewhere(rem, slots, vals, n - 1, i);
      assert slots[n - 1].node != Ary(i);
    }
  }

  // ----- variables -----

  // No two leaves of a row share a variable.
  ghost predicate AddrsDistinct(row: seq<Cursor>, nodes: seq<Node>, slots: seq<Slot>)
    requires Flat(nodes) && |row| == |nodes| && SlotsIn(nodes, slots)
  {
    forall j, k :: 0 <= j < k < |slots| && slots[j].node.Leaf? && slots[k].node.Leaf? ==>
      SlotAddr(row, nodes, slots[j]) != SlotAddr(row, nodes, slots[k])
  }

  // After an unpack every mapped variable holds the value unpacked for it, and
  // nothing else has been written.
  lemma {:induction false} VariablesHold(row: seq<Cursor>, nodes: seq<Node>, slots: seq<Slot>, vals: seq<Val>, mem: Memory, n: nat)
    requires Flat(nodes) && |row| == |nodes| && SlotsIn(nodes, slots) && |vals| == |slots| && n <= |slots|
    requires AddrsDistinct(row, nodes, slots)
    ensures forall k :: 0 <= k < n && slots[k].node.Leaf? ==>
      var a := SlotAddr(row, nodes, slots[k]); a in Written(row, nodes, slots, vals, mem, n) && Written(row, nodes, slots, vals, mem, n)[a] == vals[k]
    ensures forall a :: a in mem && (forall k :: 0 <= k < n && slots[k].node.Leaf? ==> SlotAddr(row, nodes, slots[k]) != a) ==>
      a in Written(row, nodes, slots, vals, mem, n) && Written(row, nodes, slots, vals, mem, n)[a] == mem[a]
    decreases n
  {
    hide SlotAddr;
    if n > 0 {
      VariablesHold(row, nodes, slots, vals, mem, n - 1);
      WrittenStep(row, nodes, slots, vals, mem, n - 1);
    }
  }

  // ----- the whole trip -----

  // The values a dump of this state writes.
  ghost function PackedTree(s: Schema, p: Packed): (r: seq<Val>)
    requires SchemaOk(s) && 0 < |s| && p.root.Some? && |p.root.value| == |RowSlots(s, 0)| && |p.pending| == |s|
    ensures |r| == |RowSlots(s, 0)|
  {
    RowAbove(s, 0);
    AboveAt(s, RowSlots(s, 0), 0);
    Tree(RowSlots(s, 0), p.root.value, p.pending)
  }

  // The root has been packed and everything fits the 32-bit length words.
  ghost predicate Dumpable(s: Schema, fmt: bytes, fxlens: seq<nat>, p: Packed)
    requires SchemaOk(s) && 0 < |s|
  {
    && p.root.Some? && |p.root.value| == |RowSlots(s, 0)| && |p.pending| == |s|
    && AllFit(PackedTree(s, p))
    && HeaderSize(fmt, fxlens) + ValsSize(PackedTree(s, p)) < TWO_TO_THE_32
  }

  // What arrives on a host whose byte order differs (swap) or not.
  ghost function Arrives(s: Schema, p: Packed, swap: bool): Loaded
    requires SchemaOk(s) && 0 < |s| && p.root.Some? && |p.root.value| == |RowSlots(s, 0)| && |p.pending| == |s|
  {
    ViewShaped(s, p, swap);
    FreshlyLoaded(s, ViewVals(PackedTree(s, p), swap))
  }

  lemma ViewShaped(s: Schema, p: Packed, swap: bool)
    requires SchemaOk(s) && 0 < |s| && p.root.Some? && |p.root.value| == |RowSlots(s, 0)| && |p.pending| == |s|
    ensures Shaped(s, 0, ViewVals(PackedTree(s, p), swap))
  {
    hide Slots;
    RowAbove(s, 0);
    AboveAt(s, RowSlots(s, 0), 0);
  }

  // What arrives means what was packed, whatever the byte orders: equal
  // numbers, equal strings and buffers, arrays element by element.
  lemma ArrivesUnchanged(s: Schema, p: Packed, writer: bool, reader: bool, k: nat)
    requires SchemaOk(s) && 0 < |s| && p.root.Some? && |p.root.value| == |RowSlots(s, 0)| && |p.pending| == |s|
    requires k < |RowSlots(s, 0)|
    ensures |Arrives(s, p, writer != reader).root| == |RowSlots(s, 0)|
    ensures SameMeaning(PackedTree(s, p)[k], Arrives(s, p, writer != reader).root[k], writer, reader)
  {
    hide SchemaOk, PackedTree, SameMeaning, Slots, Shaped, Delivered, HostView;
    ViewKeepsMeaning(PackedTree(s, p)[k], writer, reader);
  }

  // ----- packing again after an image has been loaded -----

  lemma {:induction false} RootStays(s: Schema, rows: seq<seq<Cursor>>, st: Packed, calls: seq<PackCall>)
    requires |st.pending| == |s| && CallsOk(s, rows, calls)
    requires forall k :: 0 <= k < |calls| ==> calls[k].row != 0
    ensures PackRun(s, rows, st, calls).root == st.root
    decreases |calls|
  {
    hide PackVals, Slots, Nodes, Cleared;
    if calls != [] {
      var n := |calls| - 1;
      RootStays(s, rows, st, calls[..n]);
      assert CallOk(s, rows, calls[n]);
    }
  }

  // The first pack on a loaded tpl empties it, and any packs but of the root
  // follow: a dump then still holds the numbers the root had before and, of a
  // structure in a loop, the strings of all records but the first; the arrays
  // hold what has been packed since. With a buffer in the root there is nothing
  // to dump until the root is packed again.
  lemma DumpAfterReset(s: Schema, rows: seq<seq<Cursor>>, data: map<(nat, nat), Val>, calls: seq<PackCall>)
    requires SchemaOk(s) && 0 < |s| && RootReady(s, data) && CallsOk(s, rows, calls)
    requires forall k :: 0 <= k < |calls| ==> calls[k].row != 0
    ensures var st := PackRun(s, rows, Emptied(s, data), calls);
      && (st.root.Some? <==> NoBlob(RowSlots(s, 0)))
      && (st.root.Some? ==>
        && |st.root.value| == |RowSlots(s, 0)|
        && forall k :: 0 <= k < |RowSlots(s, 0)| ==>
            match RowSlots(s, 0)[k].node
            case Ary(id) => id < |st.pending| && PackedTree(s, st)[k] == List(st.pending[id])
            case _ => PackedTree(s, st)[k] == Kept(RowSlots(s, 0)[k], RootVals(s, data)[k]))
    ensures forall i :: 0 < i < |s| && (forall k :: 0 <= k < |calls| ==> !Holds(s, calls[k].row, i)) ==>
      PackRun(s, rows, Emptied(s, data), calls).pending[i] == Collected(s, rows, Emptied(s, data), calls, i)
  {
    hide SchemaOk, Slots, Kept, Freed, RootReady, PackRun, Collected, Holds;
    RootAfterFree(s, data);
    RootStays(s, rows, Emptied(s, data), calls);
    RowAbove(s, 0);
    AboveAt(s, RowSlots(s, 0), 0);
    forall i | 0 < i < |s| && (forall k :: 0 <= k < |calls| ==> !Holds(s, calls[k].row, i))
      ensures PackRun(s, rows, Emptied(s, data), calls).pending[i] == Collected(s, rows, Emptied(s, data), calls, i)
    {
      PackInOrder(s, rows, Emptied(s, data), calls, i);
      assert Emptied(s, data).pending[i] == [];
    }
  }

  // The dumped image is accepted by the reader and carries the packed values.
  lemma Departs(t: Schema, fmt: bytes, fxlens: seq<nat>, data: map<(nat, nat), Val>, pending: seq<seq<Elem>>, writer: bool, reader: bool, f: Flags)
    requires SchemaOk(t) && FmtOk(t, fmt, fxlens) && RootReady(t, data) && BackbonesOk(t, pending) && 0 < |t|
    requires Dumpable(t, fmt, fxlens, Packed(Some(RootVals(t, data)), pending))
    requires f.wronly || f.rdonly || (!f.xendian && !f.v12)
    ensures AllFit(TreeOf(t, data, pending)) && HeaderSize(fmt, fxlens) + ValsSize(TreeOf(t, data, pending)) < TWO_TO_THE_32
    ensures TreeOf(t, data, pending) == PackedTree(t, Packed(Some(RootVals(t, data)), pending))
    ensures var image := Image(fmt, fxlens, TreeOf(t, data, pending), writer);
      var m := LoadMode(f, image, reader);
      && Accepts(t, fmt, fxlens, image, m, false) && HeaderSize(fmt, fxlens) <= |image| && 4 <= |image|
      && Trusted(t, fmt, fxlens, image, reader)
      && DataScan(t, fmt, fxlens, image, ReadBackMode(image, reader))
         == Good(ViewVals(TreeOf(t, data, pending), writer != reader), HeaderSize(fmt, fxlens) + ValsSize(TreeOf(t, data, pending)), false)
  {
    hide SchemaOk, FmtOk, Accepts, Trusted, DataScan, ViewVals, Slots, ValsTyped, AllFit, ValsSize;
    TreeTyped(t, data, pending);
    ForeignImage(t, fmt, fxlens, TreeOf(t, data, pending), writer, reader, f);
  }

  // What the first of some packs finds: a loaded tpl is emptied by it.
  ghost function Before(t: Tpl, calls: seq<PackCall>): (st: Packed)
    requires t.Valid()
    reads t
    ensures |st.pending| == |t.schema|
  {
    if t.flags.rdonly && calls != [] then Emptied(t.schema, t.data) else t.State()
  }

  lemma {:induction false} RunFromFirst(s: Schema, rows: seq<seq<Cursor>>, st: Packed, calls: seq<PackCall>)
    requires |st.pending| == |s| && CallsOk(s, rows, calls) && calls != []
    ensures CallsOk(s, rows, calls[1..]) && Ready(s, rows, st, calls[0].row)
    ensures PackRun(s, rows, st, calls) == PackRun(s, rows, PackStep(s, rows, st, calls[0].row, calls[0].mem), calls[1..])
    decreases |calls|
  {
    hide PackStep, MemOk;
    assert CallOk(s, rows, calls[0]);
    var n := |calls| - 1;
    if n > 0 {
      RunFromFirst(s, rows, st, calls[..n]);
      assert calls[..n][1..] == calls[1..][..n - 1];
      assert calls[1..][n - 1] == calls[n];
    }
  }

  method PackAll(t: Tpl, calls: seq<PackCall>)
    requires t.Valid() && CallsOk(t.schema, t.cursors, calls)
    modifies t
    ensures t.Valid() && t.cursors == old(t.cursors) && (t.flags.rdonly <==> old(t.flags.rdonly) && calls == [])
    ensures t.State() == PackRun(t.schema, t.cursors, old(Before(t, calls)), calls)
  {
    hide SchemaOk, FmtOk, PackStep, RowAtRest, BackboneOk, SizesOk, RootReady, Emptied, MemOk, PackRun, ParentsOk;
    NoCalls(t.schema, t.cursors, t.State());
    if calls != [] {
      RunFromFirst(t.schema, t.cursors, Before(t, calls), calls);
      FirstCall(t.schema, t.cursors, calls);
      var rc := t.Pack(calls[0].row, calls[0].mem);
      PackMore(t, calls[1..]);
    }
  }

  lemma NoCalls(s: Schema, rows: seq<seq<Cursor>>, st: Packed)
    requires |st.pending| == |s|
    ensures PackRun(s, rows, st, []) == st
  {
  }

  lemma FirstCall(s: Schema, rows: seq<seq<Cursor>>, calls: seq<PackCall>)
    requires CallsOk(s, rows, calls) && calls != []
    ensures calls[0].row < |s| == |rows| && Flat(Nodes(s[calls[0].row])) && |rows[calls[0].row]| == |Nodes(s[calls[0].row])|
    ensures SlotsIn(Nodes(s[calls[0].row]), RowSlots(s, calls[0].row))
    ensures MemOk(rows[calls[0].row], Nodes(s[calls[0].row]), RowSlots(s, calls[0].row), calls[0].mem)
  {
    assert CallOk(s, rows, calls[0]);
  }

  method PackMore(t: Tpl, calls: seq<PackCall>)
    requires t.Valid() && !t.flags.rdonly && CallsOk(t.schema, t.cursors, calls)
    modifies t
    ensures t.Valid() && !t.flags.rdonly && t.cursors == old(t.cursors)
    ensures t.State() == PackRun(t.schema, t.cursors, old(t.State()), calls)
  {
    hide SchemaOk, FmtOk, PackStep, RowAtRest, BackboneOk, SizesOk, RootReady;
    ghost var st0, rows := t.State(), t.cursors;
    var k := 0;
    assert calls[..0] == [];
    while k < |calls|
      invariant k <= |calls| && t.Valid() && !t.flags.rdonly && t.cursors == rows
      invariant t.State() == PackRun(t.schema, rows, st0, calls[..k])
    {
      assert CallOk(t.schema, rows, calls[k]);
      var rc := t.Pack(calls[k].row, calls[k].mem);
      assert calls[..k + 1][..k] == calls[..k];
      k := k + 1;
    }
    assert calls[..|calls|] == calls;
  }

  method UnpackAll(t: Tpl, calls: seq<int>, mem: Memory) returns (codes: seq<int>, out: Memory)
    requires t.Valid() && !t.flags.wronly && t.Readable()
    modifies t
    ensures t.Valid() && t.Readable() && !t.flags.wronly && t.cursors == old(t.cursors)
    ensures codes == UnpackCodes(t.schema, old(t.loaded), calls)
    ensures t.loaded == UnpackRun(t.schema, old(t.loaded), calls)
    ensures out == MemoryAfter(t.schema, t.cursors, old(t.loaded), calls, mem)
  {
    hide SchemaOk, FmtOk, UnpackStep, AtRest, BackbonesOk, SizesOk, DataScan, Tail, Written, AtRow, NextVals, At;
    ghost var ld0, rows := t.loaded, t.cursors;
    codes, out := [], mem;
    var k := 0;
    assert calls[..0] == [];
    while k < |calls|
      invariant k <= |calls| && t.Valid() && t.Readable() && !t.flags.wronly && t.cursors == rows
      invariant codes == UnpackCodes(t.schema, ld0, calls[..k])
      invariant t.loaded == UnpackRun(t.schema, ld0, calls[..k])
      invariant out == MemoryAfter(t.schema, rows, ld0, calls[..k], mem)
    {
      var rc;
      rc, out := t.Unpack(calls[k], out);
      codes := codes + [rc];
      assert calls[..k + 1][..k] == calls[..k];
      k := k + 1;
    }
    assert calls[..|calls|] == calls;
  }

  // Pack on one host, dump, load on another, unpack: every return code, the
  // data still to be delivered and what the variables hold are those of the
  // packed values in the reader's byte order, whatever the calls.
  method RoundTrip(writer: Tpl, reader: Tpl, packs: seq<PackCall>, unpacks: seq<int>, mem: Memory)
    returns (codes: seq<int>, out: Memory)
    requires writer != reader && writer.Valid() && reader.Valid() && (writer.flags.rdonly ==> packs != [])
    requires reader.flags.wronly || reader.flags.rdonly || (!reader.flags.xendian && !reader.flags.v12)
    requires writer.schema == reader.schema && writer.fmt == reader.fmt && writer.fxlens == reader.fxlens
    requires CallsOk(writer.schema, writer.cursors, packs)
    requires Dumpable(writer.schema, writer.fmt, writer.fxlens, PackRun(writer.schema, writer.cursors, Before(writer, packs), packs))
    modifies writer, reader
    ensures var s := writer.schema;
      var packed := PackRun(s, old(writer.cursors), old(Before(writer, packs)), packs);
      var ld := Arrives(s, packed, writer.hostBig != reader.hostBig);
      && codes == UnpackCodes(s, ld, unpacks)
      && reader.loaded == UnpackRun(s, ld, unpacks)
      && out == MemoryAfter(s, old(reader.cursors), ld, unpacks, mem)
    ensures writer.cursors == old(writer.cursors) && reader.cursors == old(reader.cursors)
    ensures reader.Valid() && reader.Readable() && !reader.flags.wronly
  {
    hide SchemaOk, FmtOk, RowAtRest, BackboneOk, SizesOk, RootReady, RootVals, TreeOf, PackedTree, ViewVals, Accepts, Trusted, DataScan, Shaped, FreshlyLoaded, AllFit, ImageReadable;
    PackAll(writer, packs);
    Departs(writer.schema, writer.fmt, writer.fxlens, writer.data, writer.pending, writer.hostBig, reader.hostBig, reader.flags);
    var rc, image := writer.Dump();
    reader.ValidIsSound();
    AcceptsAtRest(reader.schema, reader.fmt, reader.fxlens, image[..], reader.cursors, LoadMode(reader.flags, image[..], reader.hostBig), false);
    rc := reader.Load(image[..], false);
    codes, out := UnpackAll(reader, unpacks, mem);
  }
}
