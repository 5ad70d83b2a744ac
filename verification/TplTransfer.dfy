// A receiver that unpacks everything: each array until it is empty, and inside
// each element its arrays. It gets the tree that was packed.
module TplTransfer {
  import opened Bytes
  import opened TplSchema
  import opened TplWire
  import opened TplImage
  import opened TplState
  import opened TplReset
  import opened TplObject
  import opened TplRuns

  // ----- rows inside a row -----

  // Row j is row r or hangs somewhere below it.
  ghost predicate Under(s: Schema, parents: seq<Place>, j: nat, r: nat)
    requires ParentsOk(s, parents) && j < |s|
    decreases j
  {
    j == r || (r < j && Under(s, parents, parents[j].row, r))
  }

  // Two arrays of one row have nothing in common.
  lemma {:induction false} Siblings(s: Schema, parents: seq<Place>, j: nat, x: nat, y: nat)
    requires ParentsOk(s, parents) && j < |s| && 0 < x < |s| && 0 < y < |s| && x != y
    requires parents[x].row == parents[y].row && Under(s, parents, j, x)
    ensures !Under(s, parents, j, y)
    decreases j
  {
    hide Nodes;
    if j != x && j != y {
      Siblings(s, parents, parents[j].row, x, y);
    }
  }

  lemma {:induction false} UnderChild(s: Schema, parents: seq<Place>, j: nat, x: nat)
    requires ParentsOk(s, parents) && j < |s| && 0 < x < |s| && Under(s, parents, j, x)
    ensures |parents| == |s| && Under(s, parents, j, parents[x].row) && j != parents[x].row
    decreases j
  {
    hide Nodes;
    if j != x {
      UnderChild(s, parents, parents[j].row, x);
    }
  }

  // ----- what one unpack hands over -----

  lemma {:induction false} DeliveredAt(rem: seq<seq<Elem>>, slots: seq<Slot>, vals: seq<Val>, n: nat, k: nat)
    requires |vals| == |slots| && k < n <= |slots| && slots[k].node.Ary? && ArysOnce(slots)
    requires forall k :: 0 <= k < |slots| && slots[k].node.Ary? ==> slots[k].node.id < |rem| && vals[k].List?
    ensures slots[k].node.id < |rem| && vals[k].List?
    ensures Delivered(rem, slots, vals, n)[slots[k].node.id] == vals[k].elems
    decreases n
  {
    if k < n - 1 {
      DeliveredAt(rem, slots, vals, n - 1, k);
    }
  }

  // Every array of the row gets the elements found in it, arrays elsewhere keep
  // theirs.
  lemma StepDelivers(s: Schema, parents: seq<Place>, ld: Loaded, i: nat)
    requires SchemaOk(s) && ParentsOk(s, parents) && Deliverable(s, ld, i)
    ensures var st := UnpackStep(s, ld, i); var slots := RowSlots(s, i); var vals := NextVals(ld, i);
      && st.root == ld.root && |st.rem| == |s| == |parents| && |vals| == |slots|
      && (forall k :: 0 <= k < |slots| && slots[k].node.Ary? ==>
            var x := slots[k].node.id; 0 < x < |s| && i < x && parents[x].row == i && vals[k].List? && st.rem[x] == vals[k].elems)
      && (i > 0 ==> st.rem[i] == ld.rem[i][1..])
      && (forall j :: 0 <= j < |s| && !Under(s, parents, j, i) ==> st.rem[j] == ld.rem[j])
  {
    hide SchemaOk, Slots, Nodes, Delivered, Under;
    var slots, vals := RowSlots(s, i), NextVals(ld, i);
    var rem := if i == 0 then ld.rem else ld.rem[i := ld.rem[i][1..]];
    WalkStart(s, i);
    RowArysOnce(s, i);
    forall k | 0 <= k < |slots| && slots[k].node.Ary?
      ensures var x := slots[k].node.id;
        0 < x < |s| && i < x && parents[x].row == i && vals[k].List? && UnpackStep(s, ld, i).rem[x] == vals[k].elems
    {
      DeliveredAt(rem, slots, vals, |slots|, k);
      assert Nodes(s[i])[slots[k].pos] == Ary(slots[k].node.id);
    }
    forall j | 0 <= j < |s| && (j == i || !Under(s, parents, j, i)) ensures UnpackStep(s, ld, i).rem[j] == rem[j] {
      NotNamedOutside(s, parents, i, j);
      DeliveredElsewhere(rem, slots, vals, |slots|, j);
    }
    UnderItself(s, parents, i);
  }

  lemma UnderItself(s: Schema, parents: seq<Place>, i: nat)
    requires ParentsOk(s, parents) && i < |s|
    ensures Under(s, parents, i, i)
  {
  }

  lemma RowArysOnce(s: Schema, i: nat)
    requires SchemaOk(s) && i < |s|
    ensures ArysOnce(RowSlots(s, i))
  {
    hide Slots;
    ArysDistinct(s[i], 0);
  }

  lemma NotNamedOutside(s: Schema, parents: seq<Place>, i: nat, j: nat)
    requires SchemaOk(s) && ParentsOk(s, parents) && i < |s| && j < |s| && (j == i || !Under(s, parents, j, i))
    ensures !Names(RowSlots(s, i), j)
  {
    hide SchemaOk, Slots, Nodes;
    WalkStart(s, i);
    var slots := RowSlots(s, i);
    forall k | 0 <= k < |slots| ensures slots[k].node != Ary(j) {
      if slots[k].node == Ary(j) {
        assert Nodes(s[i])[slots[k].pos] == Ary(j);
        assert i < j && parents[j] == Place(i, slots[k].pos);
        UnderItself(s, parents, i);
      }
    }
  }

  // ----- the receiver -----

  // No two variables of a row coincide.
  ghost predicate VarsApart(t: Tpl)
    requires t.Valid()
    reads t
  {
    forall r :: 0 <= r < |t.schema| ==> AtRow(t.schema, t.cursors, r) && AddrsDistinct(t.cursors[r], Nodes(t.schema[r]), RowSlots(t.schema, r))
  }

  // The variables of row r hold vals, and its arrays have those elements left.
  ghost predicate Unpacked(t: Tpl, r: nat, vals: seq<Val>, mem: Memory)
    requires t.Valid()
    reads t
  {
    && AtRow(t.schema, t.cursors, r) && |t.loaded.rem| == |t.schema| && |vals| == |RowSlots(t.schema, r)|
    && (forall k :: 0 <= k < |vals| && RowSlots(t.schema, r)[k].node.Leaf? ==>
          var a := SlotAddr(t.cursors[r], Nodes(t.schema[r]), RowSlots(t.schema, r)[k]); a in mem && mem[a] == vals[k])
    && ArraysFrom(t.schema, t.parents, t.loaded.rem, r, vals, 0)
  }

  ghost predicate ArraysFrom(s: Schema, parents: seq<Place>, rem: seq<seq<Elem>>, r: nat, vals: seq<Val>, n: nat)
    requires r < |s| == |rem|
  {
    && |vals| == |RowSlots(s, r)| && |parents| == |s|
    && forall k :: n <= k < |vals| && RowSlots(s, r)[k].node.Ary? ==>
         var x := RowSlots(s, r)[k].node.id; 0 < x < |s| && r < x && parents[x].row == r && vals[k] == List(rem[x])
  }

  // Everything but the arrays below row r is as it was.
  ghost predicate SameAround(s: Schema, parents: seq<Place>, rem: seq<seq<Elem>>, rem': seq<seq<Elem>>, r: nat, self: bool)
    requires ParentsOk(s, parents)
  {
    && |rem| == |rem'| == |s|
    && forall j :: 0 <= j < |s| && ((self && j == r) || !Under(s, parents, j, r)) ==> rem'[j] == rem[j]
  }

  method ReadVars(t: Tpl, r: nat, mem: Memory, ghost vals: seq<Val>) returns (got: seq<Val>)
    requires t.Valid() && r < |t.schema| && Unpacked(t, r, vals, mem)
    ensures got == LeafPart(RowSlots(t.schema, r), vals)
  {
    hide SchemaOk, FmtOk, RowAtRest, BackboneOk, SizesOk, ParentsOk, Slots, Nodes, SlotAddr, ArraysFrom;
    var slots := RowSlots(t.schema, r);
    got := [];
    for n := 0 to |slots|
      invariant got == LeafPart(slots, vals)[..n]
    {
      got := got + [if slots[n].node.Leaf? then mem[SlotAddr(t.cursors[r], Nodes(t.schema[r]), slots[n])] else List([])];
    }
  }

  // The variables of row r, which has just been unpacked, and then its arrays.
  method Collect(t: Tpl, r: nat, mem: Memory, ghost vals: seq<Val>) returns (got: seq<Val>, out: Memory)
    requires t.Valid() && t.Readable() && !t.flags.wronly && VarsApart(t) && r < |t.schema| && Unpacked(t, r, vals, mem)
    modifies t
    ensures t.Valid() && t.Readable() && !t.flags.wronly && t.cursors == old(t.cursors) && VarsApart(t)
    ensures got == vals && t.loaded.root == old(t.loaded.root)
    ensures SameAround(t.schema, t.parents, old(t.loaded.rem), t.loaded.rem, r, true)
    decreases |t.schema| - r, 1
  {
    hide SchemaOk, FmtOk, RowAtRest, BackboneOk, SizesOk, ParentsOk, Slots, ImageReadable, VarsApart, Unpacked, ArraysFrom, SameAround, LeafPart;
    got := ReadVars(t, r, mem, vals);
    out := mem;
    var slots := RowSlots(t.schema, r);
    ghost var rem0, rows := t.loaded.rem, t.cursors;
    UnpackedArrays(t, r, vals, mem);
    PartStart(slots, vals);
    for n := 0 to |slots|
      invariant t.Valid() && t.Readable() && !t.flags.wronly && t.cursors == rows && VarsApart(t)
      invariant t.loaded.root == old(t.loaded.root) && |t.loaded.rem| == |t.schema|
      invariant Part(slots, vals, got, n) && ArraysFrom(t.schema, t.parents, t.loaded.rem, r, vals, n)
      invariant SameAround(t.schema, t.parents, rem0, t.loaded.rem, r, true)
    {
      PartStep(t.schema, t.parents, t.loaded.rem, r, vals, got, n);
      if slots[n].node.Ary? {
        var x := slots[n].node.id;
        ghost var rem1 := t.loaded.rem;
        var es;
        es, out := Drain(t, x, out);
        got := got[n := List(es)];
        OnlyBelow(t.schema, t.parents, rem0, rem1, t.loaded.rem, r, n, vals);
      }
    }
    PartAll(slots, vals, got);
  }

  // The first n slots have their values, the rest of the arrays none yet.
  ghost predicate Part(slots: seq<Slot>, vals: seq<Val>, got: seq<Val>, n: nat) {
    |vals| == |slots| == |got| && n <= |slots| && got == vals[..n] + LeafPart(slots, vals)[n..]
  }

  lemma PartStart(slots: seq<Slot>, vals: seq<Val>)
    requires |vals| == |slots|
    ensures Part(slots, vals, LeafPart(slots, vals), 0)
  {
  }

  lemma PartStep(s: Schema, parents: seq<Place>, rem: seq<seq<Elem>>, r: nat, vals: seq<Val>, got: seq<Val>, n: nat)
    requires r < |s| == |rem| && n < |RowSlots(s, r)| && Part(RowSlots(s, r), vals, got, n) && ArraysFrom(s, parents, rem, r, vals, n)
    ensures |got| == |RowSlots(s, r)|
    ensures RowSlots(s, r)[n].node.Leaf? ==> Part(RowSlots(s, r), vals, got, n + 1)
    ensures RowSlots(s, r)[n].node.Ary? ==>
      var x := RowSlots(s, r)[n].node.id;
      0 < x < |s| && r < x && Part(RowSlots(s, r), vals, got[n := List(rem[x])], n + 1)
    ensures !RowSlots(s, r)[n].node.Ary? ==> ArraysFrom(s, parents, rem, r, vals, n + 1)
  {
    hide Slots;
  }

  lemma PartAll(slots: seq<Slot>, vals: seq<Val>, got: seq<Val>)
    requires Part(slots, vals, got, |slots|)
    ensures got == vals
  {
  }

  lemma UnpackedArrays(t: Tpl, r: nat, vals: seq<Val>, mem: Memory)
    requires t.Valid() && r < |t.schema| && Unpacked(t, r, vals, mem)
    ensures |t.loaded.rem| == |t.schema| && |vals| == |RowSlots(t.schema, r)|
    ensures ArraysFrom(t.schema, t.parents, t.loaded.rem, r, vals, 0)
    ensures SameAround(t.schema, t.parents, t.loaded.rem, t.loaded.rem, r, true)
    ensures forall k :: 0 <= k < |RowSlots(t.schema, r)| ==> !RowSlots(t.schema, r)[k].node.Pound?
  {
    hide SchemaOk, FmtOk, RowAtRest, BackboneOk, SizesOk, ParentsOk, Slots, Nodes;
    WalkStart(t.schema, r);
  }

  lemma OnlyBelow(s: Schema, parents: seq<Place>, rem0: seq<seq<Elem>>, rem: seq<seq<Elem>>, rem': seq<seq<Elem>>, r: nat, n: nat, vals: seq<Val>)
    requires SchemaOk(s) && ParentsOk(s, parents) && r < |s| == |rem| && ArraysFrom(s, parents, rem, r, vals, n)
    requires n < |vals| && RowSlots(s, r)[n].node.Ary?
    requires SameAround(s, parents, rem0, rem, r, true) && SameAround(s, parents, rem, rem', RowSlots(s, r)[n].node.id, false)
    ensures ArraysFrom(s, parents, rem', r, vals, n + 1) && SameAround(s, parents, rem0, rem', r, true)
  {
    hide SchemaOk, Slots, Nodes, Under;
    var slots := RowSlots(s, r);
    var x := slots[n].node.id;
    RowArysOnce(s, r);
    forall k | n + 1 <= k < |vals| && slots[k].node.Ary? ensures vals[k] == List(rem'[slots[k].node.id]) {
      UnderItself(s, parents, slots[k].node.id);
      Siblings(s, parents, slots[k].node.id, slots[k].node.id, x);
    }
    forall j | 0 <= j < |s| && (j == r || !Under(s, parents, j, r)) ensures rem'[j] == rem[j] {
      if Under(s, parents, j, x) {
        UnderChild(s, parents, j, x);
      }
    }
  }

  // A successful unpack leaves the row's values in its variables.
  lemma AfterUnpack(t: Tpl, i: nat, ld: Loaded, mem: Memory, out: Memory)
    requires t.Valid() && VarsApart(t) && Deliverable(t.schema, ld, i) && t.loaded == UnpackStep(t.schema, ld, i) && AtRow(t.schema, t.cursors, i)
    requires out == Written(t.cursors[i], Nodes(t.schema[i]), RowSlots(t.schema, i), NextVals(ld, i), mem, |RowSlots(t.schema, i)|)
    ensures Unpacked(t, i, NextVals(ld, i), out) && t.loaded.root == ld.root
    ensures SameAround(t.schema, t.parents, ld.rem, t.loaded.rem, i, false)
    ensures i > 0 ==> t.loaded.rem[i] == ld.rem[i][1..]
  {
    hide SchemaOk, FmtOk, RowAtRest, BackboneOk, SizesOk, ParentsOk, Slots, Nodes, SlotAddr, Under, AddrsDistinct, UnpackStep, Written;
    StepDelivers(t.schema, t.parents, ld, i);
    VariablesHold(t.cursors[i], Nodes(t.schema[i]), RowSlots(t.schema, i), NextVals(ld, i), mem, |RowSlots(t.schema, i)|);
    ListsAgree(t.schema, t.parents, ld, i);
  }

  lemma ListsAgree(s: Schema, parents: seq<Place>, ld: Loaded, i: nat)
    requires SchemaOk(s) && ParentsOk(s, parents) && Deliverable(s, ld, i)
    ensures ArraysFrom(s, parents, UnpackStep(s, ld, i).rem, i, NextVals(ld, i), 0)
  {
    hide SchemaOk, ParentsOk, Slots, Nodes, UnpackStep, Under;
    StepDelivers(s, parents, ld, i);
  }

  // tpl_unpack on array id until it returns 0.
  method Drain(t: Tpl, id: nat, mem: Memory) returns (es: seq<Elem>, out: Memory)
    requires t.Valid() && t.Readable() && !t.flags.wronly && VarsApart(t) && 0 < id < |t.schema| == |t.loaded.rem|
    modifies t
    ensures t.Valid() && t.Readable() && !t.flags.wronly && t.cursors == old(t.cursors) && VarsApart(t)
    ensures es == old(t.loaded.rem)[id] && t.loaded.root == old(t.loaded.root)
    ensures SameAround(t.schema, t.parents, old(t.loaded.rem), t.loaded.rem, id, false)
    ensures |t.loaded.rem| == |t.schema| && t.loaded.rem[id] == []
    decreases |t.schema| - id, 2
  {
    hide SchemaOk, FmtOk, RowAtRest, BackboneOk, SizesOk, ParentsOk, Slots, Nodes, SlotAddr, ImageReadable, Under, AddrsDistinct, UnpackStep, Written, AtRow, Unpacked;
    es, out := [], mem;
    ghost var rem0, rows := t.loaded.rem, t.cursors;
    while true
      invariant t.Valid() && t.Readable() && !t.flags.wronly && t.cursors == rows && VarsApart(t)
      invariant t.loaded.root == old(t.loaded.root) && |es| <= |rem0[id]| && es == rem0[id][..|es|]
      invariant SameAround(t.schema, t.parents, rem0, t.loaded.rem, id, false)
      invariant t.loaded.rem[id] == rem0[id][|es|..]
      decreases |rem0[id]| - |es|
    {
      ghost var ld := t.loaded;
      ghost var before := out;
      var rc;
      rc, out := t.Unpack(id, out);
      if rc == 0 {
        break;
      }
      AfterUnpack(t, id, ld, before, out);
      var got;
      got, out := Collect(t, id, out, NextVals(ld, id));
      es := es + [Elem(got)];
    }
  }

  // Everything an image holds.
  method Receive(t: Tpl, mem: Memory) returns (tree: seq<Val>, out: Memory)
    requires t.Valid() && t.Readable() && !t.flags.wronly && VarsApart(t) && |t.loaded.rem| == |t.schema|
    requires Shaped(t.schema, 0, t.loaded.root)
    modifies t
    ensures t.Valid() && tree == old(t.loaded.root)
  {
    hide SchemaOk, FmtOk, RowAtRest, BackboneOk, SizesOk, ParentsOk, Slots, Nodes, SlotAddr, ImageReadable, Under, AddrsDistinct, UnpackStep, Written, Unpacked;
    ghost var ld := t.loaded;
    var rc;
    rc, out := t.Unpack(0, mem);
    AfterUnpack(t, 0, ld, mem, out);
    tree, out := Collect(t, 0, out, NextVals(ld, 0));
  }

  // Pack on one host, in any order and any number of calls, dump, load on a host
  // of any byte order and unpack everything: what the variables are found to
  // hold means, number by number and element by element, what was packed.
  method Transfer(writer: Tpl, reader: Tpl, packs: seq<PackCall>, mem: Memory) returns (tree: seq<Val>, out: Memory)
    requires writer != reader && writer.Valid() && reader.Valid() && (writer.flags.rdonly ==> packs != [])
    requires reader.flags.wronly || reader.flags.rdonly || (!reader.flags.xendian && !reader.flags.v12)
    requires VarsApart(reader)
    requires writer.schema == reader.schema && writer.fmt == reader.fmt && writer.fxlens == reader.fxlens
    requires CallsOk(writer.schema, writer.cursors, packs)
    requires Dumpable(writer.schema, writer.fmt, writer.fxlens, PackRun(writer.schema, writer.cursors, Before(writer, packs), packs))
    modifies writer, reader
    ensures var packed := PackedTree(writer.schema, PackRun(writer.schema, old(writer.cursors), old(Before(writer, packs)), packs));
      |tree| == |packed| && forall k :: 0 <= k < |tree| ==> SameMeaning(packed[k], tree[k], writer.hostBig, reader.hostBig)
  {
    hide SchemaOk, FmtOk, RowAtRest, BackboneOk, SizesOk, RootReady, RootVals, TreeOf, PackedTree, ViewVals, Accepts, Trusted, DataScan, Shaped, FreshlyLoaded, AllFit, ImageReadable, ParentsOk, AddrsDistinct, SameMeaning;
    var codes, mem' := RoundTrip(writer, reader, packs, [], mem);
    Arrived(writer.schema, PackRun(writer.schema, old(writer.cursors), old(Before(writer, packs)), packs), writer.hostBig, reader.hostBig);
    tree, out := Receive(reader, mem');
  }

  lemma Arrived(s: Schema, p: Packed, writer: bool, reader: bool)
    requires SchemaOk(s) && 0 < |s| && p.root.Some? && |p.root.value| == |RowSlots(s, 0)| && |p.pending| == |s|
    ensures var ld := Arrives(s, p, writer != reader); var packed := PackedTree(s, p);
      && UnpackRun(s, ld, []) == ld && Shaped(s, 0, ld.root) && |ld.rem| == |s| && |ld.root| == |packed|
      && forall k :: 0 <= k < |packed| ==> SameMeaning(packed[k], ld.root[k], writer, reader)
  {
    hide SchemaOk, PackedTree, SameMeaning, Slots, Shaped, Delivered, ViewVals;
    ViewShaped(s, p, writer != reader);
    forall k | 0 <= k < |PackedTree(s, p)|
      ensures k < |Arrives(s, p, writer != reader).root| && SameMeaning(PackedTree(s, p)[k], Arrives(s, p, writer != reader).root[k], writer, reader)
    {
      ArrivesUnchanged(s, p, writer, reader, k);
    }
  }

  // ----- one array at a time -----

  lemma TypedIsShaped(s: Schema, i: nat, e: Elem, swap: bool)
    requires SchemaOk(s) && i < |s| && ElemTyped(s, i, e)
    ensures Shaped(s, i, ViewVals(e.vals, swap))
  {
    hide SchemaOk, Slots, ElemTyped;
    RowAbove(s, i);
    AboveAt(s, RowSlots(s, i), i);
    ElemVals(s, i, e);
    forall k | 0 <= k < |e.vals| && RowSlots(s, i)[k].node.Ary? ensures ViewVals(e.vals, swap)[k].List? {
      assert Typed(s, RowSlots(s, i)[k].node, e.vals[k]);
    }
  }

  lemma ElemVals(s: Schema, i: nat, e: Elem)
    requires i < |s| && ElemTyped(s, i, e)
    ensures ValsTyped(s, RowSlots(s, i), e.vals)
  {
    hide Slots;
  }

  // What a root-level array arrives with.
  lemma ArrayArrives(s: Schema, p: Packed, swap: bool, i: nat, j: nat)
    requires SchemaOk(s) && 0 < |s| && p.root.Some? && |p.root.value| == |RowSlots(s, 0)| && |p.pending| == |s|
    requires i < |s| && j < |RowSlots(s, 0)| && RowSlots(s, 0)[j].node == Ary(i)
    ensures |Arrives(s, p, swap).rem| == |s| && Arrives(s, p, swap).rem[i] == ViewElems(p.pending[i], swap)
  {
    hide SchemaOk, Slots, Delivered, ViewElems;
    ViewShaped(s, p, swap);
    RowArysOnce(s, 0);
    var vals := ViewVals(PackedTree(s, p), swap);
    ShapedArrays(s, 0, vals);
    DeliveredAt(Nothing(s).rem, RowSlots(s, 0), vals, |RowSlots(s, 0)|, j);
    assert PackedTree(s, p)[j] == List(p.pending[i]);
  }

  // The call on root-level array i that follows d earlier ones returns how many
  // elements are left and gives its variables the meaning of the d-th element
  // packed, whatever other calls came in between but those on the root.
  lemma CallDelivers(s: Schema, p: Packed, writer: bool, reader: bool, calls: seq<int>, i: nat, j: nat, rows: seq<seq<Cursor>>, mem: Memory)
    requires SchemaOk(s) && 0 < |s| && p.root.Some? && |p.root.value| == |RowSlots(s, 0)| && BackbonesOk(s, p.pending)
    requires 0 < i < |s| && j < |RowSlots(s, 0)| && RowSlots(s, 0)[j].node == Ary(i)
    requires forall k :: 0 <= k < |calls| && calls[k] >= 0 ==> !Holds(s, calls[k], i)
    requires AtRow(s, rows, i) && AddrsDistinct(rows[i], Nodes(s[i]), RowSlots(s, i))
    ensures var now := UnpackRun(s, Arrives(s, p, writer != reader), calls); var d := Count(calls, i);
      && UnpackCode(s, now, i) == (if d < |p.pending[i]| then |p.pending[i]| - d else 0)
      && (d >= |p.pending[i]| ==> UnpackCall(s, now, i) == now && CallMemory(s, rows, now, i, mem) == mem)
      && (d < |p.pending[i]| ==>
        var out := CallMemory(s, rows, now, i, mem); var e := p.pending[i][d];
        && |e.vals| == |RowSlots(s, i)|
        && forall n :: 0 <= n < |e.vals| && RowSlots(s, i)[n].node.Leaf? ==>
            var a := SlotAddr(rows[i], Nodes(s[i]), RowSlots(s, i)[n]); a in out && SameMeaning(e.vals[n], out[a], writer, reader))
  {
    hide SchemaOk, Slots, Nodes, Delivered, Arrives, SameMeaning, SlotAddr, Shaped, AddrsDistinct, UnpackRun, Written, ViewElems, BackboneOk, Holds, Count;
    var swap := writer != reader;
    var ld, d := Arrives(s, p, swap), Count(calls, i);
    ArrayArrives(s, p, swap, i, j);
    ElemsShaped(s, i, p.pending[i], swap);
    UnpackInOrder(s, ld, calls, i);
    var now := UnpackRun(s, ld, calls);
    if d < |p.pending[i]| {
      var e := p.pending[i][d];
      assert now.rem[i][0] == ViewElems(p.pending[i], swap)[d];
      ElemArrives(s, i, p.pending[i], d, writer, reader);
      assert Deliverable(s, now, i);
      VariablesHold(rows[i], Nodes(s[i]), RowSlots(s, i), NextVals(now, i), mem, |RowSlots(s, i)|);
    }
  }

  lemma ElemsShaped(s: Schema, i: nat, es: seq<Elem>, swap: bool)
    requires SchemaOk(s) && i < |s| && BackboneOk(s, i, es)
    ensures forall k :: 0 <= k < |es| ==> Shaped(s, i, ViewElems(es, swap)[k].vals)
  {
    hide SchemaOk, Shaped, ElemTyped, Slots;
    forall k | 0 <= k < |es| ensures Shaped(s, i, ViewElems(es, swap)[k].vals) {
      assert es[k] in es;
      TypedIsShaped(s, i, es[k], swap);
    }
  }

  lemma ElemArrives(s: Schema, i: nat, es: seq<Elem>, d: nat, writer: bool, reader: bool)
    requires i < |s| && d < |es| && BackboneOk(s, i, es)
    ensures |es[d].vals| == |RowSlots(s, i)| == |ViewElems(es, writer != reader)[d].vals|
    ensures forall n :: 0 <= n < |es[d].vals| ==> SameMeaning(es[d].vals[n], ViewElems(es, writer != reader)[d].vals[n], writer, reader)
  {
    hide ElemTyped, Slots, SameMeaning, HostView;
    assert es[d] in es;
    ElemVals(s, i, es[d]);
    ElemKeepsMeaning(es[d], writer, reader);
  }
}
