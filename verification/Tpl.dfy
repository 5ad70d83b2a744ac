// The tpl object: node cursors, packed backbones and the loaded image, changed
// in place by tpl_pack, tpl_dump, tpl_load and tpl_unpack.
module TplObject {
  import opened Bytes
  import opened TplSchema
  import opened TplWire
  import opened TplState
  import opened TplImage
  import opened TplCounters
  import opened TplReset

  class Tpl {
    const schema: Schema
    const fmt: bytes
    const fxlens: seq<nat>
    const hostBig: bool
    const parents: seq<Place>        // the array node each row hangs on

    var cursors: seq<seq<Cursor>>
    var data: map<(nat, nat), Val>   // the root's data buffers, by node and record
    var pending: seq<seq<Elem>>      // the backbone of each A(...) node
    var serOsz: seq<nat>
    var flags: Flags
    var text: bytes                  // the loaded image
    var num: seq<nat>                // elements of each array not yet unpacked
    var cur: seq<Option<nat>>        // where the next of them starts

    // What the image holds: the root's values and, for each array, the
    // elements that tpl_unpack has still to deliver.
    ghost var loaded: Loaded

    constructor (schema: Schema, parents: seq<Place>, fmt: bytes, fxlens: seq<nat>, hostBig: bool, rows: seq<seq<Cursor>>,
                 buffers: map<(nat, nat), Val>)
      requires SchemaOk(schema) && ParentsOk(schema, parents) && FmtOk(schema, fmt, fxlens) && AtRest(schema, rows)
      ensures Valid() && flags == Flags(false, false, false, false)
      ensures this.schema == schema && this.parents == parents && this.fmt == fmt && this.fxlens == fxlens && this.hostBig == hostBig
      ensures cursors == rows && data == buffers && pending == seq(|schema|, _ => [])
    {
      this.schema, this.parents, this.fmt, this.fxlens, this.hostBig := schema, parents, fmt, fxlens, hostBig;
      cursors, data := rows, buffers;
      pending := seq(|schema|, _ => []);
      serOsz := seq(|schema|, r => if r == 0 then HeaderSize(fmt, fxlens) else 0);
      flags := Flags(false, false, false, false);
      text := [];
      num := seq(|schema|, _ => 0);
      cur := seq(|schema|, _ => None);
      loaded := Nothing(schema);
    }

    // Cursors at rest, what packing has built so far well typed, and the
    // bubbled-up sizes those of what would be written.
    ghost predicate Valid()
      reads this
    {
      && SchemaOk(schema) && FmtOk(schema, fmt, fxlens) && AtRest(schema, cursors)
      && 0 < |schema| == |serOsz| && serOsz[0] == HeaderSize(fmt, fxlens)
      && BackbonesOk(schema, pending) && SizesOk(pending, serOsz)
      && |num| == |cur| == |schema| && !(flags.wronly && flags.rdonly)
      && ParentsOk(schema, parents) && pending[0] == []
    }

    // The same with '#' counters that a rejected image may have left behind.
    ghost predicate Sound()
      reads this
    {
      && SchemaOk(schema) && FmtOk(schema, fmt, fxlens) && InRange(schema, cursors)
      && 0 < |schema| == |serOsz| && serOsz[0] == HeaderSize(fmt, fxlens)
      && BackbonesOk(schema, pending) && SizesOk(pending, serOsz)
      && |num| == |cur| == |schema| && !(flags.wronly && flags.rdonly)
      && ParentsOk(schema, parents) && pending[0] == []
    }

    lemma ValidIsSound()
      ensures Valid() <==> Sound() && AtRest(schema, cursors)
    {
      hide FmtOk, SchemaOk, BackboneOk, RowAtRest, RowInRange, ParentsOk;
      if AtRest(schema, cursors) {
        RestInRange(schema, cursors);
      }
    }

    // The mode in which the loaded image is read.
    function ReadMode(): Mode
      reads this
    {
      Mode(if flags.xendian then !hostBig else hostBig, flags.xendian, flags.v12)
    }

    // Every position tpl_unpack would read from lies in front of well-formed
    // data inside the image.
    ghost predicate Readable()
      requires Valid()
      reads this
    {
      && flags.rdonly && !flags.v12
      && ImageReadable(schema, fmt, fxlens, text, ReadMode(), num, cur, loaded)
    }

    // Every leaf of row r can be read from the mapped variables.
    ghost predicate VarsOk(r: nat, mem: Memory)
      requires Valid() && r < |schema|
      reads this
    {
      RowReady(schema, cursors, r);
      MemOk(cursors[r], Nodes(schema[r]), RowSlots(schema, r), mem)
    }

    ghost function State(): Packed
      requires Valid()
      reads this
    {
      Packed(if RootReady(schema, data) then Some(RootVals(schema, data)) else None, pending)
    }

    // tpl_free_keep_map: walk through the tree, up again where a list ends, and
    // empty every array; of the root's strings and buffers go those the data
    // pointers stand at. The mapping and the '#' counters stay.
    method FreeKeepMap()
      requires Sound()
      modifies this`data, this`pending, this`serOsz, this`flags, this`num, this`cur, this`loaded
      ensures Sound() && flags == Flags(false, false, false, false)
      ensures pending == seq(|schema|, _ => []) && loaded == Nothing(schema)
      ensures forall id :: 0 < id < |schema| ==> num[id] == 0 && cur[id] == None
      ensures data == Freed(schema, old(data))
    {
      hide Nodes, Passed, RootAt, StepsLeft, FreedUpTo, FmtOk, SchemaOk, BackboneOk, RowInRange, ParentsOk;
      var r: nat, c: nat := 0, 0;
      ghost var data0 := data;
      FreedStart(Nodes(schema[0]), data);
      NothingPassed(schema, parents);
      while c < |Nodes(schema[r])|
        invariant r < |schema| && c <= |Nodes(schema[r])| && (c == |Nodes(schema[r])| ==> r == 0)
        invariant |pending| == |serOsz| == |num| == |cur| == |schema|
        invariant serOsz[0] == HeaderSize(fmt, fxlens) && pending[0] == []
        invariant forall id :: 0 < id < |schema| && id in Passed(schema, parents, r, c) ==>
          pending[id] == [] && serOsz[id] == 0 && num[id] == 0 && cur[id] == None
        invariant data == FreedUpTo(Nodes(schema[0]), RootAt(schema, parents, r, c), data0)
        decreases StepsLeft(schema, parents, r, c)
      {
        var node := Nodes(schema[r])[c];
        if node.Ary? {
          StepIn(schema, parents, r, c);
          NoData(schema, parents, r, c, data0);
          var id := node.id;
          serOsz := serOsz[id := 0];
          pending := pending[id := []];
          num := num[id := 0];
          cur := cur[id := None];
          r, c := id, 0;
          RowNotEmpty(schema, id);
        } else {
          StepOn(schema, parents, r, c);
          if r == 0 {
            RootAtRoot(schema, parents, c);
            EmptyNode(c, data0);
          }
          c := c + 1;
          r, c := NextNode(r, c);
        }
      }
      PassedAll(schema, parents);
      RootAtRoot(schema, parents, c);
      assert pending == seq(|schema|, _ => []);
      flags := Flags(false, false, false, false);
      loaded := Nothing(schema);
      NothingPending(schema, pending, serOsz);
    }

    // One node of the root's list: strings become NULL, a buffer goes.
    method EmptyNode(c: nat, ghost data0: map<(nat, nat), Val>)
      requires 0 < |schema| && InRange(schema, cursors) && c < |Nodes(schema[0])|
      requires data == FreedUpTo(Nodes(schema[0]), c, data0)
      modifies this`data
      ensures data == FreedUpTo(Nodes(schema[0]), c + 1, data0)
    {
      hide Nodes, FreedUpTo, Flat;
      FreedStep(Nodes(schema[0]), c, data0);
      assert RowInRange(Nodes(schema[0]), cursors[0]);
      var key := (c, cursors[0][c].rec);
      var node := Nodes(schema[0])[c];
      if node.Leaf? && node.field.Blob? {
        data := data - {key};
      } else if node.Leaf? && node.field.Text? && key in data {
        data := data[key := Nulls(node.field.num)];
      }
    }

    // Where a list has ended: the next node of the nearest list above that has
    // one, or the end of the root's list.
    method NextNode(r0: nat, c0: nat) returns (r: nat, c: nat)
      requires ParentsOk(schema, parents) && r0 < |schema| && c0 <= |Nodes(schema[r0])|
      ensures r < |schema| && c <= |Nodes(schema[r])| && (c == |Nodes(schema[r])| ==> r == 0)
      ensures Passed(schema, parents, r, c) == Passed(schema, parents, r0, c0)
      ensures RootAt(schema, parents, r, c) == RootAt(schema, parents, r0, c0)
      ensures StepsLeft(schema, parents, r, c) == StepsLeft(schema, parents, r0, c0)
    {
      hide Nodes, Passed, RootAt, StepsLeft, ParentsOk;
      r, c := r0, c0;
      ParentsLength(schema, parents);
      while c == |Nodes(schema[r])| && r != 0
        invariant r < |schema| && c <= |Nodes(schema[r])|
        invariant Passed(schema, parents, r, c) == Passed(schema, parents, r0, c0)
        invariant RootAt(schema, parents, r, c) == RootAt(schema, parents, r0, c0)
        invariant StepsLeft(schema, parents, r, c) == StepsLeft(schema, parents, r0, c0)
        decreases r
      {
        StepOut(schema, parents, r);
        r, c := parents[r].row, parents[r].pos + 1;
      }
    }

    // tpl_pack: store the mapped variables in the root, or append one element
    // to the backbone of array i, taking over what its arrays have collected.
    // A loaded tpl is emptied first.
    method Pack(i: int, mem: Memory) returns (rc: int)
      requires Valid()
      requires 0 <= i < |schema| ==> VarsOk(i, mem)
      modifies this
      ensures Valid() && cursors == old(cursors)
      ensures !(0 <= i < |schema|) ==> rc == -1 && unchanged(this)
      ensures 0 <= i < |schema| ==> rc == 0 && flags.wronly && !flags.rdonly
      ensures 0 <= i < |schema| && !old(flags.rdonly) ==>
        Ready(schema, cursors, old(State()), i) && State() == PackStep(schema, cursors, old(State()), i, mem)
      ensures 0 <= i < |schema| && old(flags.rdonly) ==>
        Ready(schema, cursors, Emptied(schema, old(data)), i) && State() == PackStep(schema, cursors, Emptied(schema, old(data)), i, mem)
    {
      if !(0 <= i < |schema|) {
        return -1;
      }
      hide SchemaOk, FmtOk, RowAtRest, RowInRange, ParentsOk, BackboneOk, SizesOk, RootReady, Freed, PackStep, MemOk;
      ValidIsSound();
      if flags.rdonly {
        FreeKeepMap();
        ValidIsSound();
      }
      flags := flags.(wronly := true);
      RowReady(schema, cursors, i);
      if i == 0 {
        PackRoot(mem);
      } else {
        PackElem(i, mem);
      }
      return 0;
    }

    method PackRoot(mem: Memory)
      requires Valid() && VarsOk(0, mem)
      modifies this`cursors, this`data
      ensures Valid() && cursors == old(cursors)
      ensures Ready(schema, cursors, old(State()), 0) && State() == PackStep(schema, cursors, old(State()), 0, mem)
    {
      hide Walk, Moved, Walking, Nodes, Slots, Stored, SlotAddr, NextPound, PackVals, ParentsOk, FmtOk, BackboneOk;
      var nodes := Nodes(schema[0]);
      ghost var slots := RowSlots(schema, 0);
      RowReady(schema, cursors, 0);
      StoredStart(cursors[0], nodes, slots, mem, data);
      SlotsDistinct(schema[0], 0);
      ghost var rows := cursors;
      var c: nat := 0;
      ghost var it: nat, n: nat := 0, 0;
      HereAtRest(rows, nodes, 0, 0, true, true);
      while c < |nodes|
        invariant Walking(nodes, slots, c, it, n) && c <= |nodes| && n <= |slots|
        invariant cursors == Here(rows, nodes, 0, c, it, true, true)
        invariant Stored(rows[0], nodes, slots, n, mem, data)
        decreases |nodes| - NextPound(nodes, c), CountAt(nodes, NextPound(nodes, c)) - it, NextPound(nodes, c) - c
      {
        WalkingFacts(nodes, slots, c, it, n);
        if nodes[c].Pound? {
          c, it := Turn(0, c, true, true, rows, slots, it, n);
        } else {
          StepLeaf(nodes, slots, c, it, n);
          LeafCursor(rows[0], nodes, slots, c, it, n, true, true);
          StoredStep(rows[0], nodes, slots, n, mem, data);
          if nodes[c].Leaf? {
            data := data[(c, cursors[0][c].rec) := mem[cursors[0][c].addr]];
          }
          c := c + 1;
          n := n + 1;
        }
      }
      AtEnd(nodes, slots, it, n);
      HereAtRest(rows, nodes, 0, c, true, true);
      StoredRoot(schema, rows[0], mem, pending, data);
    }

    // The '#' case of a walk, with the walk's position kept in step.
    method Turn(r: nat, c: nat, da: bool, dd: bool, ghost rows: seq<seq<Cursor>>, ghost slots: seq<Slot>, ghost it: nat, ghost n: nat)
      returns (next: nat, ghost it': nat)
      requires r < |schema| == |rows| && Walking(Nodes(schema[r]), slots, c, it, n)
      requires c < |Nodes(schema[r])| && Nodes(schema[r])[c].Pound?
      requires |rows[r]| == |Nodes(schema[r])| && forall j :: 0 <= j < |rows[r]| ==> rows[r][j].iternum == 0
      requires cursors == Here(rows, Nodes(schema[r]), r, c, it, da, dd)
      modifies this`cursors
      ensures Walking(Nodes(schema[r]), slots, next, it', n)
      ensures cursors == Here(rows, Nodes(schema[r]), r, next, it', da, dd)
      ensures var nodes := Nodes(schema[r]);
        NextPound(nodes, next) > c
        || (NextPound(nodes, next) == c && it' > it)
    {
      hide Walk, Moved, Nodes, NextPound, MoveOne;
      var nodes := Nodes(schema[r]);
      StepTurn(nodes, slots, c, it, n);
      next := PoundStep(r, c, da, dd, rows[r], it);
      it' := if it + 1 < nodes[c].count then it + 1 else 0;
      if it' == 0 {
        HereAtRest(rows, nodes, r, next, da, dd);
        assert rows[r := rows[r]] == rows;
      }
    }

    method PackElem(i: nat, mem: Memory)
      requires Valid() && 0 < i < |schema| && VarsOk(i, mem)
      modifies this`cursors, this`pending, this`serOsz
      ensures Valid() && cursors == old(cursors)
      ensures Ready(schema, cursors, old(State()), i) && State() == PackStep(schema, cursors, old(State()), i, mem)
    {
      hide Walk, Moved, Walking, Nodes, Slots, NextPound, Building, PackVals, MemOk, SlotAddr, Size, Cleared, RowAtRest, BackboneOk, FmtOk, HeaderSize, ParentsOk;
      var nodes := Nodes(schema[i]);
      ghost var slots := RowSlots(schema, i);
      RowReady(schema, cursors, i);
      ghost var rows, pend0, size0 := cursors, pending, serOsz[i];
      ghost var vals := PackVals(rows[i], nodes, slots, mem, pend0);
      var elem: seq<Val> := [];
      var c: nat := 0;
      ghost var it: nat, n: nat := 0, 0;
      HereAtRest(rows, nodes, i, 0, true, true);
      BuildStart(i, slots, vals, pend0, serOsz);
      while c < |nodes|
        invariant Walking(nodes, slots, c, it, n) && c <= |nodes| && n <= |slots|
        invariant cursors == Here(rows, nodes, i, c, it, true, true)
        invariant Building(i, slots, vals, pend0, size0, n, elem, pending, serOsz)
        invariant |serOsz| == |pending| == |schema| && serOsz[0] == HeaderSize(fmt, fxlens)
        decreases |nodes| - NextPound(nodes, c), CountAt(nodes, NextPound(nodes, c)) - it, NextPound(nodes, c) - c
      {
        WalkingFacts(nodes, slots, c, it, n);
        if nodes[c].Pound? {
          c, it := Turn(i, c, true, true, rows, slots, it, n);
        } else {
          StepLeaf(nodes, slots, c, it, n);
          LeafCursor(rows[i], nodes, slots, c, it, n, true, true);
          if nodes[c].Leaf? {
            LeafValue(rows[i], nodes, slots, mem, pend0, n);
            var v := mem[cursors[i][c].addr];
            BuildLeaf(i, slots, vals, pend0, size0, n, elem, pending, serOsz);
            elem := elem + [v];
            serOsz := serOsz[i := serOsz[i] + FieldSize(nodes[c].field, v)];
          } else {
            var id := nodes[c].id;
            AryIter(schema, i, n);
            AryValue(schema, i, rows[i], mem, pend0, n);
            BuildAry(i, slots, vals, pend0, size0, n, elem, pending, serOsz);
            elem := elem + [List(pending[id])];
            serOsz := serOsz[i := serOsz[i] + 4 + serOsz[id]][id := 0];
            pending := pending[id := []];
          }
          c := c + 1;
          n := n + 1;
        }
      }
      AtEnd(nodes, slots, it, n);
      HereAtRest(rows, nodes, i, c, true, true);
      Built(schema, i, rows[i], mem, pend0, size0, elem, pending, serOsz);
      pending := pending[i := pending[i] + [Elem(elem)]];
    }

    // tpl_ser_osz: the root is walked, sizes of arrays have been bubbled up.
    method SerOsz() returns (sz: nat)
      requires SchemaOk(schema) && AtRest(schema, cursors) && RootReady(schema, data)
      requires BackbonesOk(schema, pending) && SizesOk(pending, serOsz) && 0 < |schema|
      modifies this`cursors
      ensures cursors == old(cursors)
      ensures sz == serOsz[0] + ValsSize(TreeOf(schema, data, pending))
    {
      hide Walk, Moved, Walking, Nodes, Slots, NextPound, Size, RootReady, SchemaOk, RowAtRest, TreeOf, BackboneOk, Typed;
      var nodes := Nodes(schema[0]);
      ghost var slots := RowSlots(schema, 0);
      RowReady(schema, cursors, 0);
      ghost var tree := TreeOf(schema, data, pending);
      ghost var rows := cursors;
      var c: nat := 0;
      ghost var it: nat, n: nat := 0, 0;
      HereAtRest(rows, nodes, 0, 0, false, true);
      sz := serOsz[0];
      assert tree[..0] == [];
      while c < |nodes|
        invariant Walking(nodes, slots, c, it, n) && c <= |nodes| && n <= |slots|
        invariant cursors == Here(rows, nodes, 0, c, it, false, true)
        invariant sz == serOsz[0] + ValsSize(tree[..n])
        decreases |nodes| - NextPound(nodes, c), CountAt(nodes, NextPound(nodes, c)) - it, NextPound(nodes, c) - c
      {
        WalkingFacts(nodes, slots, c, it, n);
        if nodes[c].Pound? {
          c, it := Turn(0, c, false, true, rows, slots, it, n);
        } else {
          StepLeaf(nodes, slots, c, it, n);
          LeafCursor(rows[0], nodes, slots, c, it, n, false, true);
          TreeSlot(schema, data, pending, n);
          SizePrefix(tree, n);
          if nodes[c].Leaf? {
            var v := data[(c, cursors[0][c].rec)];
            FieldSizeIsSize(nodes[c].field, v);
            sz := sz + FieldSize(nodes[c].field, v);
          } else {
            PendingSize(schema, pending, serOsz, nodes[c].id);
            sz := sz + 4 + serOsz[nodes[c].id];
          }
          c := c + 1;
          n := n + 1;
        }
      }
      AtEnd(nodes, slots, it, n);
      HereAtRest(rows, nodes, 0, c, false, true);
      assert tree[..|slots|] == tree;
    }

    // tpl_cpv: copy bytes and advance.
    method Cpv(buf: array<byte>, dv: nat, bytes: bytes) returns (end: nat)
      requires dv + |bytes| <= buf.Length
      modifies buf
      ensures end == dv + |bytes| && buf[..end] == old(buf[..dv]) + bytes
    {
      forall k | 0 <= k < |bytes| {
        buf[dv + k] := bytes[k];
      }
      end := dv + |bytes|;
    }

    // tpl_dump: size first, then the image into a buffer of exactly that size.
    method Dump() returns (rc: int, buf: array<byte>)
      requires Valid()
      requires !flags.rdonly ==> DumpOk()
      modifies this`cursors
      ensures Valid() && cursors == old(cursors) && fresh(buf)
      ensures flags.rdonly ==> rc == -1
      ensures !flags.rdonly ==> rc == 0 && DumpOk() && buf[..] == Image(fmt, fxlens, TreeNow(), hostBig)
    {
      if flags.rdonly {
        buf := new byte[0];
        return -1, buf;
      }
      var sz := SerOsz();
      buf := new byte[sz];
      DumpToMem(buf);
      return 0, buf;
    }

    // The root has been packed and everything fits the 32-bit length words.
    ghost predicate DumpOk()
      requires Valid()
      reads this
    {
      && RootReady(schema, data) && AllFit(TreeNow())
      && HeaderSize(fmt, fxlens) + ValsSize(TreeNow()) < TWO_TO_THE_32
    }

    ghost function TreeNow(): seq<Val>
      requires Valid() && RootReady(schema, data)
      reads this
    {
      TreeOf(schema, data, pending)
    }

    method DumpToMem(buf: array<byte>)
      requires Valid() && DumpOk() && buf.Length == HeaderSize(fmt, fxlens) + ValsSize(TreeNow())
      modifies this`cursors, buf
      ensures Valid() && cursors == old(cursors) && DumpOk()
      ensures buf[..] == Image(fmt, fxlens, TreeNow(), hostBig)
    {
      hide Preamble, SchemaOk, BackbonesOk, HeaderSize, AtRest, RootReady, SizesOk, TreeOf, AllFit, SerVals, ValsSize;
      ValsLength(TreeNow(), hostBig);
      var dv := WritePreamble(buf);
      dv := DumpRoot(buf, dv);
      assert buf[..] == buf[..dv];
    }

    // The root's own values and its arrays, behind the preamble.
    method DumpRoot(buf: array<byte>, dv: nat) returns (end: nat)
      requires SchemaOk(schema) && AtRest(schema, cursors) && RootReady(schema, data) && BackbonesOk(schema, pending) && 0 < |schema|
      requires AllFit(TreeOf(schema, data, pending)) && dv + |SerVals(TreeOf(schema, data, pending), hostBig)| <= buf.Length
      modifies this`cursors, buf
      ensures cursors == old(cursors)
      ensures var data := SerVals(TreeOf(schema, data, pending), hostBig);
        end == dv + |data| && buf[..end] == old(buf[..dv]) + data
    {
      hide Walk, Moved, Walking, Nodes, Slots, NextPound, RootReady, SerVals, Ser, Dumping, Fits, AllFit, SchemaOk, RowAtRest, TreeOf, BackboneOk, Typed;
      var nodes := Nodes(schema[0]);
      ghost var slots := RowSlots(schema, 0);
      RowReady(schema, cursors, 0);
      ghost var tree := TreeOf(schema, data, pending);
      ghost var target := buf[..dv] + SerVals(tree, hostBig);
      DumpStart(buf[..dv], tree, hostBig);
      ghost var rows := cursors;
      var c: nat := 0;
      ghost var it: nat, n: nat := 0, 0;
      HereAtRest(rows, nodes, 0, 0, false, true);
      end := dv;
      while c < |nodes|
        invariant Walking(nodes, slots, c, it, n) && c <= |nodes| && n <= |slots|
        invariant cursors == Here(rows, nodes, 0, c, it, false, true)
        invariant end <= |target| <= buf.Length && Dumping(buf[..end], tree, n, hostBig, target)
        decreases |nodes| - NextPound(nodes, c), CountAt(nodes, NextPound(nodes, c)) - it, NextPound(nodes, c) - c
      {
        WalkingFacts(nodes, slots, c, it, n);
        if nodes[c].Pound? {
          c, it := Turn(0, c, false, true, rows, slots, it, n);
        } else {
          StepLeaf(nodes, slots, c, it, n);
          LeafCursor(rows[0], nodes, slots, c, it, n, false, true);
          TreeSlot(schema, data, pending, n);
          DumpStep(buf[..end], tree, n, hostBig, target);
          if nodes[c].Leaf? {
            end := Cpv(buf, end, Ser(data[(c, cursors[0][c].rec)], hostBig));
          } else {
            AryIter(schema, 0, n);
            HereAtRest(rows, nodes, 0, c, false, true);
            end := DumpAtyp(nodes[c].id, pending[nodes[c].id], buf, end);
          }
          c := c + 1;
          n := n + 1;
        }
      }
      AtEnd(nodes, slots, it, n);
      HereAtRest(rows, nodes, 0, c, false, true);
      DumpDone(buf[..end], tree, hostBig, target);
    }

    method WritePreamble(buf: array<byte>) returns (dv: nat)
      requires FmtOk(schema, fmt, fxlens) && HeaderSize(fmt, fxlens) <= buf.Length < TWO_TO_THE_32
      modifies buf
      ensures dv == HeaderSize(fmt, fxlens) && buf[..dv] == Preamble(fmt, fxlens, buf.Length, hostBig)
    {
      hide FmtOk, Word32, FlagByte, LenWords;
      LensAreInts(schema, fmt, fxlens);
      var total := buf.Length;
      dv := Cpv(buf, 0, MAGIC);
      dv := Cpv(buf, dv, [FlagByte(fmt, hostBig)]);
      dv := Cpv(buf, dv, Word32(total, hostBig));
      dv := Cpv(buf, dv, fmt + [0]);
      dv := Cpv(buf, dv, LenWords(fxlens, hostBig));
    }

    // tpl_dump_atyp: the element count, then every element on the backbone.
    method DumpAtyp(id: nat, es: seq<Elem>, buf: array<byte>, dv: nat) returns (end: nat)
      requires SchemaOk(schema) && AtRest(schema, cursors) && 0 < id < |schema|
      requires BackboneOk(schema, id, es) && Fits(List(es)) && dv + |Ser(List(es), hostBig)| <= buf.Length
      modifies this`cursors, buf
      ensures cursors == old(cursors)
      ensures end == dv + |Ser(List(es), hostBig)| && buf[..end] == old(buf[..dv]) + Ser(List(es), hostBig)
      decreases |schema| - id, 1
    {
      hide SerVals, SerElems, Ser, Fits, ElemTyped, AtRest, SchemaOk, DumpingElems, BackboneOk, ValsTyped;
      ghost var target := buf[..dv] + Ser(List(es), hostBig);
      DumpElemsStart(buf[..dv], es, hostBig);
      DumpElemsRoom(buf[..dv], es, hostBig);
      end := Cpv(buf, dv, Word32(|es|, hostBig));
      var b := 0;
      while b < |es|
        invariant b <= |es| && cursors == old(cursors) && AtRest(schema, cursors)
        invariant end <= |target| <= buf.Length && DumpingElems(buf[..end], es, b, hostBig, target)
      {
        DumpElemsStep(buf[..end], es, b, hostBig, target);
        ElemFits(schema, id, es, b);
        end := DumpElem(id, es[b].vals, buf, end);
        b := b + 1;
      }
      DumpElemsDone(buf[..end], es, hostBig, target);
    }

    method DumpElem(id: nat, vals: seq<Val>, buf: array<byte>, dv: nat) returns (end: nat)
      requires SchemaOk(schema) && AtRest(schema, cursors) && 0 < id < |schema|
      requires ValsTyped(schema, RowSlots(schema, id), vals) && AllFit(vals) && dv + |SerVals(vals, hostBig)| <= buf.Length
      modifies this`cursors, buf
      ensures cursors == old(cursors)
      ensures end == dv + |SerVals(vals, hostBig)| && buf[..end] == old(buf[..dv]) + SerVals(vals, hostBig)
      decreases |schema| - id, 0
    {
      hide Walk, Moved, Walking, Nodes, Slots, NextPound, SerVals, Ser, Dumping, Fits, AllFit, ValsTyped, Typed, BackboneOk, SchemaOk;
      var nodes := Nodes(schema[id]);
      ghost var slots := RowSlots(schema, id);
      RowReady(schema, cursors, id);
      TypedLength(schema, slots, vals);
      ghost var target := buf[..dv] + SerVals(vals, hostBig);
      DumpStart(buf[..dv], vals, hostBig);
      ghost var rows := cursors;
      var c: nat := 0;
      var n: nat := 0;   // datav: how far into the element's values we are
      ghost var it: nat := 0;
      HereAtRest(rows, nodes, id, 0, false, false);
      end := dv;
      while c < |nodes|
        invariant Walking(nodes, slots, c, it, n) && c <= |nodes| && n <= |slots|
        invariant cursors == Here(rows, nodes, id, c, it, false, false)
        invariant end <= |target| <= buf.Length && Dumping(buf[..end], vals, n, hostBig, target)
        decreases |nodes| - NextPound(nodes, c), CountAt(nodes, NextPound(nodes, c)) - it, NextPound(nodes, c) - c
      {
        WalkingFacts(nodes, slots, c, it, n);
        if nodes[c].Pound? {
          c, it := Turn(id, c, false, false, rows, slots, it, n);
        } else {
          StepLeaf(nodes, slots, c, it, n);
          DumpStep(buf[..end], vals, n, hostBig, target);
          if nodes[c].Leaf? {
            end := Cpv(buf, end, Ser(vals[n], hostBig));
          } else {
            AryIter(schema, id, n);
            ElemArrayOk(schema, slots, vals, n, id);
            HereAtRest(rows, nodes, id, c, false, false);
            end := DumpAtyp(nodes[c].id, vals[n].elems, buf, end);
          }
          c := c + 1;
          n := n + 1;
        }
      }
      AtEnd(nodes, slots, it, n);
      HereAtRest(rows, nodes, id, c, false, false);
      DumpDone(buf[..end], vals, hostBig, target);
    }

    // tpl_serlen: the length of the data at dv that belongs to row r, found by
    // walking it with every read checked against the end of the image. The walk
    // goes by the '#' counters it finds; where it gives up they stay.
    method SerLen(r: nat, dv: nat) returns (len: Option<nat>)
      requires SchemaOk(schema) && InRange(schema, cursors) && r < |schema| && dv <= |text|
      modifies this`cursors
      ensures InRange(schema, cursors)
      ensures var t := LengthTripOf(schema, old(cursors), text, dv, ReadMode(), r);
        && After(old(cursors), cursors, t.counters)
        && len == if t.end.None? then None else Some(t.end.value - dv)
      decreases |schema| - r, 1
    {
      hide Nodes, Slots, RowInRange, RowTrip, ElemsTrip, ArrayTrip, SchemaOk, ReadWord32, LateWalk, Shape;
      var m := ReadMode();
      ghost var rows, k := cursors, Counts(cursors);
      CountsFit(schema, rows);
      ArrayTripUnfold(schema, text, dv, r, k, m);
      var pos: nat, n: nat := dv, 1;
      if r > 0 {
        if dv + 4 > |text| {
          return None;
        }
        var count := ReadWord32(text[dv..dv + 4], m.big);
        n := if count < TWO_TO_THE_31 then count else 0;   // int num: a larger count is negative
        pos := dv + 4;
      }
      ghost var whole := ElemsTrip(schema, text, pos, r, n, k, m);
      while n > 0
        invariant dv <= pos <= |text| && n >= 0
        invariant InRange(schema, cursors) && Shape(schema, k) && After(rows, cursors, k)
        invariant ElemsTrip(schema, text, pos, r, n, k, m) == whole
      {
        ElemsTripUnfold(schema, text, pos, r, n, k, m);
        CountedTwice(rows, k, k);
        ghost var one := RowTripOf(schema, cursors, text, pos, m, r);
        ShapeFits(schema, rows, one.counters);
        var next := RowEnd(r, pos);
        AfterInner(rows, k, cursors, one.counters);
        k := one.counters;
        if next == None {
          return None;
        }
        pos := next.value;
        n := n - 1;
      }
      ElemsTripUnfold(schema, text, pos, r, 0, k, m);
      return Some(pos - dv);
    }

    // One pass over the children of row r.
    method RowEnd(r: nat, dv: nat) returns (end: Option<nat>)
      requires SchemaOk(schema) && InRange(schema, cursors) && r < |schema| && dv <= |text|
      modifies this`cursors
      ensures InRange(schema, cursors)
      ensures var t := RowTripOf(schema, old(cursors), text, dv, ReadMode(), r);
        After(old(cursors), cursors, t.counters) && end == t.end && (end.Some? ==> dv <= end.value <= |text|)
      decreases |schema| - r, 0
    {
      hide Nodes, NextPound, SchemaOk, InRange, ScanField, Passing, After, RowTripOf, LengthTripOf, CountAt;
      var m := ReadMode();
      var nodes := Nodes(schema[r]);
      ghost var rows, k, whole := cursors, Counts(cursors), RowTripOf(schema, cursors, text, dv, m, r);
      PassStart(schema, rows, text, m, r, dv);
      var c: nat, pos: nat := 0, dv;
      ghost var it: nat := NextCount(nodes, k[r], 0);
      PassAt(schema, rows, cursors, text, m, r, k, c, it, pos, whole);
      while c < |nodes|
        invariant Flat(nodes) && c <= |nodes| && it < CountAt(nodes, NextPound(nodes, c)) && dv <= pos <= |text|
        invariant Passing(schema, rows, cursors, text, m, r, k, c, it, pos, whole)
        decreases |nodes| - NextPound(nodes, c), CountAt(nodes, NextPound(nodes, c)) - it, NextPound(nodes, c) - c
      {
        PassAt(schema, rows, cursors, text, m, r, k, c, it, pos, whole);
        if nodes[c].Pound? {
          ghost var it' := PassTurn(schema, rows, cursors, text, m, r, k, c, it, pos, whole);
          c := TurnLate(r, c);
          it := it';
        } else if nodes[c].Leaf? {
          PassField(schema, rows, cursors, text, m, r, k, c, it, pos, whole);
          var res := ScanField(text, pos, nodes[c].field, m);
          if res.Bad? {
            return None;
          }
          pos := res.end;
          c := c + 1;
        } else {
          ghost var k' := PassArray(schema, rows, cursors, text, m, r, k, c, it, pos, whole);
          var len := SerLen(nodes[c].id, pos);
          if len == None {
            return None;
          }
          pos := pos + len.value;
          k := k';
          c := c + 1;
        }
        PassAt(schema, rows, cursors, text, m, r, k, c, it, pos, whole);
      }
      PassAt(schema, rows, cursors, text, m, r, k, c, it, pos, whole);
      PassEnd(schema, rows, cursors, text, m, r, k, it, pos, whole);
      return Some(pos);
    }

    // The '#' case of the length walk: count, go back or clear and go on.
    method TurnLate(r: nat, c: nat) returns (next: nat)
      requires r < |schema| && r < |cursors| && c < |Nodes(schema[r])| == |cursors[r]|
      requires Nodes(schema[r])[c].Pound? && Nodes(schema[r])[c].span <= c
      modifies this`cursors
      ensures var nodes := Nodes(schema[r]); var it := old(cursors)[r][c].iternum; var again := it + 1 < nodes[c].count;
        && next == (if again then c - nodes[c].span else c + 1)
        && cursors == old(cursors)[r := old(cursors)[r][c := old(cursors)[r][c].(iternum := if again then it + 1 else 0)]]
    {
      hide Nodes;
      var nodes := Nodes(schema[r]);
      var iternum := cursors[r][c].iternum + 1;
      next := c - nodes[c].span;
      if iternum >= nodes[c].count {
        iternum := 0;
        next := c + 1;
      }
      cursors := cursors[r := cursors[r][c := cursors[r][c].(iternum := iternum)]];
    }

    // tpl_sanity: 0 exactly when the image is well formed for this tpl; else the
    // code of the first check that failed.
    method Sanity(excess: bool) returns (rc: int)
      requires SchemaOk(schema) && FmtOk(schema, fmt, fxlens) && InRange(schema, cursors) && 0 < |schema|
      modifies this`cursors, this`flags
      ensures InRange(schema, cursors) && After(old(cursors), cursors, LeftBy(schema, fmt, fxlens, text, old(cursors), ReadMode(), excess))
      ensures -11 <= rc <= 0
      ensures flags == SanityFlags(old(flags), text, hostBig)
      ensures rc == 0 <==> AcceptsAt(schema, fmt, fxlens, text, old(cursors), ReadMode(), excess)
    {
      hide SchemaOk, FmtOk, RowInRange, After, AcceptsAt, LeftBy, ReadWord32, LensMatch, At, Hashes;
      ghost var rows := cursors;
      var code := CheckHeader(excess);
      if code == 0 {
        code := CheckData(8 + |fmt| + 1 + 4 * |fxlens|, excess);
      } else {
        NothingLeft(schema, fmt, fxlens, text, rows, ReadMode(), excess);
      }
      return code;
    }

    // Everything but the data.
    method CheckHeader(excess: bool) returns (code: int)
      requires FmtOk(schema, fmt, fxlens)
      modifies this`flags
      ensures -11 <= code <= 0
      ensures flags == SanityFlags(old(flags), text, hostBig)
      ensures code == 0 <==> HeaderMatches(fmt, fxlens, text, ReadMode().big, excess)
      ensures code == 0 ==> HeaderSize(fmt, fxlens) <= |text|
    {
      hide FmtOk, ReadWord32, LensMatch, At, Hashes;
      var bufsz := |text|;
      if bufsz < 9 {
        return -1;
      }
      if text[..3] != MAGIC {
        return -2;
      }
      if NeedsSwap(text[3], hostBig) {
        flags := flags.(xendian := true);
      }
      if text[3] > 3 {
        return -11;
      }
      if text[3] < 2 {
        flags := flags.(v12 := true);
      }
      var big := ReadMode().big;
      if !excess && ReadWord32(text[4..8], big) != bufsz {
        return -3;
      }
      var dv;
      code, dv := CheckFormat();
      if code == 0 {
        code := CheckLens(dv, big);
      }
    }

    // The stored '#' lengths against the mapped ones.
    method CheckLens(dv: nat, big: bool) returns (code: int)
      requires FmtOk(schema, fmt, fxlens) && dv <= |text|
      ensures code in {0, -7, -10}
      ensures code == 0 <==> LensMatch(text, dv, fxlens, big)
      ensures code == 0 ==> dv + 4 * |fxlens| <= |text|
    {
      hide ReadWord32;
      if dv + 4 * Hashes(fmt) > |text| {
        return -10;
      }
      var k := 0;
      while k < |fxlens|
        invariant 0 <= k <= |fxlens|
        invariant forall j :: 0 <= j < k ==> ReadWord32(text[dv + 4 * j..dv + 4 * j + 4], big) == fxlens[j]
      {
        if ReadWord32(text[dv + 4 * k..dv + 4 * k + 4], big) != fxlens[k] {
          return -7;
        }
        k := k + 1;
      }
      return 0;
    }

    // The computed length of the data against the buffer.
    method CheckData(start: nat, excess: bool) returns (code: int)
      requires SchemaOk(schema) && InRange(schema, cursors) && 0 < |schema|
      requires start == HeaderSize(fmt, fxlens) <= |text| && HeaderMatches(fmt, fxlens, text, ReadMode().big, excess)
      modifies this`cursors
      ensures InRange(schema, cursors) && After(old(cursors), cursors, LeftBy(schema, fmt, fxlens, text, old(cursors), ReadMode(), excess))
      ensures code in {0, -8, -9}
      ensures code == 0 <==> AcceptsAt(schema, fmt, fxlens, text, old(cursors), ReadMode(), excess)
    {
      hide SchemaOk, RowInRange, ElemsTrip, HeaderMatches;
      CountsFit(schema, cursors);
      var len := SerLen(0, start);
      if len == None {
        return -8;
      }
      if (excess && |text| < start + len.value) || (!excess && start + len.value != |text|) {
        return -9;
      }
      return 0;
    }

    // The scan for the format's NUL, and the comparison with the mapped format.
    method CheckFormat() returns (code: int, dv: nat)
      requires FmtOk(schema, fmt, fxlens) && 9 <= |text|
      ensures code in {0, -4, -5, -6}
      ensures code == 0 <==> At(text, 8, fmt + [0])
      ensures code == 0 ==> dv == 8 + |fmt| + 1 <= |text|
    {
      dv := 8;
      while dv < |text| && text[dv] != 0
        invariant 8 <= dv <= |text|
        invariant forall j :: 8 <= j < dv ==> text[j] != 0 && text[j] in FMT_CHARS
      {
        if text[dv] !in FMT_CHARS {
          BadChar(schema, fmt, fxlens, text, dv);
          return -4, dv;
        }
        dv := dv + 1;
      }
      FmtInText(schema, fmt, fxlens, text, dv);
      if dv == |text| {
        return -5, dv;
      }
      if text[8..dv] != fmt {
        return -6, dv;
      }
      return 0, dv + 1;
    }

    // tpl_find_data_start: skip the preamble of an accepted image.
    method FindDataStart() returns (d: nat)
      requires FmtOk(schema, fmt, fxlens) && At(text, 8, fmt + [0])
      ensures d == HeaderSize(fmt, fxlens)
    {
      d := 8;
      var octothorpes := 0;
      FmtInText(schema, fmt, fxlens, text, 8 + |fmt|);
      assert text[8..8] == [];
      while text[d] != 0
        invariant 8 <= d <= 8 + |fmt| < |text| && text[8 + |fmt|] == 0
        invariant forall j :: 8 <= j < 8 + |fmt| ==> text[j] != 0
        invariant octothorpes == Hashes(text[8..d])
        decreases |text| - d
      {
        assert text[8..d + 1][..d - 8] == text[8..d];
        if text[d] == HASH {
          octothorpes := octothorpes + 1;
        }
        d := d + 1;
      }
      d := d + 1 + 4 * octothorpes;
    }

    // tpl_load from memory, with whatever '#' counters earlier rejected images
    // have left. On success the arrays of the root stand at their first elements.
    method Load(image: bytes, excess: bool) returns (rc: int)
      requires Sound()
      requires AcceptsAt(schema, fmt, fxlens, image, cursors, LoadMode(flags, image, hostBig), excess) ==>
        AtRest(schema, cursors) && Trusted(schema, fmt, fxlens, image, hostBig)
      modifies this
      ensures Sound()
      ensures old(Sound()) && rc == if AcceptsAt(schema, fmt, fxlens, image, old(cursors), LoadMode(old(flags), image, hostBig), excess) then 0 else -1
      ensures After(old(cursors), cursors, LeftBy(schema, fmt, fxlens, image, old(cursors), LoadMode(old(flags), image, hostBig), excess))
      ensures rc == 0 ==> Valid() && cursors == old(cursors) && Readable() && text == image && !flags.wronly
      ensures rc == 0 ==> 4 <= |image| && ReadMode() == ReadBackMode(image, hostBig)
      ensures rc == 0 ==>
        var d := DataScan(schema, fmt, fxlens, image, ReadMode());
        d.Good? && Shaped(schema, 0, d.value) && loaded == FreshlyLoaded(schema, d.value)
      ensures rc == -1 ==> !flags.wronly && !flags.rdonly
    {
      hide SchemaOk, FmtOk, RowAtRest, RowInRange, DataScan, BackboneOk, SizesOk, Freed, HeaderMatches, Shaped, Delivered, AcceptsFrom, After, LeftBy, Accepts;
      ghost var flags0, rows := flags, cursors;
      if flags.wronly || flags.rdonly {
        FreeKeepMap();
      }
      text := image;
      var code := Sanity(excess);
      assert ReadMode() == LoadMode(flags0, image, hostBig);
      if code != 0 {
        return -1;
      }
      AcceptsAtRest(schema, fmt, fxlens, image, rows, ReadMode(), excess);
      AfterSame(rows, cursors, LeftBy(schema, fmt, fxlens, image, rows, ReadMode(), excess));
      AcceptedHeader(schema, fmt, fxlens, image, ReadMode(), excess);
      TrustedShape(schema, fmt, fxlens, image, hostBig);
      flags := Flags(false, true, NeedsSwap(text[3], hostBig), false);
      UnpackA0();
      return 0;
    }

    // tpl_unpackA0: walk the root's data and point its arrays at their elements.
    method UnpackA0()
      requires SchemaOk(schema) && AtRest(schema, cursors) && FmtOk(schema, fmt, fxlens) && 0 < |schema| == |num| == |cur|
      requires flags.rdonly && !flags.v12 && HeaderSize(fmt, fxlens) <= |text| && At(text, 8, fmt + [0])
      requires var d := DataScan(schema, fmt, fxlens, text, ReadMode()); d.Good? && !d.wide && Shaped(schema, 0, d.value)
      modifies this`cursors, this`num, this`cur, this`loaded
      ensures cursors == old(cursors) && |num| == |cur| == |schema|
      ensures ImageReadable(schema, fmt, fxlens, text, ReadMode(), num, cur, loaded)
      ensures var d := DataScan(schema, fmt, fxlens, text, ReadMode()); loaded == FreshlyLoaded(schema, d.value)
    {
      hide SchemaOk, FmtOk, RowAtRest, ScanVals, ScanElems, Shaped, Delivered, At, Tail;
      ghost var d := DataScan(schema, fmt, fxlens, text, ReadMode());
      RowAbove(schema, 0);
      num := seq(|schema|, _ => 0);
      cur := seq(|schema|, _ => None);
      loaded := Loaded(d.value, Nothing(schema).rem);
      NothingTails(schema, text, ReadMode(), num, cur);
      var dv := FindDataStart();
      RestStart(schema, text, ReadMode(), 0, dv, d.value, d.end);
      var end, out := UnpackRow(0, dv, false, map[], d.value, d.end);
    }

    // One row of the image: leaves go to the mapped variables (when vars is
    // set), arrays are pointed at their elements.
    method UnpackRow(r: nat, dv: nat, vars: bool, mem: Memory, ghost vals: seq<Val>, ghost end: nat)
      returns (pos: nat, out: Memory)
      requires SchemaOk(schema) && AtRest(schema, cursors) && r < |schema| == |num| == |cur| == |loaded.rem|
      requires Rest(schema, text, ReadMode(), r, dv, 0, vals, end) && Shaped(schema, r, vals)
      requires Tails(schema, text, ReadMode(), num, cur, loaded.rem, r)
      requires !flags.v12
      modifies this`cursors, this`num, this`cur, this`loaded
      ensures cursors == old(cursors) && pos == end <= |text|
      ensures |num| == |cur| == |schema| && loaded.root == old(loaded.root)
      ensures Shaped(schema, r, vals) && loaded.rem == Delivered(old(loaded.rem), RowSlots(schema, r), vals, |RowSlots(schema, r)|)
      ensures Tails(schema, text, ReadMode(), num, cur, loaded.rem, r)
      ensures num[r] == old(num[r]) && loaded.rem[r] == old(loaded.rem[r])
      ensures AtRow(schema, cursors, r)
      ensures out == if vars then Written(cursors[r], Nodes(schema[r]), RowSlots(schema, r), vals, mem, |RowSlots(schema, r)|) else mem
    {
      hide Walk, Moved, Walking, Nodes, Slots, NextPound, SchemaOk, RowAtRest, ScanVals, ScanField, ScanNode, ScanElems, SlotAddr, Rest, Tail, Tails, Above, ReadWord32, Delivered, Written;
      var nodes := Nodes(schema[r]);
      ghost var slots := RowSlots(schema, r);
      RowReady(schema, cursors, r);
      ghost var rows, rem0, root0 := cursors, loaded.rem, loaded.root;
      var m := ReadMode();
      pos, out := dv, mem;
      var c: nat := 0;
      ghost var it: nat, n: nat := 0, 0;
      HereAtRest(rows, nodes, r, 0, vars, false);
      RestBounds(schema, text, m, r, pos, 0, vals, end);
      DeliveredStart(rem0, slots, vals);
      WrittenStart(rows[r], nodes, slots, vals, mem);
      while c < |nodes|
        invariant Walking(nodes, slots, c, it, n) && c <= |nodes| && n <= |slots|
        invariant cursors == Here(rows, nodes, r, c, it, vars, false)
        invariant pos <= |text| && Rest(schema, text, m, r, pos, n, vals, end)
        invariant |num| == |cur| == |loaded.rem| == |schema| && loaded.root == root0
        invariant loaded.rem == Delivered(rem0, slots, vals, n)
        invariant Tails(schema, text, m, num, cur, loaded.rem, r)
        invariant num[r] == old(num[r]) && loaded.rem[r] == rem0[r]
        invariant out == if vars then Written(rows[r], nodes, slots, vals, mem, n) else mem
        decreases |nodes| - NextPound(nodes, c), CountAt(nodes, NextPound(nodes, c)) - it, NextPound(nodes, c) - c
      {
        WalkingFacts(nodes, slots, c, it, n);
        if nodes[c].Pound? {
          c, it := Turn(r, c, vars, false, rows, slots, it, n);
        } else {
          StepLeaf(nodes, slots, c, it, n);
          LeafCursor(rows[r], nodes, slots, c, it, n, vars, false);
          RestStep(schema, text, m, r, pos, n, vals, end);
          DeliveredStep(rem0, slots, vals, n);
          WrittenStep(rows[r], nodes, slots, vals, mem, n);
          if nodes[c].Leaf? {
            LeafNode(schema, text, pos, nodes[c].field, m, r);
            var v;
            v, pos := ReadLeaf(nodes[c].field, pos, m);
            if vars {
              out := out[cursors[r][c].addr := v];
            }
          } else {
            AryIter(schema, r, n);
            var id := nodes[c].id;
            HereAtRest(rows, nodes, r, c, vars, false);
            pos := PointArray(r, id, pos);
          }
          c := c + 1;
          n := n + 1;
        }
      }
      AtEnd(nodes, slots, it, n);
      HereAtRest(rows, nodes, r, c, vars, false);
      RestDone(schema, text, m, r, pos, vals, end);
    }

    // The A(...) case: note how many elements there are and where they start,
    // and step over them.
    method PointArray(r: nat, id: nat, pos: nat) returns (end: nat)
      requires SchemaOk(schema) && AtRest(schema, cursors) && r < id < |schema| && pos <= |text|
      requires |num| == |cur| == |loaded.rem| == |schema| && Tails(schema, text, ReadMode(), num, cur, loaded.rem, r)
      requires var res := ScanNode(schema, text, pos, Ary(id), ReadMode(), r); res.Good? && !res.wide
      modifies this`cursors, this`num, this`cur, this`loaded
      ensures cursors == old(cursors)
      ensures |num| == |cur| == |loaded.rem| == |schema| && Tails(schema, text, ReadMode(), num, cur, loaded.rem, r)
      ensures forall k :: 0 <= k < |schema| && k != id ==> num[k] == old(num[k])
      ensures var res := ScanNode(schema, text, pos, Ary(id), ReadMode(), r);
        res.value.List? && end == res.end && loaded == old(loaded).(rem := old(loaded).rem[id := res.value.elems])
    {
      hide Tail, Tails, ScanNode, ReadWord32, SchemaOk, RowAtRest;
      var m := ReadMode();
      ArrayTail(schema, text, m, r, pos, id);
      LengthAtRest(schema, cursors, text, pos, m, id, r);
      CountsFit(schema, cursors);
      var len := SerLen(id, pos);
      ghost var es := ScanNode(schema, text, pos, Ary(id), m, r).value.elems;
      TailsSet(schema, text, m, num, cur, loaded.rem, r, id, ReadWord32(text[pos..pos + 4], m.big), Some(pos + 4), es);
      num := num[id := ReadWord32(text[pos..pos + 4], m.big)];
      cur := cur[id := Some(pos + 4)];
      loaded := loaded.(rem := loaded.rem[id := es]);
      end := pos + len.value;
    }

    // Read one leaf: the copies tpl_unpack makes, with no check against the
    // end of the image.
    method ReadLeaf(f: Field, pos: nat, m: Mode) returns (v: Val, end: nat)
      requires pos <= |text| && ScanField(text, pos, f, m).Good? && !m.v12
      ensures ScanField(text, pos, f, m) == Good(v, end, ScanField(text, pos, f, m).wide) && end <= |text|
    {
      match f
      case Scalar(size, num) =>
        var ws;
        ws, end := ReadWords(size, num, pos, m);
        v := Raw(ws);
      case Text(num) =>
        var ts;
        ts, end := ReadStrs(num, pos, m);
        v := Strs(ts);
      case Blob =>
        var slen := ReadWord32(text[pos..pos + 4], m.big);
        v := Buf(text[pos + 4..pos + 4 + slen]);
        end := pos + 4 + slen;
    }

    method ReadWords(size: nat, num: nat, pos: nat, m: Mode) returns (ws: seq<bytes>, end: nat)
      requires pos <= |text| && ScanWords(text, pos, size, num, m.swap).Good?
      ensures ScanWords(text, pos, size, num, m.swap).value == ws && ScanWords(text, pos, size, num, m.swap).end == end
    {
      ghost var all := ScanWords(text, pos, size, num, m.swap);
      ws, end := [], pos;
      var fidx := 0;
      while fidx < num
        invariant fidx <= num && end <= |text|
        invariant var rest := ScanWords(text, end, size, num - fidx, m.swap);
          rest.Good? && all.value == ws + rest.value && all.end == rest.end
      {
        var w := text[end..end + size];
        ws := ws + [HostWord(w, m.swap)];
        end := end + size;
        fidx := fidx + 1;
      }
    }

    method ReadStrs(num: nat, pos: nat, m: Mode) returns (ts: seq<Option<bytes>>, end: nat)
      requires pos <= |text| && ScanStrs(text, pos, num, m).Good? && !m.v12
      ensures ScanStrs(text, pos, num, m).value == ts && ScanStrs(text, pos, num, m).end == end
    {
      hide ReadWord32;
      ghost var all := ScanStrs(text, pos, num, m);
      ts, end := [], pos;
      var fidx := 0;
      while fidx < num
        invariant fidx <= num && end <= |text|
        invariant var rest := ScanStrs(text, end, num - fidx, m);
          rest.Good? && all.value == ts + rest.value && all.end == rest.end
      {
        var slen := ReadWord32(text[end..end + 4], m.big);
        end := end + 4;
        if slen != 0 {
          ts := ts + [Some(text[end..end + slen - 1])];
          end := end + slen - 1;
        } else {
          ts := ts + [None];
        }
        fidx := fidx + 1;
      }
    }

    // tpl_unpack: deliver the root's values, or the next element of array i.
    // A tpl that is being packed is dumped and loaded first.
    method Unpack(i: int, mem: Memory) returns (rc: int, out: Memory)
      requires Valid()
      requires flags.wronly ==> DumpOk()
      requires !flags.wronly ==> Readable()
      modifies this
      ensures Valid() && cursors == old(cursors) && Readable() && !flags.wronly
      ensures var ld := if old(flags.wronly) then PackedAsLoaded(schema, old(data), old(pending)) else old(loaded);
        && (!(0 <= i < |schema|) ==> rc == -1 && out == mem && loaded == ld)
        && (0 < i < |schema| && |ld.rem| == |schema| && ld.rem[i] == [] ==> rc == 0 && out == mem && loaded == ld)
        && (0 <= i < |schema| && |ld.rem| == |schema| && (i > 0 ==> ld.rem[i] != []) ==>
          && rc == (if i == 0 then 1 else |ld.rem[i]|)
          && Deliverable(schema, ld, i) && loaded == UnpackStep(schema, ld, i)
          && AtRow(schema, cursors, i)
          && out == Written(cursors[i], Nodes(schema[i]), RowSlots(schema, i), NextVals(ld, i), mem, |RowSlots(schema, i)|))
    {
      if flags.wronly {
        DumpAndLoad();
      }
      if !(0 <= i < |schema|) {
        return -1, mem;
      }
      if i == 0 {
        out := UnpackRoot(mem);
        return 1, out;
      }
      if num[i] <= 0 {
        return 0, mem;
      }
      rc := num[i];
      out := UnpackElem(i, mem);
    }

    method DumpAndLoad()
      requires Valid() && flags.wronly && DumpOk()
      modifies this
      ensures Valid() && cursors == old(cursors) && Readable() && !flags.wronly
      ensures loaded == PackedAsLoaded(schema, old(data), old(pending))
    {
      hide SchemaOk, FmtOk, RootReady, Shaped, Delivered, TreeOf, DataScan, Accepts, AllFit, BackboneOk, RowAtRest, ImageReadable;
      OwnImage(schema, fmt, fxlens, data, pending, hostBig, flags);
      TreeShaped(schema, data, pending);
      ValidIsSound();
      LensAreInts(schema, fmt, fxlens);
      AcceptsAtRest(schema, fmt, fxlens, Image(fmt, fxlens, TreeNow(), hostBig), cursors,
                    LoadMode(flags, Image(fmt, fxlens, TreeNow(), hostBig), hostBig), false);
      var drc, buf := Dump();
      var lrc := Load(buf[..], false);
    }

    method UnpackRoot(mem: Memory) returns (out: Memory)
      requires Valid() && Readable()
      modifies this`cursors, this`num, this`cur, this`loaded
      ensures Valid() && Readable() && cursors == old(cursors)
      ensures Deliverable(schema, old(loaded), 0) && loaded == UnpackStep(schema, old(loaded), 0) && AtRow(schema, cursors, 0)
      ensures out == Written(cursors[0], Nodes(schema[0]), RowSlots(schema, 0), old(loaded).root, mem, |RowSlots(schema, 0)|)
    {
      hide FmtOk, RowAtRest, ScanVals, Shaped, Delivered, Tail, At, Written, BackboneOk, ParentsOk;
      ghost var d := DataScan(schema, fmt, fxlens, text, ReadMode());
      RowAbove(schema, 0);
      RowShape(schema, text, HeaderSize(fmt, fxlens), ReadMode(), 0);
      RestStart(schema, text, ReadMode(), 0, HeaderSize(fmt, fxlens), d.value, d.end);
      var dv := FindDataStart();
      var pos;
      pos, out := UnpackRow(0, dv, true, mem, d.value, d.end);
    }

    method UnpackElem(i: nat, mem: Memory) returns (out: Memory)
      requires Valid() && Readable() && 0 < i < |schema| && num[i] > 0
      modifies this`cursors, this`num, this`cur, this`loaded
      ensures Valid() && Readable() && cursors == old(cursors)
      ensures |old(loaded).rem| == |schema| && |old(loaded).rem[i]| == old(num[i])
      ensures Deliverable(schema, old(loaded), i) && loaded == UnpackStep(schema, old(loaded), i) && AtRow(schema, cursors, i)
      ensures out == Written(cursors[i], Nodes(schema[i]), RowSlots(schema, i), old(loaded).rem[i][0].vals, mem, |RowSlots(schema, i)|)
    {
      hide FmtOk, RowAtRest, ScanVals, Shaped, Delivered, At, Written, BackboneOk, DataScan, ParentsOk;
      ghost var es := loaded.rem[i];
      assert Tail(schema, text, ReadMode(), i, num[i], cur[i], es);
      TailStep(schema, text, ReadMode(), i, num[i], cur[i], es);
      var dv := cur[i].value;
      ghost var res := ScanVals(schema, text, dv, RowSlots(schema, i), ReadMode(), i);
      RowShape(schema, text, dv, ReadMode(), i);
      RestStart(schema, text, ReadMode(), i, dv, res.value, res.end);
      num := num[i := num[i] - 1];
      loaded := loaded.(rem := loaded.rem[i := es[1..]]);
      var pos;
      pos, out := UnpackRow(i, dv, true, mem, res.value, res.end);
      cur := cur[i := Some(pos)];
    }

    // A '#' node: count the iteration; go back over the span with its pointers
    // advanced, or put everything back and go on.
    method PoundStep(r: nat, c: nat, da: bool, dd: bool, ghost base: seq<Cursor>, ghost it: nat) returns (next: nat)
      requires r < |schema| && r < |cursors|
      requires Flat(Nodes(schema[r])) && c < |Nodes(schema[r])| && Nodes(schema[r])[c].Pound?
      requires PoundOk(Nodes(schema[r]), c)
      requires |base| == |Nodes(schema[r])| && base[c].iternum == 0 && it < Nodes(schema[r])[c].count
      requires cursors[r] == Moved(base, Nodes(schema[r]), c, it, da, dd)
      modifies this`cursors
      ensures it + 1 < Nodes(schema[r])[c].count ==>
        next == c - Nodes(schema[r])[c].span
        && cursors == old(cursors)[r := Moved(base, Nodes(schema[r]), c, it + 1, da, dd)]
      ensures it + 1 == Nodes(schema[r])[c].count ==> next == c + 1 && cursors == old(cursors)[r := base]
    {
      hide Moved, Shifted, Nodes;
      var nodes := Nodes(schema[r]);
      var count, first := nodes[c].count, c - nodes[c].span;
      MovedAt(base, nodes, c, it, da, dd);
      var iternum := cursors[r][c].iternum + 1;
      if iternum < count {
        cursors := cursors[r := cursors[r][c := cursors[r][c].(iternum := iternum)]];
        MovedAdvance(base, nodes, c, it, da, dd);
        ShiftSpan(r, first, c, By(da, nodes[c].stride), By(dd, 1));
        next := first;
      } else {
        cursors := cursors[r := cursors[r][c := cursors[r][c].(iternum := 0)]];
        MovedRewind(base, nodes, c, it, da, dd);
        ShiftSpan(r, first, c, By(da, -((count - 1) * nodes[c].stride)), By(dd, -(count - 1)));
        next := c + 1;
      }
    }

    // The loop over the nodes of a structure that moves their pointers.
    method ShiftSpan(r: nat, first: nat, end: nat, byAddr: int, byRec: int)
      requires r < |cursors| && first <= end <= |cursors[r]|
      requires forall j :: first <= j < end ==> 0 <= cursors[r][j].rec + byRec
      modifies this`cursors
      ensures cursors == old(cursors)[r := Shifted(old(cursors)[r], first, end, byAddr, byRec)]
    {
      var np := first;
      assert cursors[r] == Shifted(cursors[r], first, first, byAddr, byRec);
      while np < end
        invariant first <= np <= end
        invariant cursors == old(cursors)[r := Shifted(old(cursors)[r], first, np, byAddr, byRec)]
      {
        var cur := cursors[r][np];
        cursors := cursors[r := cursors[r][np := Cursor(cur.addr + byAddr, cur.rec + byRec, cur.iternum)]];
        np := np + 1;
        assert cursors[r] == Shifted(old(cursors)[r], first, np, byAddr, byRec);
      }
    }
  }
}
