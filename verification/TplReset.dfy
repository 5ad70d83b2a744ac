// tpl_free_keep_map: which arrays and buffers its walk through the tree has
// emptied when it stands at a node, and what a packed root keeps.
module TplReset {
  import opened Bytes
  import opened TplSchema
  import opened TplWire
  import opened TplState

  // The node a row hangs on: c->parent of the row's nodes.
  datatype Place = Place(row: nat, pos: nat)

  // Every row but the root's hangs on exactly one array node, of a row before it.
  ghost predicate ParentsOk(s: Schema, parents: seq<Place>) {
    && |parents| == |s|
    && (forall r :: 0 < r < |s| ==>
          && parents[r].row < r && parents[r].pos < |Nodes(s[parents[r].row])|
          && Nodes(s[parents[r].row])[parents[r].pos] == Ary(r))
    && (forall r, p :: 0 <= r < |s| && 0 <= p < |Nodes(s[r])| && Nodes(s[r])[p].Ary? ==>
          && r < Nodes(s[r])[p].id < |s| && parents[Nodes(s[r])[p].id] == Place(r, p))
  }

  // The arrays in front of node c of row r, with everything inside them.
  ghost function Inside(s: Schema, r: nat, c: nat): set<nat>
    requires r < |s| && c <= |Nodes(s[r])|
    decreases |s| - r, c
  {
    if c == 0 then {}
    else
      Inside(s, r, c - 1) +
      match Nodes(s[r])[c - 1]
      case Leaf(_) => {}
      case Pound(_, _, _) => {}
      case Ary(id) => if r < id < |s| then {id} + Inside(s, id, |Nodes(s[id])|) else {}
  }

  // The arrays the walk has been at when it stands at node c of row r.
  ghost function Passed(s: Schema, parents: seq<Place>, r: nat, c: nat): set<nat>
    requires ParentsOk(s, parents) && r < |s| && c <= |Nodes(s[r])|
    decreases r
  {
    Inside(s, r, c) + if r == 0 then {} else {r} + Passed(s, parents, parents[r].row, parents[r].pos)
  }

  // How far the walk has come in the root's own list.
  ghost function RootAt(s: Schema, parents: seq<Place>, r: nat, c: nat): nat
    requires ParentsOk(s, parents) && r < |s| && c <= |Nodes(s[r])|
    ensures RootAt(s, parents, r, c) <= |Nodes(s[0])|
    decreases r
  {
    if r == 0 then c else RootAt(s, parents, parents[r].row, parents[r].pos + 1)
  }

  // Nodes still to be visited from node c of row r to its end, and in all.
  ghost function NodesLeft(s: Schema, r: nat, c: nat): nat
    requires r < |s| && c <= |Nodes(s[r])|
    decreases |s| - r, |Nodes(s[r])| - c
  {
    if c == |Nodes(s[r])| then 0
    else
      1 + NodesLeft(s, r, c + 1) +
      match Nodes(s[r])[c]
      case Leaf(_) => 0
      case Pound(_, _, _) => 0
      case Ary(id) => if r < id < |s| then NodesLeft(s, id, 0) else 0
  }

  ghost function StepsLeft(s: Schema, parents: seq<Place>, r: nat, c: nat): nat
    requires ParentsOk(s, parents) && r < |s| && c <= |Nodes(s[r])|
    decreases r
  {
    NodesLeft(s, r, c) + if r == 0 then 0 else StepsLeft(s, parents, parents[r].row, parents[r].pos + 1)
  }

  lemma StepOn(s: Schema, parents: seq<Place>, r: nat, c: nat)
    requires ParentsOk(s, parents) && r < |s| && c < |Nodes(s[r])| && !Nodes(s[r])[c].Ary?
    ensures Passed(s, parents, r, c + 1) == Passed(s, parents, r, c)
    ensures RootAt(s, parents, r, c + 1) == RootAt(s, parents, r, c) + if r == 0 then 1 else 0
    ensures StepsLeft(s, parents, r, c) == 1 + StepsLeft(s, parents, r, c + 1)
  {
    hide Nodes;
  }

  lemma StepIn(s: Schema, parents: seq<Place>, r: nat, c: nat)
    requires ParentsOk(s, parents) && r < |s| && c < |Nodes(s[r])| && Nodes(s[r])[c].Ary?
    ensures var id := Nodes(s[r])[c].id;
      && r < id < |s| && parents[id] == Place(r, c)
      && Passed(s, parents, id, 0) == Passed(s, parents, r, c) + {id}
      && RootAt(s, parents, id, 0) == RootAt(s, parents, r, c + 1)
      && StepsLeft(s, parents, r, c) == 1 + StepsLeft(s, parents, id, 0)
  {
    hide Nodes, StepsLeft, Inside, Passed, RootAt;
    StepInPassed(s, parents, r, c);
    StepInAhead(s, parents, r, c);
  }

  lemma StepInPassed(s: Schema, parents: seq<Place>, r: nat, c: nat)
    requires ParentsOk(s, parents) && r < |s| && c < |Nodes(s[r])| && Nodes(s[r])[c].Ary?
    ensures var id := Nodes(s[r])[c].id;
      && r < id < |s| && Passed(s, parents, id, 0) == Passed(s, parents, r, c) + {id}
      && RootAt(s, parents, id, 0) == RootAt(s, parents, r, c + 1)
  {
    hide Nodes;
  }

  lemma StepInAhead(s: Schema, parents: seq<Place>, r: nat, c: nat)
    requires ParentsOk(s, parents) && r < |s| && c < |Nodes(s[r])| && Nodes(s[r])[c].Ary?
    ensures var id := Nodes(s[r])[c].id;
      r < id < |s| && StepsLeft(s, parents, r, c) == 1 + StepsLeft(s, parents, id, 0)
  {
    hide Nodes;
    var id := Nodes(s[r])[c].id;
    assert NodesLeft(s, r, c) == 1 + NodesLeft(s, r, c + 1) + NodesLeft(s, id, 0);
  }

  lemma StepOut(s: Schema, parents: seq<Place>, r: nat)
    requires ParentsOk(s, parents) && 0 < r < |s|
    ensures |parents| == |s|
    ensures var p := parents[r]; var end := |Nodes(s[r])|;
      && p.row < r && p.pos < |Nodes(s[p.row])|
      && Passed(s, parents, r, end) == Passed(s, parents, p.row, p.pos + 1)
      && RootAt(s, parents, r, end) == RootAt(s, parents, p.row, p.pos + 1)
      && StepsLeft(s, parents, r, end) == StepsLeft(s, parents, p.row, p.pos + 1)
  {
    hide Nodes;
    var p := parents[r];
    assert Nodes(s[p.row])[p.pos] == Ary(r);
    assert Inside(s, p.row, p.pos + 1) == Inside(s, p.row, p.pos) + ({r} + Inside(s, r, |Nodes(s[r])|));
  }

  // Back at the root the walk has been at every array.
  lemma PassedAll(s: Schema, parents: seq<Place>)
    requires ParentsOk(s, parents) && 0 < |s|
    ensures forall r :: 0 < r < |s| ==> r in Passed(s, parents, 0, |Nodes(s[0])|)
  {
    hide Nodes;
    forall r | 0 < r < |s| ensures r in Inside(s, 0, |Nodes(s[0])|) {
      InsideRoot(s, parents, r);
    }
  }

  lemma {:induction false} InsideRoot(s: Schema, parents: seq<Place>, r: nat)
    requires ParentsOk(s, parents) && 0 < r < |s|
    ensures r in Inside(s, 0, |Nodes(s[0])|)
    decreases r
  {
    hide Nodes, Inside;
    var p := parents[r];
    if p.row == 0 {
      NamedInside(s, 0, |Nodes(s[0])|, p.pos, r);
    } else {
      InsideRoot(s, parents, p.row);
      Closed(s, parents, 0, |Nodes(s[0])|, p.row, p.pos, r);
    }
  }

  lemma {:induction false} NamedInside(s: Schema, r: nat, c: nat, p: nat, id: nat)
    requires r < |s| && p < c <= |Nodes(s[r])| && Nodes(s[r])[p] == Ary(id) && r < id < |s|
    ensures id in Inside(s, r, c) && Inside(s, id, |Nodes(s[id])|) <= Inside(s, r, c)
    decreases c
  {
    hide Nodes;
    if p < c - 1 {
      NamedInside(s, r, c - 1, p, id);
    }
  }

  lemma {:induction false} Closed(s: Schema, parents: seq<Place>, r: nat, c: nat, q: nat, p: nat, id: nat)
    requires ParentsOk(s, parents) && r < |s| && c <= |Nodes(s[r])| && q in Inside(s, r, c)
    requires q < |s| && p < |Nodes(s[q])| && Nodes(s[q])[p] == Ary(id) && q < id < |s|
    ensures id in Inside(s, r, c)
    decreases |s| - r, c
  {
    hide Nodes;
    if c > 0 {
      if q in Inside(s, r, c - 1) {
        Closed(s, parents, r, c - 1, q, p, id);
      } else {
        var x := Nodes(s[r])[c - 1].id;
        if q == x {
          NamedInside(s, x, |Nodes(s[x])|, p, id);
        } else {
          Closed(s, parents, x, |Nodes(s[x])|, q, p, id);
        }
      }
    }
  }

  // ----- the root's buffers -----

  // The buffers after the nodes in front of node n have been emptied: of each
  // string or binary node only the record its data pointer stands at.
  function FreedUpTo(nodes: seq<Node>, n: nat, data: map<(nat, nat), Val>): map<(nat, nat), Val>
    requires n <= |nodes|
  {
    map k | k in data && !(k.1 == 0 && k.0 < n && nodes[k.0] == Leaf(Blob)) ::
      if k.1 == 0 && k.0 < n && nodes[k.0].Leaf? && nodes[k.0].field.Text? then Nulls(nodes[k.0].field.num) else data[k]
  }

  function Nulls(num: nat): Val {
    Strs(seq(num, _ => None))
  }

  function Freed(s: Schema, data: map<(nat, nat), Val>): map<(nat, nat), Val>
    requires 0 < |s|
  {
    FreedUpTo(Nodes(s[0]), |Nodes(s[0])|, data)
  }

  lemma FreedStart(nodes: seq<Node>, data: map<(nat, nat), Val>)
    ensures FreedUpTo(nodes, 0, data) == data
  {
  }

  // One more node of the root's list.
  lemma FreedStep(nodes: seq<Node>, n: nat, data: map<(nat, nat), Val>)
    requires n < |nodes|
    ensures var now := FreedUpTo(nodes, n, data); var next := FreedUpTo(nodes, n + 1, data);
      && (nodes[n] == Leaf(Blob) ==> next == now - {(n, 0)})
      && (nodes[n].Leaf? && nodes[n].field.Text? && (n, 0) in now ==> next == now[(n, 0) := Nulls(nodes[n].field.num)])
      && (nodes[n].Leaf? && nodes[n].field.Text? && (n, 0) !in now ==> next == now)
      && (!nodes[n].Leaf? || nodes[n].field.Scalar? ==> next == now)
  {
    var now, next := FreedUpTo(nodes, n, data), FreedUpTo(nodes, n + 1, data);
    assert forall k :: k in next <==> k in now && !(k == (n, 0) && nodes[n] == Leaf(Blob));
  }

  // ----- what a packed root keeps -----

  // Of a string in front of the first record's end nothing is kept; every
  // number, and the strings of later records of a structure, stay.
  function Kept(t: Slot, v: Val): Val {
    if t.node.Leaf? && t.node.field.Text? && t.iter == 0 then Nulls(t.node.field.num) else v
  }

  ghost predicate NoBlob(slots: seq<Slot>) {
    forall k :: 0 <= k < |slots| ==> slots[k].node != Leaf(Blob)
  }

  lemma BlobIter(s: Schema, k: nat)
    requires SchemaOk(s) && 0 < |s| && k < |RowSlots(s, 0)|
    ensures var t := RowSlots(s, 0)[k];
      t.pos < |Nodes(s[0])| && t.node == Nodes(s[0])[t.pos] && (t.node == Leaf(Blob) ==> t.iter == 0)
  {
    hide Slots, Nodes;
    WalkStart(s, 0);
    BlobOnce(s[0], 0, k);
  }

  lemma {:induction false} BlobOnce(row: Row, base: nat, k: nat)
    requires RowOk(row) && k < |Slots(row, base)|
    ensures Slots(row, base)[k].node == Leaf(Blob) ==> Slots(row, base)[k].iter == 0
    decreases |row|
  {
    hide Slots, Nodes, NodesOf, ItemSlots;
    SlotsUnfold(row, base);
    if row != [] {
      var here := ItemSlots(row[0], base);
      if k < |here| {
        ItemBlob(row[0], base, k);
      } else {
        BlobOnce(row[1..], base + |NodesOf(row[0])|, k - |here|);
      }
    }
  }

  lemma ItemBlob(item: Item, base: nat, k: nat)
    requires ItemOk(item) && k < |ItemSlots(item, base)|
    ensures ItemSlots(item, base)[k].node == Leaf(Blob) ==> ItemSlots(item, base)[k].iter == 0
  {
    if item.Struct? {
      PassesBlob(item.fields, base, 0, item.count, k);
    }
  }

  lemma {:induction false} PassesBlob(fs: seq<Field>, base: nat, i: nat, count: nat, k: nat)
    requires (forall f :: f in fs ==> f != Blob) && k < |Passes(fs, base, i, count)|
    ensures Passes(fs, base, i, count)[k].node != Leaf(Blob)
    decreases count - i
  {
    if i < count {
      if k >= |fs| {
        PassesBlob(fs, base, i + 1, count, k - |fs|);
      } else {
        assert Passes(fs, base, i, count)[k].node == Leaf(fs[k]) && fs[k] in fs;
      }
    }
  }

  lemma FreedCell(s: Schema, data: map<(nat, nat), Val>, k: nat)
    requires SchemaOk(s) && 0 < |s| && k < |RowSlots(s, 0)| && RowSlots(s, 0)[k].node.Leaf?
    ensures var t := RowSlots(s, 0)[k];
      && (Key(t) in Freed(s, data) <==> Key(t) in data && t.node != Leaf(Blob))
      && (Key(t) in Freed(s, data) ==> Freed(s, data)[Key(t)] == Kept(t, data[Key(t)]))
  {
    hide Slots, Nodes;
    BlobIter(s, k);
  }

  // After tpl_free_keep_map the root still counts as packed if and only if it
  // was and maps no buffer; then it holds what is kept of its values.
  lemma RootAfterFree(s: Schema, data: map<(nat, nat), Val>)
    requires SchemaOk(s) && 0 < |s| && RootReady(s, data)
    ensures RootReady(s, Freed(s, data)) <==> NoBlob(RowSlots(s, 0))
    ensures NoBlob(RowSlots(s, 0)) ==>
      forall k :: 0 <= k < |RowSlots(s, 0)| ==> RootVals(s, Freed(s, data))[k] == Kept(RowSlots(s, 0)[k], RootVals(s, data)[k])
  {
    hide Slots, Freed, Kept;
    var slots, d := RowSlots(s, 0), Freed(s, data);
    forall k | 0 <= k < |slots| ensures CellOk(slots[k], d) <==> slots[k].node != Leaf(Blob) {
      assert CellOk(slots[k], data);
      if slots[k].node.Leaf? {
        FreedCell(s, data, k);
        KeptTyped(slots[k], data[Key(slots[k])]);
      }
    }
    if NoBlob(slots) {
      assert RootReady(s, d);
      forall k | 0 <= k < |slots| ensures RootVals(s, d)[k] == Kept(slots[k], RootVals(s, data)[k]) {
        assert CellOk(slots[k], data);
        if slots[k].node.Leaf? {
          FreedCell(s, data, k);
        } else {
          KeptArray(slots[k]);
        }
      }
    } else {
      var k :| 0 <= k < |slots| && slots[k].node == Leaf(Blob);
      assert !CellOk(slots[k], d);
    }
  }

  lemma KeptTyped(t: Slot, v: Val)
    requires t.node.Leaf? && FieldTyped(t.node.field, v)
    ensures FieldTyped(t.node.field, Kept(t, v))
  {
  }

  lemma KeptArray(t: Slot)
    requires !t.node.Leaf?
    ensures forall v :: Kept(t, v) == v
  {
  }

  ghost function Emptied(s: Schema, data: map<(nat, nat), Val>): Packed
    requires SchemaOk(s) && 0 < |s|
  {
    var d := Freed(s, data);
    Packed(if RootReady(s, d) then Some(RootVals(s, d)) else None, seq(|s|, _ => []))
  }

  lemma NothingPassed(s: Schema, parents: seq<Place>)
    requires ParentsOk(s, parents) && 0 < |s|
    ensures Passed(s, parents, 0, 0) == {} && RootAt(s, parents, 0, 0) == 0
  {
  }

  // An array of the root's list has no buffer of its own.
  lemma NoData(s: Schema, parents: seq<Place>, r: nat, c: nat, data: map<(nat, nat), Val>)
    requires ParentsOk(s, parents) && r < |s| && c < |Nodes(s[r])| && Nodes(s[r])[c].Ary?
    ensures FreedUpTo(Nodes(s[0]), RootAt(s, parents, r, c + 1), data) == FreedUpTo(Nodes(s[0]), RootAt(s, parents, r, c), data)
  {
    hide Nodes, FreedUpTo;
    if r == 0 {
      FreedStep(Nodes(s[0]), c, data);
    }
  }

  lemma RowNotEmpty(s: Schema, r: nat)
    requires SchemaOk(s) && r < |s|
    ensures Nodes(s[r]) != []
  {
    SlotsUnfold(s[r], 0);
  }

  lemma NothingPending(s: Schema, pending: seq<seq<Elem>>, osz: seq<nat>)
    requires |pending| == |osz| == |s| && forall r :: 0 <= r < |s| ==> pending[r] == []
    requires forall r :: 0 < r < |s| ==> osz[r] == 0
    ensures BackbonesOk(s, pending) && SizesOk(pending, osz)
  {
  }

  lemma RootAtRoot(s: Schema, parents: seq<Place>, c: nat)
    requires ParentsOk(s, parents) && 0 < |s| && c <= |Nodes(s[0])|
    ensures RootAt(s, parents, 0, c) == c
  {
  }

  lemma ParentsLength(s: Schema, parents: seq<Place>)
    requires ParentsOk(s, parents)
    ensures |parents| == |s|
  {
  }
}
