// The '#' counters tpl_serlen works with, which a rejected image can leave
// behind: what a length walk does from any counters, and when it leaves none.
module TplCounters {
  import opened Bytes
  import opened TplSchema
  import opened TplWire
  import opened TplImage
  import opened TplState

  // The counter of every node of every row; only those of '#' nodes ever move.
  type Counters = seq<seq<nat>>

  ghost predicate Shape(s: Schema, k: Counters) {
    |k| == |s| && forall r :: 0 <= r < |s| ==> |k[r]| == |Nodes(s[r])|
  }

  ghost predicate AllZero(k: Counters) {
    forall r :: 0 <= r < |k| ==> RowZero(k[r])
  }

  ghost predicate RowZero(row: seq<nat>) {
    forall p :: 0 <= p < |row| ==> row[p] == 0
  }

  function CountsOf(row: seq<Cursor>): (k: seq<nat>)
    ensures |k| == |row|
  {
    seq(|row|, p requires 0 <= p < |row| => row[p].iternum)
  }

  function Counts(rows: seq<seq<Cursor>>): (k: Counters)
    ensures |k| == |rows|
  {
    seq(|rows|, r requires 0 <= r < |rows| => CountsOf(rows[r]))
  }

  // The same cursors with other counters.
  function CountedRow(row: seq<Cursor>, k: seq<nat>): (r: seq<Cursor>)
    requires |k| == |row|
    ensures |r| == |row|
  {
    seq(|row|, p requires 0 <= p < |row| => row[p].(iternum := k[p]))
  }

  ghost predicate CountsMatch(rows: seq<seq<Cursor>>, k: Counters) {
    |k| == |rows| && forall r :: 0 <= r < |rows| ==> |k[r]| == |rows[r]|
  }

  function Counted(rows: seq<seq<Cursor>>, k: Counters): (r: seq<seq<Cursor>>)
    requires CountsMatch(rows, k)
    ensures |r| == |rows|
  {
    seq(|rows|, r requires 0 <= r < |rows| => CountedRow(rows[r], k[r]))
  }

  // Counters as calls can leave them: '#' nodes inside their loops, all data
  // pointers at the first record.
  ghost predicate RowInRange(nodes: seq<Node>, row: seq<Cursor>) {
    && Flat(nodes) && |row| == |nodes|
    && forall p :: 0 <= p < |row| ==>
        row[p].rec == 0 && if nodes[p].Pound? then row[p].iternum < nodes[p].count else row[p].iternum == 0
  }

  ghost predicate InRange(s: Schema, rows: seq<seq<Cursor>>) {
    |rows| == |s| && forall r :: 0 <= r < |s| ==> RowInRange(Nodes(s[r]), rows[r])
  }

  // ----- the walk from any counters -----

  ghost predicate InLoop(nodes: seq<Node>, c: nat)
    requires c <= |nodes|
  {
    var p := NextPound(nodes, c);
    c < p < |nodes| && p - nodes[p].span <= c
  }

  // The counter the walk meets next, or 0 behind the last '#'.
  ghost function NextCount(nodes: seq<Node>, k: seq<nat>, c: nat): nat
    requires c <= |nodes| == |k|
  {
    var p := NextPound(nodes, c);
    if p < |nodes| then k[p] else 0
  }

  // What a walk that stands at node c visits when the next '#' counter has
  // come to `it` and those behind it are still as in k.
  ghost function LateWalk(nodes: seq<Node>, k: seq<nat>, c: nat, it: nat): seq<Slot>
    requires Flat(nodes) && c <= |nodes| == |k|
    decreases |nodes| - NextPound(nodes, c), if it < CountAt(nodes, NextPound(nodes, c)) then CountAt(nodes, NextPound(nodes, c)) - it else 0, NextPound(nodes, c) - c
  {
    if c == |nodes| then []
    else if nodes[c].Pound? then
      if it + 1 < nodes[c].count then
        assert PoundOk(nodes, c);
        NextPoundBack(nodes, c);
        LateWalk(nodes, k, c - nodes[c].span, it + 1)
      else
        LateWalk(nodes, k, c + 1, NextCount(nodes, k, c + 1))
    else
      [Slot(nodes[c], c, if InLoop(nodes, c) then it else 0)] + LateWalk(nodes, k, c + 1, it)
  }

  ghost function LateSlots(nodes: seq<Node>, k: seq<nat>): seq<Slot>
    requires Flat(nodes) && |k| == |nodes|
  {
    LateWalk(nodes, k, 0, NextCount(nodes, k, 0))
  }

  lemma LateLeaf(nodes: seq<Node>, k: seq<nat>, c: nat, it: nat)
    requires Flat(nodes) && c < |nodes| == |k| && !nodes[c].Pound?
    ensures NextPound(nodes, c + 1) == NextPound(nodes, c)
    ensures LateWalk(nodes, k, c, it) == [Slot(nodes[c], c, if InLoop(nodes, c) then it else 0)] + LateWalk(nodes, k, c + 1, it)
  {
  }

  lemma LateTurn(nodes: seq<Node>, k: seq<nat>, c: nat, it: nat)
    requires Flat(nodes) && c < |nodes| == |k| && nodes[c].Pound?
    ensures PoundOk(nodes, c)
    ensures it + 1 < nodes[c].count ==>
      && NextPound(nodes, c - nodes[c].span) == c
      && LateWalk(nodes, k, c, it) == LateWalk(nodes, k, c - nodes[c].span, it + 1)
    ensures it + 1 >= nodes[c].count ==>
      NextPound(nodes, c + 1) > c && LateWalk(nodes, k, c, it) == LateWalk(nodes, k, c + 1, NextCount(nodes, k, c + 1))
  {
    assert PoundOk(nodes, c);
    NextPoundBack(nodes, c);
  }

  // From counters at zero it is the ordinary walk.
  lemma {:induction false} LateFromZero(nodes: seq<Node>, k: seq<nat>, c: nat, it: nat)
    requires Flat(nodes) && c <= |nodes| == |k| && RowZero(k) && it < CountAt(nodes, NextPound(nodes, c))
    requires it > 0 ==> var p := NextPound(nodes, c); p < |nodes| && p - nodes[p].span <= c
    ensures LateWalk(nodes, k, c, it) == Walk(nodes, c, it)
    decreases |nodes| - NextPound(nodes, c), CountAt(nodes, NextPound(nodes, c)) - it, NextPound(nodes, c) - c
  {
    hide LateWalk, Walk;
    if c == |nodes| {
      WalkDone(nodes);
      LateDone(nodes, k, it);
    } else if nodes[c].Pound? {
      LateTurn(nodes, k, c, it);
      if it + 1 < nodes[c].count {
        WalkBack(nodes, c, it);
        LateFromZero(nodes, k, c - nodes[c].span, it + 1);
      } else {
        WalkPast(nodes, c, it);
        LateFromZero(nodes, k, c + 1, 0);
      }
    } else {
      WalkLeaf(nodes, c, it);
      LateLeaf(nodes, k, c, it);
      LateFromZero(nodes, k, c + 1, it);
    }
  }

  lemma LateDone(nodes: seq<Node>, k: seq<nat>, it: nat)
    requires Flat(nodes) && |k| == |nodes|
    ensures LateWalk(nodes, k, |nodes|, it) == []
  {
  }

  lemma LateSlotsFromZero(s: Schema, r: nat, k: seq<nat>)
    requires SchemaOk(s) && r < |s| && |k| == |Nodes(s[r])| && RowZero(k)
    ensures Flat(Nodes(s[r])) && LateSlots(Nodes(s[r]), k) == RowSlots(s, r)
  {
    hide Nodes, Slots, Walk, LateWalk;
    WalkVisitsSlots(s[r]);
    LateFromZero(Nodes(s[r]), k, 0, 0);
  }

  // ----- where the walk is stopped -----

  // The counters of a row when the walk stands at slot t: loops passed are
  // back at 0, the one at hand shows its iteration, the rest is untouched.
  ghost function StoppedAt(nodes: seq<Node>, k: seq<nat>, t: Slot): (r: seq<nat>)
    requires |k| == |nodes|
    ensures |r| == |k|
  {
    if t.pos > |nodes| then k
    else
      var p := NextPound(nodes, t.pos);
      seq(|k|, j requires 0 <= j < |k| =>
        if j < t.pos then 0 else if j == p && InLoop(nodes, t.pos) then t.iter else k[j])
  }

  function Zeros(n: nat): (r: seq<nat>)
    ensures |r| == n
  {
    seq(n, _ => 0)
  }

  // What a length walk leaves: the counters, and where the data end.
  datatype Trip = Trip(counters: Counters, end: Option<nat>)

  ghost function RowTrip(s: Schema, text: bytes, pos: nat, slots: seq<Slot>, k: Counters, m: Mode, r: nat): (t: Trip)
    requires SchemaOk(s) && r < |s| && Above(s, slots, r) && pos <= |text| && Shape(s, k)
    ensures Shape(s, t.counters) && (t.end.Some? ==> pos <= t.end.value <= |text|)
    ensures forall q :: 0 <= q < r ==> t.counters[q] == k[q]
    decreases |s| - r, 0, |slots|
  {
    if slots == [] then Trip(k[r := Zeros(|k[r]|)], Some(pos))
    else
      match slots[0].node
      case Leaf(f) =>
        (match EndOf(ScanField(text, pos, f, m))
         case None => Trip(k[r := StoppedAt(Nodes(s[r]), k[r], slots[0])], None)
         case Some(end) => RowTrip(s, text, end, slots[1..], k, m, r))
      case Pound(_, _, _) => Trip(k, None)
      case Ary(id) =>
        assert slots[0] in slots;
        var a := ArrayTrip(s, text, pos, id, k, m);
        match a.end
        case None => Trip(a.counters[r := StoppedAt(Nodes(s[r]), k[r], slots[0])], None)
        case Some(end) => RowTrip(s, text, end, slots[1..], a.counters, m, r)
  }

  ghost function ArrayTrip(s: Schema, text: bytes, pos: nat, id: nat, k: Counters, m: Mode): (t: Trip)
    requires SchemaOk(s) && id < |s| && pos <= |text| && Shape(s, k)
    ensures Shape(s, t.counters) && (t.end.Some? ==> pos <= t.end.value <= |text|)
    ensures forall q :: 0 <= q < id ==> t.counters[q] == k[q]
    decreases |s| - id, 2, 0
  {
    if pos + 4 > |text| then Trip(k, None)
    else
      var n := ReadWord32(text[pos..pos + 4], m.big);
      ElemsTrip(s, text, pos + 4, id, if n < TWO_TO_THE_31 then n else 0, k, m)
  }

  ghost function ElemsTrip(s: Schema, text: bytes, pos: nat, id: nat, n: nat, k: Counters, m: Mode): (t: Trip)
    requires SchemaOk(s) && id < |s| && pos <= |text| && Shape(s, k)
    ensures Shape(s, t.counters) && (t.end.Some? ==> pos <= t.end.value <= |text|)
    ensures forall q :: 0 <= q < id ==> t.counters[q] == k[q]
    decreases |s| - id, 1, n
  {
    if n == 0 then Trip(k, Some(pos))
    else
      LateAbove(s, id, k[id]);
      var one := RowTrip(s, text, pos, LateSlots(Nodes(s[id]), k[id]), k, m, id);
      match one.end
      case None => one
      case Some(end) => ElemsTrip(s, text, end, id, n - 1, one.counters, m)
  }

  // A walk from any counters names only arrays of its row.
  lemma LateAbove(s: Schema, r: nat, k: seq<nat>)
    requires SchemaOk(s) && r < |s| && |k| == |Nodes(s[r])|
    ensures Flat(Nodes(s[r])) && Above(s, LateSlots(Nodes(s[r]), k), r)
  {
    hide Nodes, Slots, LateWalk;
    FlatNodes(s[r]);
    LateIn(Nodes(s[r]), k, 0, NextCount(Nodes(s[r]), k, 0));
    var slots := LateSlots(Nodes(s[r]), k);
    forall t | t in slots && t.node.Ary? ensures r < t.node.id < |s| {
      var j :| 0 <= j < |slots| && slots[j] == t;
      AryOfRow(s[r], t.pos);
      var i :| 0 <= i < |s[r]| && s[r][i] == Array(t.node.id);
    }
  }

  lemma {:induction false} LateIn(nodes: seq<Node>, k: seq<nat>, c: nat, it: nat)
    requires Flat(nodes) && c <= |nodes| == |k|
    ensures SlotsIn(nodes, LateWalk(nodes, k, c, it))
    ensures forall j :: 0 <= j < |LateWalk(nodes, k, c, it)| ==>
      var t := LateWalk(nodes, k, c, it)[j]; t.iter > 0 ==> t.pos <= |nodes| && InLoop(nodes, t.pos)
    decreases |nodes| - NextPound(nodes, c), if it < CountAt(nodes, NextPound(nodes, c)) then CountAt(nodes, NextPound(nodes, c)) - it else 0, NextPound(nodes, c) - c
  {
    hide LateWalk, NextPound;
    if c == |nodes| {
      LateDone(nodes, k, it);
    } else if nodes[c].Pound? {
      LateTurn(nodes, k, c, it);
      NextPoundHere(nodes, c);
      if it + 1 < nodes[c].count {
        LateIn(nodes, k, c - nodes[c].span, it + 1);
      } else {
        LateIn(nodes, k, c + 1, NextCount(nodes, k, c + 1));
      }
    } else {
      LateLeaf(nodes, k, c, it);
      LateIn(nodes, k, c + 1, it);
    }
  }

  lemma NextPoundHere(nodes: seq<Node>, c: nat)
    requires c < |nodes| && nodes[c].Pound?
    ensures NextPound(nodes, c) == c
  {
  }

  // A node that is an array is an item of the row.
  lemma {:induction false} AryOfRow(row: Row, p: nat)
    requires p < |Nodes(row)| && Nodes(row)[p].Ary?
    ensures Array(Nodes(row)[p].id) in row
    decreases |row|
  {
    hide Nodes;
    SlotsUnfold(row, 0);
    if row != [] {
      var here := |NodesOf(row[0])|;
      if p >= here {
        AryOfRow(row[1..], p - here);
      }
    }
  }

  // ----- from counters at zero -----

  lemma RowTripUnfold(s: Schema, text: bytes, pos: nat, slots: seq<Slot>, k: Counters, m: Mode, r: nat)
    requires SchemaOk(s) && r < |s| && Above(s, slots, r) && pos <= |text| && Shape(s, k)
    ensures slots == [] ==> RowTrip(s, text, pos, slots, k, m, r) == Trip(k[r := Zeros(|k[r]|)], Some(pos))
    ensures slots != [] && slots[0].node.Leaf? ==>
      && Above(s, slots[1..], r)
      && var end := EndOf(ScanField(text, pos, slots[0].node.field, m));
         RowTrip(s, text, pos, slots, k, m, r) ==
           if end.None? then Trip(k[r := StoppedAt(Nodes(s[r]), k[r], slots[0])], None)
           else RowTrip(s, text, end.value, slots[1..], k, m, r)
    ensures slots != [] && slots[0].node.Ary? ==>
      && Above(s, slots[1..], r) && r < slots[0].node.id < |s|
      && var a := ArrayTrip(s, text, pos, slots[0].node.id, k, m);
         RowTrip(s, text, pos, slots, k, m, r) ==
           if a.end.None? then Trip(a.counters[r := StoppedAt(Nodes(s[r]), k[r], slots[0])], None)
           else RowTrip(s, text, a.end.value, slots[1..], a.counters, m, r)
  {
    hide ArrayTrip, ScanField, StoppedAt, SchemaOk;
    if slots != [] {
      assert slots[0] in slots;
    }
  }

  lemma ElemsTripUnfold(s: Schema, text: bytes, pos: nat, id: nat, n: nat, k: Counters, m: Mode)
    requires SchemaOk(s) && id < |s| && pos <= |text| && Shape(s, k)
    ensures n == 0 ==> ElemsTrip(s, text, pos, id, n, k, m) == Trip(k, Some(pos))
    ensures Flat(Nodes(s[id])) && Above(s, LateSlots(Nodes(s[id]), k[id]), id)
    ensures n > 0 ==>
      var one := RowTrip(s, text, pos, LateSlots(Nodes(s[id]), k[id]), k, m, id);
      ElemsTrip(s, text, pos, id, n, k, m) == if one.end.None? then one else ElemsTrip(s, text, one.end.value, id, n - 1, one.counters, m)
  {
    hide RowTrip, LateWalk, SchemaOk, Nodes;
    LateAbove(s, id, k[id]);
  }

  lemma ArrayTripUnfold(s: Schema, text: bytes, pos: nat, id: nat, k: Counters, m: Mode)
    requires SchemaOk(s) && id < |s| && pos <= |text| && Shape(s, k)
    ensures pos + 4 > |text| ==> ArrayTrip(s, text, pos, id, k, m) == Trip(k, None)
    ensures pos + 4 <= |text| ==>
      var n := ReadWord32(text[pos..pos + 4], m.big);
      ArrayTrip(s, text, pos, id, k, m) == ElemsTrip(s, text, pos + 4, id, if n < TWO_TO_THE_31 then n else 0, k, m)
  {
    hide ElemsTrip, ReadWord32, SchemaOk;
  }

  // ----- rows above take no part -----

  function With(t: Trip, q: nat, x: seq<nat>): Trip
    requires q < |t.counters|
  {
    t.(counters := t.counters[q := x])
  }

  lemma {:induction false} RowApart(s: Schema, text: bytes, pos: nat, slots: seq<Slot>, k: Counters, m: Mode, r: nat, q: nat, x: seq<nat>)
    requires SchemaOk(s) && r < |s| && Above(s, slots, r) && pos <= |text| && Shape(s, k) && q < r && |x| == |k[q]|
    requires forall j :: 0 <= j < |slots| ==> !slots[j].node.Pound?
    ensures Shape(s, k[q := x]) && RowTrip(s, text, pos, slots, k[q := x], m, r) == With(RowTrip(s, text, pos, slots, k, m, r), q, x)
    decreases |s| - r, 0, |slots|
  {
    hide RowTrip, ArrayTrip, ScanField, SchemaOk, StoppedAt, Nodes;
    RowTripUnfold(s, text, pos, slots, k, m, r);
    RowTripUnfold(s, text, pos, slots, k[q := x], m, r);
    if slots == [] {
      assert k[q := x][r := Zeros(|k[r]|)] == k[r := Zeros(|k[r]|)][q := x];
    } else {
      var y := StoppedAt(Nodes(s[r]), k[r], slots[0]);
      if slots[0].node.Leaf? {
        var end := EndOf(ScanField(text, pos, slots[0].node.field, m));
        assert k[q := x][r := y] == k[r := y][q := x];
        if end.Some? {
          RowApart(s, text, end.value, slots[1..], k, m, r, q, x);
        }
      } else {
        ArrayApart(s, text, pos, slots[0].node.id, k, m, q, x);
        var a := ArrayTrip(s, text, pos, slots[0].node.id, k, m);
        assert a.counters[q := x][r := y] == a.counters[r := y][q := x];
        if a.end.Some? {
          RowApart(s, text, a.end.value, slots[1..], a.counters, m, r, q, x);
        }
      }
    }
  }

  // The trip through an array is the same whatever the counters above it.
  lemma {:induction false} ArrayApart(s: Schema, text: bytes, pos: nat, id: nat, k: Counters, m: Mode, q: nat, x: seq<nat>)
    requires SchemaOk(s) && q < id < |s| && pos <= |text| && Shape(s, k) && |x| == |k[q]|
    ensures Shape(s, k[q := x]) && ArrayTrip(s, text, pos, id, k[q := x], m) == With(ArrayTrip(s, text, pos, id, k, m), q, x)
    decreases |s| - id, 2, 0
  {
    hide ElemsTrip, ArrayTrip, ReadWord32, SchemaOk, Nodes;
    ArrayTripUnfold(s, text, pos, id, k, m);
    ArrayTripUnfold(s, text, pos, id, k[q := x], m);
    if pos + 4 <= |text| {
      var n := ReadWord32(text[pos..pos + 4], m.big);
      ElemsApart(s, text, pos + 4, id, if n < TWO_TO_THE_31 then n else 0, k, m, q, x);
    }
  }

  lemma {:induction false} ElemsApart(s: Schema, text: bytes, pos: nat, id: nat, n: nat, k: Counters, m: Mode, q: nat, x: seq<nat>)
    requires SchemaOk(s) && q < id < |s| && pos <= |text| && Shape(s, k) && |x| == |k[q]|
    ensures Shape(s, k[q := x]) && ElemsTrip(s, text, pos, id, n, k[q := x], m) == With(ElemsTrip(s, text, pos, id, n, k, m), q, x)
    decreases |s| - id, 1, n
  {
    hide RowTrip, ElemsTrip, SchemaOk, Nodes, LateWalk;
    ElemsTripUnfold(s, text, pos, id, n, k, m);
    ElemsTripUnfold(s, text, pos, id, n, k[q := x], m);
    if n > 0 {
      var slots := LateSlots(Nodes(s[id]), k[id]);
      LateIn(Nodes(s[id]), k[id], 0, NextCount(Nodes(s[id]), k[id], 0));
      RowApart(s, text, pos, slots, k, m, id, q, x);
      var one := RowTrip(s, text, pos, slots, k, m, id);
      if one.end.Some? {
        ElemsApart(s, text, one.end.value, id, n - 1, one.counters, m, q, x);
      }
    }
  }

  // From counters at zero a length walk finds what the scan finds, and leaves
  // them at zero when it gets through.
  lemma {:induction false} RowFromZero(s: Schema, text: bytes, pos: nat, slots: seq<Slot>, k: Counters, m: Mode, r: nat)
    requires SchemaOk(s) && r < |s| && Above(s, slots, r) && pos <= |text| && Shape(s, k) && AllZero(k)
    requires forall j :: 0 <= j < |slots| ==> !slots[j].node.Pound?
    ensures var t := RowTrip(s, text, pos, slots, k, m, r);
      t.end == EndOf(ScanVals(s, text, pos, slots, m, r)) && (t.end.Some? ==> t.counters == k)
    decreases |s| - r, 0, |slots|
  {
    hide RowTrip, ArrayTrip, ScanVals, ScanNode, ScanField, SchemaOk, StoppedAt, Nodes;
    RowTripUnfold(s, text, pos, slots, k, m, r);
    assert slots[0..] == slots;
    if slots == [] {
      ValsEndDone(s, text, pos, slots, m, r);
      ZeroRow(k, r);
      assert Zeros(|k[r]|) == k[r];
      assert k[r := Zeros(|k[r]|)] == k;
    } else {
      ValsEnd(s, text, pos, slots, 0, m, r);
      if slots[0].node.Leaf? {
        LeafNode(s, text, pos, slots[0].node.field, m, r);
        var end := EndOf(ScanField(text, pos, slots[0].node.field, m));
        if end.Some? {
          RowFromZero(s, text, end.value, slots[1..], k, m, r);
        }
      } else {
        var id := slots[0].node.id;
        ArrayFromZero(s, text, pos, id, k, m, r);
        var a := ArrayTrip(s, text, pos, id, k, m);
        if a.end.Some? {
          RowFromZero(s, text, a.end.value, slots[1..], k, m, r);
        }
      }
    }
  }

  lemma {:induction false} ArrayFromZero(s: Schema, text: bytes, pos: nat, id: nat, k: Counters, m: Mode, r: nat)
    requires SchemaOk(s) && r < id < |s| && pos <= |text| && Shape(s, k) && AllZero(k)
    ensures var t := ArrayTrip(s, text, pos, id, k, m);
      t.end == EndOf(ScanNode(s, text, pos, Ary(id), m, r)) && (t.end.Some? ==> t.counters == k)
    decreases |s| - id, 2, 0
  {
    hide ElemsTrip, ArrayTrip, ScanElems, ReadWord32, SchemaOk;
    ArrayTripUnfold(s, text, pos, id, k, m);
    if pos + 4 <= |text| {
      var n := ReadWord32(text[pos..pos + 4], m.big);
      ElemsFromZero(s, text, pos + 4, id, if n < TWO_TO_THE_31 then n else 0, k, m);
      ElemsEnd(s, text, pos + 4, id, 0, m);
    }
  }

  lemma {:induction false} ElemsFromZero(s: Schema, text: bytes, pos: nat, id: nat, n: nat, k: Counters, m: Mode)
    requires SchemaOk(s) && id < |s| && pos <= |text| && Shape(s, k) && AllZero(k)
    ensures var t := ElemsTrip(s, text, pos, id, n, k, m);
      t.end == EndOf(ScanElems(s, text, pos, id, n, m)) && (t.end.Some? ==> t.counters == k)
    decreases |s| - id, 1, n
  {
    hide RowTrip, ElemsTrip, ScanVals, ScanElems, SchemaOk, Nodes, Slots, LateWalk;
    ElemsTripUnfold(s, text, pos, id, n, k, m);
    ElemsEnd(s, text, pos, id, n, m);
    if n > 0 {
      LateSlotsFromZero(s, id, k[id]);
      NoPounds(s, id);
      RowFromZero(s, text, pos, RowSlots(s, id), k, m, id);
      var one := RowTrip(s, text, pos, RowSlots(s, id), k, m, id);
      if one.end.Some? {
        ElemsFromZero(s, text, one.end.value, id, n - 1, k, m);
      }
    }
  }

  lemma NoPounds(s: Schema, r: nat)
    requires SchemaOk(s) && r < |s|
    ensures forall j :: 0 <= j < |RowSlots(s, r)| ==> !RowSlots(s, r)[j].node.Pound?
  {
    hide Nodes, Slots;
    WalkStart(s, r);
  }

  // ----- the first field that does not fit -----

  // The slot at which the scan of a row gives up, in whichever row it is.
  ghost function RowMisfit(s: Schema, text: bytes, pos: nat, slots: seq<Slot>, m: Mode, r: nat): Option<Slot>
    requires SchemaOk(s) && r < |s| && Above(s, slots, r) && pos <= |text|
    decreases |s| - r, 0, |slots|
  {
    if slots == [] then None
    else
      assert slots[0] in slots;
      var end := EndOf(ScanNode(s, text, pos, slots[0].node, m, r));
      if end.Some? then RowMisfit(s, text, end.value, slots[1..], m, r)
      else if !slots[0].node.Ary? || pos + 4 > |text| then Some(slots[0])
      else ElemsMisfit(s, text, pos + 4, slots[0].node.id, ReadWord32(text[pos..pos + 4], m.big), m)
  }

  ghost function ElemsMisfit(s: Schema, text: bytes, pos: nat, id: nat, n: nat, m: Mode): Option<Slot>
    requires SchemaOk(s) && id < |s| && pos <= |text|
    decreases |s| - id, 1, n
  {
    if n == 0 then None
    else
      RowAbove(s, id);
      var end := EndOf(ScanVals(s, text, pos, RowSlots(s, id), m, id));
      if end.Some? then ElemsMisfit(s, text, end.value, id, n - 1, m)
      else RowMisfit(s, text, pos, RowSlots(s, id), m, id)
  }

  // The walk leaves a counter behind exactly when it gives up at a field past
  // the first iteration of its loop.
  ghost predicate LeavesNone(misfit: Option<Slot>) {
    misfit.Some? ==> misfit.value.iter == 0
  }

  ghost predicate LoopSlots(nodes: seq<Node>, slots: seq<Slot>) {
    && SlotsIn(nodes, slots)
    && forall j :: 0 <= j < |slots| ==> (slots[j].iter > 0 ==> InLoop(nodes, slots[j].pos))
  }


  lemma StopsAt(s: Schema, k: Counters, r: nat, t: Slot)
    requires r < |s| && Shape(s, k) && AllZero(k) && t.pos < |Nodes(s[r])|
    requires t.iter > 0 ==> InLoop(Nodes(s[r]), t.pos)
    ensures AllZero(k[r := StoppedAt(Nodes(s[r]), k[r], t)]) <==> t.iter == 0
  {
    hide Nodes, NextPound;
    var nodes := Nodes(s[r]);
    var k' := k[r := StoppedAt(nodes, k[r], t)];
    assert RowZero(k[r]);
    if t.iter > 0 {
      assert k'[r][NextPound(nodes, t.pos)] == t.iter;
      assert !RowZero(k'[r]);
    } else {
      forall q | 0 <= q < |k'| ensures RowZero(k'[q]) {
      }
    }
  }

  lemma StopsAtArray(s: Schema, k: Counters, deep: Counters, r: nat, t: Slot)
    requires r < |s| && Shape(s, k) && AllZero(k) && Shape(s, deep) && deep[r] == k[r]
    requires Flat(Nodes(s[r])) && t.pos < |Nodes(s[r])| && Nodes(s[r])[t.pos].Ary?
    requires t.iter > 0 ==> InLoop(Nodes(s[r]), t.pos)
    ensures t.iter == 0 && (AllZero(deep[r := StoppedAt(Nodes(s[r]), k[r], t)]) <==> AllZero(deep))
  {
    hide Nodes, NextPound;
    var nodes := Nodes(s[r]);
    var p := NextPound(nodes, t.pos);
    assert p < |nodes| ==> PoundOk(nodes, p);
    assert !InLoop(nodes, t.pos);
    assert RowZero(k[r]);
    var stopped := deep[r := StoppedAt(nodes, k[r], t)];
    assert stopped[r] == k[r];
    assert stopped == deep;
  }

  lemma {:induction false} RowLeaves(s: Schema, text: bytes, pos: nat, slots: seq<Slot>, k: Counters, m: Mode, r: nat)
    requires SchemaOk(s) && r < |s| && Above(s, slots, r) && pos <= |text| && Shape(s, k) && AllZero(k)
    requires LoopSlots(Nodes(s[r]), slots)
    ensures var t := RowTrip(s, text, pos, slots, k, m, r); var misfit := RowMisfit(s, text, pos, slots, m, r);
      (t.end.None? <==> misfit.Some?) && (AllZero(t.counters) <==> LeavesNone(misfit))
    decreases |s| - r, 0, |slots|
  {
    hide RowTrip, ArrayTrip, RowMisfit, ScanVals, ScanNode, ScanField, SchemaOk, StoppedAt, Nodes, InLoop, AllZero, ElemsMisfit;
    RowTripUnfold(s, text, pos, slots, k, m, r);
    MisfitUnfold(s, text, pos, slots, m, r);
    RowFromZero(s, text, pos, slots, k, m, r);
    assert slots[0..] == slots;
    if slots == [] {
      ValsEndDone(s, text, pos, slots, m, r);
    } else {
      FirstSlot(Nodes(s[r]), slots);
      var t0 := slots[0];
      if t0.node.Leaf? {
        LeafNode(s, text, pos, t0.node.field, m, r);
        var end := EndOf(ScanField(text, pos, t0.node.field, m));
        if end.Some? {
          RowLeaves(s, text, end.value, slots[1..], k, m, r);
        } else {
          StopsAt(s, k, r, t0);
        }
      } else {
        var id := t0.node.id;
        ArrayFromZero(s, text, pos, id, k, m, r);
        var a := ArrayTrip(s, text, pos, id, k, m);
        if a.end.Some? {
          RowLeaves(s, text, a.end.value, slots[1..], k, m, r);
        } else {
          FlatNodesOf(s, r);
          StopsAtArray(s, k, a.counters, r, t0);
          ArrayLeaves(s, text, pos, id, k, m, r, t0);
        }
      }
    }
  }

  lemma FlatNodesOf(s: Schema, r: nat)
    requires SchemaOk(s) && r < |s|
    ensures Flat(Nodes(s[r]))
  {
    FlatNodes(s[r]);
  }

  lemma FirstSlot(nodes: seq<Node>, slots: seq<Slot>)
    requires LoopSlots(nodes, slots) && slots != []
    ensures LoopSlots(nodes, slots[1..])
    ensures slots[0].pos < |nodes| && slots[0].node == nodes[slots[0].pos] && !slots[0].node.Pound?
    ensures slots[0].iter > 0 ==> InLoop(nodes, slots[0].pos)
  {
    hide InLoop;
  }

  lemma MisfitUnfold(s: Schema, text: bytes, pos: nat, slots: seq<Slot>, m: Mode, r: nat)
    requires SchemaOk(s) && r < |s| && Above(s, slots, r) && pos <= |text|
    ensures slots == [] ==> RowMisfit(s, text, pos, slots, m, r) == None
    ensures slots != [] ==>
      && (slots[0].node.Ary? ==> r < slots[0].node.id < |s|) && Above(s, slots[1..], r)
      && var end := EndOf(ScanNode(s, text, pos, slots[0].node, m, r));
         RowMisfit(s, text, pos, slots, m, r) ==
           if end.Some? then RowMisfit(s, text, end.value, slots[1..], m, r)
           else if !slots[0].node.Ary? || pos + 4 > |text| then Some(slots[0])
           else ElemsMisfit(s, text, pos + 4, slots[0].node.id, ReadWord32(text[pos..pos + 4], m.big), m)
  {
    hide ScanNode, ElemsMisfit, SchemaOk, ReadWord32;
    if slots != [] {
      assert slots[0] in slots;
    }
  }

  // The array behind slot t0 does not fit.
  lemma {:induction false} ArrayLeaves(s: Schema, text: bytes, pos: nat, id: nat, k: Counters, m: Mode, r: nat, t0: Slot)
    requires SchemaOk(s) && r < id < |s| && pos <= |text| && Shape(s, k) && AllZero(k)
    requires t0.node == Ary(id) && t0.iter == 0
    requires EndOf(ScanNode(s, text, pos, Ary(id), m, r)).None?
    ensures var t := ArrayTrip(s, text, pos, id, k, m);
      var misfit := if pos + 4 > |text| then Some(t0) else ElemsMisfit(s, text, pos + 4, id, ReadWord32(text[pos..pos + 4], m.big), m);
      misfit.Some? && (AllZero(t.counters) <==> LeavesNone(misfit))
    decreases |s| - id, 2, 0
  {
    hide ElemsTrip, ArrayTrip, ElemsMisfit, ScanElems, ReadWord32, SchemaOk, AllZero, Nodes;
    ArrayTripUnfold(s, text, pos, id, k, m);
    if pos + 4 <= |text| {
      var n := ReadWord32(text[pos..pos + 4], m.big);
      ElemsLeave(s, text, pos + 4, id, if n < TWO_TO_THE_31 then n else 0, k, m);
      ElemsEnd(s, text, pos + 4, id, 0, m);
    }
  }

  lemma {:induction false} ElemsLeave(s: Schema, text: bytes, pos: nat, id: nat, n: nat, k: Counters, m: Mode)
    requires SchemaOk(s) && id < |s| && pos <= |text| && Shape(s, k) && AllZero(k)
    ensures var t := ElemsTrip(s, text, pos, id, n, k, m); var misfit := ElemsMisfit(s, text, pos, id, n, m);
      (t.end.None? <==> misfit.Some?) && (AllZero(t.counters) <==> LeavesNone(misfit))
      && t.end == EndOf(ScanElems(s, text, pos, id, n, m))
    decreases |s| - id, 1, n
  {
    hide RowTrip, ElemsTrip, ScanVals, ScanElems, SchemaOk, Nodes, Slots, LateWalk, RowMisfit, ElemsMisfit, AllZero, LoopSlots;
    ElemsTripUnfold(s, text, pos, id, n, k, m);
    ElemsMisfitUnfold(s, text, pos, id, n, m);
    ElemsFromZero(s, text, pos, id, n, k, m);
    if n > 0 {
      ZeroRow(k, id);
      LateSlotsFromZero(s, id, k[id]);
      LateLoops(s, id, k[id]);
      NoPounds(s, id);
      RowFromZero(s, text, pos, RowSlots(s, id), k, m, id);
      RowLeaves(s, text, pos, RowSlots(s, id), k, m, id);
      var one := RowTrip(s, text, pos, RowSlots(s, id), k, m, id);
      if one.end.Some? {
        ElemsLeave(s, text, one.end.value, id, n - 1, k, m);
      }
    }
  }

  lemma ZeroRow(k: Counters, r: nat)
    requires AllZero(k) && r < |k|
    ensures RowZero(k[r])
  {
  }

  lemma LateLoops(s: Schema, r: nat, k: seq<nat>)
    requires SchemaOk(s) && r < |s| && |k| == |Nodes(s[r])|
    ensures Flat(Nodes(s[r])) && LoopSlots(Nodes(s[r]), LateSlots(Nodes(s[r]), k))
  {
    hide Nodes, LateWalk, InLoop;
    FlatNodes(s[r]);
    LateIn(Nodes(s[r]), k, 0, NextCount(Nodes(s[r]), k, 0));
  }

  lemma ElemsMisfitUnfold(s: Schema, text: bytes, pos: nat, id: nat, n: nat, m: Mode)
    requires SchemaOk(s) && id < |s| && pos <= |text|
    ensures n == 0 ==> ElemsMisfit(s, text, pos, id, n, m) == None
    ensures Above(s, RowSlots(s, id), id)
    ensures n > 0 ==>
      var end := EndOf(ScanVals(s, text, pos, RowSlots(s, id), m, id));
      ElemsMisfit(s, text, pos, id, n, m) ==
        if end.Some? then ElemsMisfit(s, text, end.value, id, n - 1, m) else RowMisfit(s, text, pos, RowSlots(s, id), m, id)
  {
    hide ScanVals, RowMisfit, SchemaOk, Slots;
    RowAbove(s, id);
  }

  // ----- the walk step by step -----

  ghost predicate RowCounters(nodes: seq<Node>, k: seq<nat>) {
    && |k| == |nodes|
    && forall p :: 0 <= p < |k| ==> if nodes[p].Pound? then k[p] < nodes[p].count else k[p] == 0
  }

  // The counters of the row while the walk stands at node c.
  function StandAt(nodes: seq<Node>, k: seq<nat>, c: nat, it: nat): (r: seq<nat>)
    requires c <= |nodes| == |k|
    ensures |r| == |k|
  {
    seq(|k|, j requires 0 <= j < |k| => if j < c then 0 else if j == NextPound(nodes, c) then it else k[j])
  }

  // In front of a loop its counter is still as it was found.
  ghost predicate Late(nodes: seq<Node>, k: seq<nat>, c: nat, it: nat) {
    && Flat(nodes) && RowCounters(nodes, k) && c <= |nodes| && it < CountAt(nodes, NextPound(nodes, c))
    && (c < NextPound(nodes, c) && !InLoop(nodes, c) ==> it == NextCount(nodes, k, c))
  }

  lemma LateStart(nodes: seq<Node>, k: seq<nat>)
    requires Flat(nodes) && RowCounters(nodes, k)
    ensures Late(nodes, k, 0, NextCount(nodes, k, 0)) && StandAt(nodes, k, 0, NextCount(nodes, k, 0)) == k
  {
  }

  lemma LateStepLeaf(nodes: seq<Node>, k: seq<nat>, c: nat, it: nat)
    requires Late(nodes, k, c, it) && c < |nodes| && !nodes[c].Pound?
    ensures Late(nodes, k, c + 1, it) && StandAt(nodes, k, c + 1, it) == StandAt(nodes, k, c, it)
    ensures NextPound(nodes, c + 1) == NextPound(nodes, c)
    ensures StoppedAt(nodes, k, Slot(nodes[c], c, if InLoop(nodes, c) then it else 0)) == StandAt(nodes, k, c, it)
  {
    LateLeaf(nodes, k, c, it);
  }

  lemma LateStepTurn(nodes: seq<Node>, k: seq<nat>, c: nat, it: nat)
    requires Late(nodes, k, c, it) && c < |nodes| && nodes[c].Pound?
    ensures StandAt(nodes, k, c, it)[c] == it && nodes[c].span <= c
    ensures it + 1 < nodes[c].count ==>
      && NextPound(nodes, c - nodes[c].span) == c && Late(nodes, k, c - nodes[c].span, it + 1)
      && StandAt(nodes, k, c - nodes[c].span, it + 1) == StandAt(nodes, k, c, it)[c := it + 1]
    ensures it + 1 >= nodes[c].count ==>
      && NextPound(nodes, c + 1) > c && Late(nodes, k, c + 1, NextCount(nodes, k, c + 1))
      && StandAt(nodes, k, c + 1, NextCount(nodes, k, c + 1)) == StandAt(nodes, k, c, it)[c := 0]
  {
    LateTurn(nodes, k, c, it);
    NextPoundHere(nodes, c);
    if it + 1 < nodes[c].count {
      var b := c - nodes[c].span;
      var back, here := StandAt(nodes, k, b, it + 1), StandAt(nodes, k, c, it)[c := it + 1];
      forall j | 0 <= j < |k| ensures back[j] == here[j] {
        assert b <= j < c ==> nodes[j].Leaf?;
      }
    }
  }

  lemma LateEnd(nodes: seq<Node>, k: seq<nat>, it: nat)
    requires Flat(nodes) && |k| == |nodes|
    ensures StandAt(nodes, k, |nodes|, it) == Zeros(|k|)
  {
  }

  lemma AtInRange(nodes: seq<Node>, k: seq<nat>, c: nat, it: nat)
    requires Late(nodes, k, c, it)
    ensures RowCounters(nodes, StandAt(nodes, k, c, it))
  {
  }

  // ----- counters of cursors -----

  lemma CountsFit(s: Schema, rows: seq<seq<Cursor>>)
    requires InRange(s, rows)
    ensures Shape(s, Counts(rows)) && CountsMatch(rows, Counts(rows)) && Counted(rows, Counts(rows)) == rows
    ensures forall r :: 0 <= r < |s| ==> Flat(Nodes(s[r])) && RowCounters(Nodes(s[r]), Counts(rows)[r])
  {
    hide Nodes;
    assert forall r :: 0 <= r < |s| ==> RowInRange(Nodes(s[r]), rows[r]);
    forall r | 0 <= r < |rows| ensures Counted(rows, Counts(rows))[r] == rows[r] {
      assert RowInRange(Nodes(s[r]), rows[r]);
    }
  }

  lemma ShapeFits(s: Schema, rows: seq<seq<Cursor>>, k: Counters)
    requires InRange(s, rows) && Shape(s, k)
    ensures CountsMatch(rows, k)
  {
    hide Nodes;
    forall r | 0 <= r < |rows| ensures |k[r]| == |rows[r]| {
      assert RowInRange(Nodes(s[r]), rows[r]);
    }
  }

  lemma CountedTwice(rows: seq<seq<Cursor>>, k: Counters, k': Counters)
    requires CountsMatch(rows, k) && CountsMatch(rows, k')
    ensures CountsMatch(Counted(rows, k), k') && Counted(Counted(rows, k), k') == Counted(rows, k')
    ensures Counts(Counted(rows, k)) == k
  {
    forall r | 0 <= r < |rows|
      ensures Counted(Counted(rows, k), k')[r] == Counted(rows, k')[r] && Counts(Counted(rows, k))[r] == k[r]
    {
      assert CountedRow(CountedRow(rows[r], k[r]), k'[r]) == CountedRow(rows[r], k'[r]);
      assert CountsOf(CountedRow(rows[r], k[r])) == k[r];
    }
  }

  // Setting one counter.
  lemma CountedSet(rows: seq<seq<Cursor>>, k: Counters, r: nat, a: seq<nat>, c: nat, v: nat)
    requires r < |rows| == |k| && CountsMatch(rows, k[r := a]) && |a| == |rows[r]| && c < |a|
    ensures CountsMatch(rows, k[r := a[c := v]])
    ensures var at := Counted(rows, k[r := a]);
      at[r][c].iternum == a[c] && at[r := at[r][c := at[r][c].(iternum := v)]] == Counted(rows, k[r := a[c := v]])
  {
    var at: seq<seq<Cursor>> := Counted(rows, k[r := a]);
    var moved := at[r := at[r][c := at[r][c].(iternum := v)]];
    assert moved[r] == CountedRow(rows[r], a[c := v]);
  }

  lemma CountedInRange(s: Schema, rows: seq<seq<Cursor>>, k: Counters, r: nat, a: seq<nat>)
    requires InRange(s, rows) && CountsMatch(rows, k) && InRange(s, Counted(rows, k)) && r < |s|
    requires RowCounters(Nodes(s[r]), a)
    ensures CountsMatch(rows, k[r := a]) && InRange(s, Counted(rows, k[r := a]))
  {
    hide Nodes;
    assert RowInRange(Nodes(s[r]), rows[r]);
    var was, now := Counted(rows, k), Counted(rows, k[r := a]);
    forall q | 0 <= q < |s| ensures RowInRange(Nodes(s[q]), now[q]) {
      assert RowInRange(Nodes(s[q]), was[q]) && RowInRange(Nodes(s[q]), rows[q]);
    }
  }

  lemma RestInRange(s: Schema, rows: seq<seq<Cursor>>)
    requires AtRest(s, rows)
    ensures InRange(s, rows) && AllZero(Counts(rows))
  {
    hide Nodes;
    forall r | 0 <= r < |s| ensures RowInRange(Nodes(s[r]), rows[r]) {
      assert RowAtRest(Nodes(s[r]), rows[r]);
      forall p | 0 <= p < |rows[r]| ensures Nodes(s[r])[p].Pound? ==> rows[r][p].iternum < Nodes(s[r])[p].count {
        assert PoundOk(Nodes(s[r]), p);
      }
    }
    forall r | 0 <= r < |rows| ensures RowZero(Counts(rows)[r]) {
      assert RowAtRest(Nodes(s[r]), rows[r]);
    }
  }

  lemma ZeroAtRest(s: Schema, rows: seq<seq<Cursor>>)
    requires InRange(s, rows)
    ensures AllZero(Counts(rows)) <==> AtRest(s, rows)
  {
    hide Nodes;
    if AllZero(Counts(rows)) {
      forall r | 0 <= r < |s| ensures RowAtRest(Nodes(s[r]), rows[r]) {
        assert RowInRange(Nodes(s[r]), rows[r]) && RowZero(Counts(rows)[r]);
        forall j | 0 <= j < |rows[r]| ensures rows[r][j].iternum == 0 {
          assert Counts(rows)[r][j] == rows[r][j].iternum;
        }
      }
    }
    if AtRest(s, rows) {
      RestInRange(s, rows);
    }
  }

  // ----- what tpl_sanity makes of an image from any counters -----

  ghost function DataTrip(s: Schema, fmt: bytes, fxlens: seq<nat>, text: bytes, k: Counters, m: Mode): Trip
    requires SchemaOk(s) && Shape(s, k) && HeaderSize(fmt, fxlens) <= |text|
  {
    ElemsTrip(s, text, HeaderSize(fmt, fxlens), 0, 1, k, m)
  }

  ghost predicate AcceptsFrom(s: Schema, fmt: bytes, fxlens: seq<nat>, text: bytes, k: Counters, m: Mode, excess: bool)
    requires SchemaOk(s) && Shape(s, k)
  {
    && HeaderMatches(fmt, fxlens, text, m.big, excess)
    && var t := DataTrip(s, fmt, fxlens, text, k, m);
       t.end.Some? && (excess || t.end.value == |text|)
  }

  ghost function CountersAfter(s: Schema, fmt: bytes, fxlens: seq<nat>, text: bytes, k: Counters, m: Mode, excess: bool): (r: Counters)
    requires SchemaOk(s) && Shape(s, k)
    ensures Shape(s, r)
  {
    if HeaderMatches(fmt, fxlens, text, m.big, excess) then DataTrip(s, fmt, fxlens, text, k, m).counters else k
  }

  ghost function DataMisfit(s: Schema, fmt: bytes, fxlens: seq<nat>, text: bytes, m: Mode): Option<Slot>
    requires SchemaOk(s) && HeaderSize(fmt, fxlens) <= |text|
  {
    RowAbove(s, 0);
    RowMisfit(s, text, HeaderSize(fmt, fxlens), RowSlots(s, 0), m, 0)
  }

  // From counters at zero an image is accepted exactly when it is well formed,
  // and afterwards the counters are at zero again exactly when the header is
  // refused, the data fit, or the first field that does not fit lies in the
  // first iteration of its loop.
  lemma FromZero(s: Schema, fmt: bytes, fxlens: seq<nat>, text: bytes, k: Counters, m: Mode, excess: bool)
    requires SchemaOk(s) && Shape(s, k) && AllZero(k) && 0 < |s|
    ensures AcceptsFrom(s, fmt, fxlens, text, k, m, excess) <==> Accepts(s, fmt, fxlens, text, m, excess)
    ensures AcceptsFrom(s, fmt, fxlens, text, k, m, excess) ==> CountersAfter(s, fmt, fxlens, text, k, m, excess) == k
    ensures AllZero(CountersAfter(s, fmt, fxlens, text, k, m, excess)) <==>
      !HeaderMatches(fmt, fxlens, text, m.big, excess) || LeavesNone(DataMisfit(s, fmt, fxlens, text, m))
    ensures HeaderMatches(fmt, fxlens, text, m.big, excess) ==>
      (DataMisfit(s, fmt, fxlens, text, m).None? <==> DataScan(s, fmt, fxlens, text, m).Good?)
  {
    hide ElemsTrip, RowTrip, ScanVals, ScanElems, SchemaOk, RowMisfit, ElemsMisfit, AllZero, LensMatch, At, Slots;
    if HeaderMatches(fmt, fxlens, text, m.big, excess) {
      HeaderFits(fmt, fxlens, text, m.big, excess);
      var h := HeaderSize(fmt, fxlens);
      ElemsLeave(s, text, h, 0, 1, k, m);
      ElemsFromZero(s, text, h, 0, 1, k, m);
      ElemsMisfitUnfold(s, text, h, 0, 1, m);
      ElemsEnd(s, text, h, 0, 1, m);
      var mid := EndOf(ScanVals(s, text, h, RowSlots(s, 0), m, 0));
      if mid.Some? {
        ElemsEnd(s, text, mid.value, 0, 0, m);
        ElemsMisfitUnfold(s, text, mid.value, 0, 0, m);
      }
      GoodFits(s, text, h, k, m);
    }
  }

  lemma HeaderFits(fmt: bytes, fxlens: seq<nat>, text: bytes, big: bool, excess: bool)
    requires HeaderMatches(fmt, fxlens, text, big, excess)
    ensures HeaderSize(fmt, fxlens) <= |text|
  {
  }

  lemma GoodFits(s: Schema, text: bytes, pos: nat, k: Counters, m: Mode)
    requires SchemaOk(s) && pos <= |text| && Shape(s, k) && AllZero(k) && 0 < |s| && Above(s, RowSlots(s, 0), 0)
    ensures RowMisfit(s, text, pos, RowSlots(s, 0), m, 0).None? <==> ScanVals(s, text, pos, RowSlots(s, 0), m, 0).Good?
  {
    hide RowTrip, ScanVals, SchemaOk, RowMisfit, Slots, Nodes, LoopSlots, LateWalk;
    ZeroRow(k, 0);
    LateSlotsFromZero(s, 0, k[0]);
    LateLoops(s, 0, k[0]);
    NoPounds(s, 0);
    RowFromZero(s, text, pos, RowSlots(s, 0), k, m, 0);
    RowLeaves(s, text, pos, RowSlots(s, 0), k, m, 0);
  }

  // ----- the same for the cursors of a tpl -----

  // The rows are as before but for the counters of the trip.
  ghost predicate After(rows: seq<seq<Cursor>>, rows': seq<seq<Cursor>>, k: Counters) {
    CountsMatch(rows, k) && rows' == Counted(rows, k)
  }

  ghost function RowTripOf(s: Schema, rows: seq<seq<Cursor>>, text: bytes, dv: nat, m: Mode, r: nat): Trip
    requires SchemaOk(s) && InRange(s, rows) && r < |s| && dv <= |text|
  {
    CountsFit(s, rows);
    LateAbove(s, r, Counts(rows)[r]);
    RowTrip(s, text, dv, LateSlots(Nodes(s[r]), Counts(rows)[r]), Counts(rows), m, r)
  }

  ghost function LengthTripOf(s: Schema, rows: seq<seq<Cursor>>, text: bytes, dv: nat, m: Mode, r: nat): Trip
    requires SchemaOk(s) && InRange(s, rows) && r < |s| && dv <= |text|
  {
    CountsFit(s, rows);
    if r == 0 then ElemsTrip(s, text, dv, 0, 1, Counts(rows), m) else ArrayTrip(s, text, dv, r, Counts(rows), m)
  }

  // At rest the trip is the checked length, and changes nothing if it succeeds.
  lemma LengthAtRest(s: Schema, rows: seq<seq<Cursor>>, text: bytes, dv: nat, m: Mode, id: nat, r: nat)
    requires SchemaOk(s) && AtRest(s, rows) && r < id < |s| && dv <= |text|
    ensures InRange(s, rows)
    ensures var t := LengthTripOf(s, rows, text, dv, m, id);
      && t.end == EndOf(ScanNode(s, text, dv, Ary(id), m, r))
      && (t.end.Some? ==> t.counters == Counts(rows))
  {
    hide ArrayTrip, ScanNode, SchemaOk, RowAtRest, RowInRange;
    RestInRange(s, rows);
    CountsFit(s, rows);
    ArrayFromZero(s, text, dv, id, Counts(rows), m, r);
  }

  // A trip of an inner row, seen from the outer one.
  lemma AfterInner(rows: seq<seq<Cursor>>, k: Counters, inner: seq<seq<Cursor>>, k': Counters)
    requires CountsMatch(rows, k) && CountsMatch(rows, k') && After(Counted(rows, k), inner, k')
    ensures After(rows, inner, k')
  {
    CountedTwice(rows, k, k');
  }

  // An array met by a walk of row r that stands at y.
  lemma ArrayFrom(s: Schema, rows: seq<seq<Cursor>>, k: Counters, r: nat, y: seq<nat>, text: bytes, pos: nat, id: nat, m: Mode)
    requires SchemaOk(s) && r < id < |s| && pos <= |text| && Shape(s, k) && |y| == |k[r]|
    requires CountsMatch(rows, k[r := y]) && InRange(s, Counted(rows, k[r := y]))
    ensures var t := LengthTripOf(s, Counted(rows, k[r := y]), text, pos, m, id); var a := ArrayTrip(s, text, pos, id, k, m);
      t.end == a.end && t.counters == a.counters[r := y]
  {
    hide ArrayTrip, SchemaOk, Nodes;
    CountedTwice(rows, k[r := y], k[r := y]);
    ArrayApart(s, text, pos, id, k, m, r, y);
  }

  lemma ArrayPassed(s: Schema, rows: seq<seq<Cursor>>, k: Counters, r: nat, y: seq<nat>, k': Counters)
    requires r < |s| == |k| && InRange(s, rows) && CountsMatch(rows, k[r := y]) && Shape(s, k) && Shape(s, k') && |y| == |k[r]| && k'[r] == k[r]
    ensures CountsMatch(rows, k'[r := y]) && |y| == |k'[r]|
    ensures CountsMatch(Counted(rows, k[r := y]), k'[r := y])
    ensures Counted(Counted(rows, k[r := y]), k'[r := y]) == Counted(rows, k'[r := y])
  {
    hide Nodes, RowInRange;
    ShapeFits(s, rows, k');
    CountedTwice(rows, k[r := y], k'[r := y]);
  }

  lemma LateLength(nodes: seq<Node>, k: seq<nat>, c: nat, it: nat)
    requires Late(nodes, k, c, it)
    ensures Flat(nodes) && |k| == |nodes| && c <= |nodes| && it < CountAt(nodes, NextPound(nodes, c))
  {
  }

  lemma RowFits(s: Schema, rows: seq<seq<Cursor>>, r: nat)
    requires r < |s| && InRange(s, rows)
    ensures |rows| == |s| && |rows[r]| == |Nodes(s[r])|
  {
    hide Nodes;
    assert RowInRange(Nodes(s[r]), rows[r]);
  }

  ghost predicate AcceptsAt(s: Schema, fmt: bytes, fxlens: seq<nat>, text: bytes, rows: seq<seq<Cursor>>, m: Mode, excess: bool)
    requires SchemaOk(s) && InRange(s, rows)
  {
    CountsFit(s, rows);
    AcceptsFrom(s, fmt, fxlens, text, Counts(rows), m, excess)
  }

  ghost function LeftBy(s: Schema, fmt: bytes, fxlens: seq<nat>, text: bytes, rows: seq<seq<Cursor>>, m: Mode, excess: bool): Counters
    requires SchemaOk(s) && InRange(s, rows)
  {
    CountsFit(s, rows);
    CountersAfter(s, fmt, fxlens, text, Counts(rows), m, excess)
  }

  lemma NothingLeft(s: Schema, fmt: bytes, fxlens: seq<nat>, text: bytes, rows: seq<seq<Cursor>>, m: Mode, excess: bool)
    requires SchemaOk(s) && InRange(s, rows) && !HeaderMatches(fmt, fxlens, text, m.big, excess)
    ensures After(rows, rows, LeftBy(s, fmt, fxlens, text, rows, m, excess)) && !AcceptsAt(s, fmt, fxlens, text, rows, m, excess)
  {
    hide HeaderMatches, SchemaOk, RowInRange;
    CountsFit(s, rows);
  }

  // A tpl at rest accepts exactly the well-formed images and comes to rest.
  lemma AcceptsAtRest(s: Schema, fmt: bytes, fxlens: seq<nat>, text: bytes, rows: seq<seq<Cursor>>, m: Mode, excess: bool)
    requires SchemaOk(s) && AtRest(s, rows) && 0 < |s|
    ensures InRange(s, rows)
    ensures AcceptsAt(s, fmt, fxlens, text, rows, m, excess) <==> Accepts(s, fmt, fxlens, text, m, excess)
    ensures AcceptsAt(s, fmt, fxlens, text, rows, m, excess) ==>
      After(rows, rows, LeftBy(s, fmt, fxlens, text, rows, m, excess))
  {
    hide HeaderMatches, SchemaOk, RowInRange, RowAtRest, AcceptsFrom, Accepts, CountersAfter;
    RestInRange(s, rows);
    CountsFit(s, rows);
    FromZero(s, fmt, fxlens, text, Counts(rows), m, excess);
  }

  lemma AfterSame(rows: seq<seq<Cursor>>, rows': seq<seq<Cursor>>, k: Counters)
    requires After(rows, rows', k) && After(rows, rows, k)
    ensures rows' == rows
  {
  }

  lemma ShapeAt(s: Schema, k: Counters, r: nat)
    requires Shape(s, k) && r < |s|
    ensures |k| == |s| && |k[r]| == |Nodes(s[r])|
  {
  }

  // ----- where a length walk stands -----

  // At node c of row r, the next counter at `it`: what is still to come makes
  // the whole trip.
  ghost predicate Passing(s: Schema, rows: seq<seq<Cursor>>, cursors: seq<seq<Cursor>>, text: bytes, m: Mode,
                          r: nat, k: Counters, c: nat, it: nat, pos: nat, whole: Trip)
  {
    && SchemaOk(s) && r < |s| == |k| && InRange(s, rows) && InRange(s, cursors) && Shape(s, k) && pos <= |text|
    && Late(Nodes(s[r]), k[r], c, it)
    && CountsMatch(rows, k[r := StandAt(Nodes(s[r]), k[r], c, it)])
    && cursors == Counted(rows, k[r := StandAt(Nodes(s[r]), k[r], c, it)])
    && Above(s, LateWalk(Nodes(s[r]), k[r], c, it), r)
    && RowTrip(s, text, pos, LateWalk(Nodes(s[r]), k[r], c, it), k, m, r) == whole
  }

  lemma PassStart(s: Schema, rows: seq<seq<Cursor>>, text: bytes, m: Mode, r: nat, dv: nat)
    requires SchemaOk(s) && InRange(s, rows) && r < |s| && dv <= |text|
    ensures |Counts(rows)| == |s| && |Counts(rows)[r]| == |Nodes(s[r])|
    ensures Passing(s, rows, rows, text, m, r, Counts(rows), 0, NextCount(Nodes(s[r]), Counts(rows)[r], 0), dv, RowTripOf(s, rows, text, dv, m, r))
  {
    hide Nodes, RowTrip, LateWalk, RowInRange, Late, StandAt;
    var k := Counts(rows);
    CountsFit(s, rows);
    ShapeAt(s, k, r);
    LateAbove(s, r, k[r]);
    LateStart(Nodes(s[r]), k[r]);
    assert k[r := k[r]] == k;
  }

  lemma PassAt(s: Schema, rows: seq<seq<Cursor>>, cursors: seq<seq<Cursor>>, text: bytes, m: Mode,
               r: nat, k: Counters, c: nat, it: nat, pos: nat, whole: Trip)
    requires Passing(s, rows, cursors, text, m, r, k, c, it, pos, whole)
    ensures Flat(Nodes(s[r])) && c <= |Nodes(s[r])| == |k[r]| && it < CountAt(Nodes(s[r]), NextPound(Nodes(s[r]), c))
    ensures InRange(s, cursors) && pos <= |text|
  {
    hide Nodes;
  }

  lemma PassField(s: Schema, rows: seq<seq<Cursor>>, cursors: seq<seq<Cursor>>, text: bytes, m: Mode,
                  r: nat, k: Counters, c: nat, it: nat, pos: nat, whole: Trip)
    requires Passing(s, rows, cursors, text, m, r, k, c, it, pos, whole) && c < |Nodes(s[r])| && Nodes(s[r])[c].Leaf?
    ensures NextPound(Nodes(s[r]), c + 1) == NextPound(Nodes(s[r]), c)
    ensures var end := EndOf(ScanField(text, pos, Nodes(s[r])[c].field, m));
      && (end.None? ==> whole.end.None? && After(rows, cursors, whole.counters))
      && (end.Some? ==> Passing(s, rows, cursors, text, m, r, k, c + 1, it, end.value, whole))
  {
    hide Nodes, RowTrip, LateWalk, RowInRange, Late, StandAt, StoppedAt, ScanField, SchemaOk;
    LateLength(Nodes(s[r]), k[r], c, it);
    LateLeaf(Nodes(s[r]), k[r], c, it);
    LateStepLeaf(Nodes(s[r]), k[r], c, it);
    var slots := LateWalk(Nodes(s[r]), k[r], c, it);
    RowTripUnfold(s, text, pos, slots, k, m, r);
    assert slots[1..] == LateWalk(Nodes(s[r]), k[r], c + 1, it);
  }

  lemma PassArray(s: Schema, rows: seq<seq<Cursor>>, cursors: seq<seq<Cursor>>, text: bytes, m: Mode,
                  r: nat, k: Counters, c: nat, it: nat, pos: nat, whole: Trip) returns (k': Counters)
    requires Passing(s, rows, cursors, text, m, r, k, c, it, pos, whole) && c < |Nodes(s[r])| && Nodes(s[r])[c].Ary?
    ensures r < Nodes(s[r])[c].id < |s| && NextPound(Nodes(s[r]), c + 1) == NextPound(Nodes(s[r]), c)
    ensures var t := LengthTripOf(s, cursors, text, pos, m, Nodes(s[r])[c].id);
      forall inner :: After(cursors, inner, t.counters) && InRange(s, inner) ==>
        && (t.end.None? ==> whole.end.None? && After(rows, inner, whole.counters))
        && (t.end.Some? ==> Passing(s, rows, inner, text, m, r, k', c + 1, it, t.end.value, whole))
  {
    hide Nodes, RowTrip, ArrayTrip, LateWalk, RowInRange, Late, StandAt, StoppedAt, SchemaOk;
    LateLength(Nodes(s[r]), k[r], c, it);
    LateLeaf(Nodes(s[r]), k[r], c, it);
    LateStepLeaf(Nodes(s[r]), k[r], c, it);
    var slots, y := LateWalk(Nodes(s[r]), k[r], c, it), StandAt(Nodes(s[r]), k[r], c, it);
    RowTripUnfold(s, text, pos, slots, k, m, r);
    assert slots[1..] == LateWalk(Nodes(s[r]), k[r], c + 1, it);
    var id := Nodes(s[r])[c].id;
    k' := ArrayTrip(s, text, pos, id, k, m).counters;
    ArrayFrom(s, rows, k, r, y, text, pos, id, m);
    ArrayPassed(s, rows, k, r, y, k');
  }

  lemma PassEnd(s: Schema, rows: seq<seq<Cursor>>, cursors: seq<seq<Cursor>>, text: bytes, m: Mode,
                r: nat, k: Counters, it: nat, pos: nat, whole: Trip)
    requires r < |s| && Passing(s, rows, cursors, text, m, r, k, |Nodes(s[r])|, it, pos, whole)
    ensures whole.end == Some(pos) && After(rows, cursors, whole.counters)
  {
    hide Nodes, RowTrip, LateWalk, RowInRange, Late, StandAt, SchemaOk;
    LateLength(Nodes(s[r]), k[r], |Nodes(s[r])|, it);
    LateDone(Nodes(s[r]), k[r], it);
    LateEnd(Nodes(s[r]), k[r], it);
    RowTripUnfold(s, text, pos, [], k, m, r);
  }

  // The '#' case: nothing but the counter moves.
  lemma PassTurn(s: Schema, rows: seq<seq<Cursor>>, cursors: seq<seq<Cursor>>, text: bytes, m: Mode,
                 r: nat, k: Counters, c: nat, it: nat, pos: nat, whole: Trip) returns (it': nat)
    requires Passing(s, rows, cursors, text, m, r, k, c, it, pos, whole) && c < |Nodes(s[r])| && Nodes(s[r])[c].Pound?
    ensures |cursors| == |s| && |cursors[r]| == |Nodes(s[r])| && cursors[r][c].iternum == it && Nodes(s[r])[c].span <= c
    ensures var nodes := Nodes(s[r]); var v := if it + 1 < nodes[c].count then it + 1 else 0;
      var next := if it + 1 < nodes[c].count then c - nodes[c].span else c + 1;
      && Passing(s, rows, cursors[r := cursors[r][c := cursors[r][c].(iternum := v)]], text, m, r, k, next, it', pos, whole)
      && (NextPound(nodes, next) > c || (NextPound(nodes, next) == c && it' > it)) && NextPound(nodes, c) == c
  {
    hide Nodes, LateWalk, RowTrip, RowInRange, StandAt, Late, RowCounters, SchemaOk;
    var nodes := Nodes(s[r]);
    var y := StandAt(nodes, k[r], c, it);
    LateLength(nodes, k[r], c, it);
    LateTurn(nodes, k[r], c, it);
    LateStepTurn(nodes, k[r], c, it);
    NextPoundHere(nodes, c);
    var v: nat := if it + 1 < nodes[c].count then it + 1 else 0;
    RowFits(s, rows, r);
    RowFits(s, cursors, r);
    CountedSet(rows, k, r, y, c, v);
    var next: nat := if it + 1 < nodes[c].count then c - nodes[c].span else c + 1;
    it' := if it + 1 < nodes[c].count then it + 1 else NextCount(nodes, k[r], c + 1);
    AtInRange(nodes, k[r], next, it');
    CountedInRange(s, rows, k[r := y], r, y[c := v]);
    assert k[r := y][r := y[c := v]] == k[r := y[c := v]];
  }
}
