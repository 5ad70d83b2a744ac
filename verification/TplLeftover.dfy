// What a '#' counter left behind by a rejected image does to the next load: for
// every such counter there is an image that is accepted although its data end
// before the mapped fields do.
module TplLeftover {
  import opened Bytes
  import opened TplSchema
  import opened TplWire
  import opened TplImage
  import opened TplState
  import opened TplReset
  import opened TplCounters

  // ----- what the walks take from an image whose data are zero bytes -----

  function FieldNeed(f: Field): nat {
    match f
    case Scalar(size, num) => size * num
    case Text(num) => 4 * num
    case Blob => 4
  }

  function NodeNeed(node: Node): nat {
    match node
    case Leaf(f) => FieldNeed(f)
    case Ary(_) => 4
    case Pound(_, _, _) => 0
  }

  function Need(slots: seq<Slot>): nat {
    if slots == [] then 0 else NodeNeed(slots[0].node) + Need(slots[1..])
  }

  // The n bytes at pos are zero, as far as the text goes.
  predicate Zeroed(text: bytes, pos: nat, n: nat) {
    forall i :: pos <= i < pos + n && i < |text| ==> text[i] == 0
  }

  lemma ZeroWord(text: bytes, pos: nat, big: bool)
    requires pos + 4 <= |text| && Zeroed(text, pos, 4)
    ensures ReadWord32(text[pos..pos + 4], big) == 0
  {
  }

  lemma {:induction false} ZeroWords(text: bytes, pos: nat, size: nat, num: nat, swap: bool)
    requires pos <= |text|
    ensures EndOf(ScanWords(text, pos, size, num, swap)) == if pos + size * num <= |text| then Some(pos + size * num) else None
    decreases num
  {
    if num > 0 {
      TimesStep(size, num);
      TimesNat(size, num - 1);
      if pos + size <= |text| {
        ZeroWords(text, pos + size, size, num - 1, swap);
      }
    }
  }

  lemma TimesNat(size: nat, n: nat)
    ensures 0 <= size * n
  {
  }

  lemma {:induction false} ZeroStrs(text: bytes, pos: nat, num: nat, m: Mode)
    requires pos <= |text| && Zeroed(text, pos, 4 * num)
    ensures EndOf(ScanStrs(text, pos, num, m)) == if pos + 4 * num <= |text| then Some(pos + 4 * num) else None
    decreases num
  {
    hide ReadWord32;
    if num > 0 && pos + 4 <= |text| {
      ZeroWord(text, pos, m.big);
      ZeroStrs(text, pos + 4, num - 1, m);
    }
  }

  lemma ZeroField(text: bytes, pos: nat, f: Field, m: Mode)
    requires pos <= |text| && Zeroed(text, pos, FieldNeed(f))
    ensures EndOf(ScanField(text, pos, f, m)) == if pos + FieldNeed(f) <= |text| then Some(pos + FieldNeed(f)) else None
  {
    hide ReadWord32, ScanWords, ScanStrs;
    match f
    case Scalar(size, num) => ZeroWords(text, pos, size, num, m.swap);
    case Text(num) => ZeroStrs(text, pos, num, m);
    case Blob =>
      if pos + 4 <= |text| {
        ZeroWord(text, pos, m.big);
      }
  }

  lemma ZeroArray(s: Schema, text: bytes, pos: nat, id: nat, k: Counters, m: Mode)
    requires SchemaOk(s) && id < |s| && pos <= |text| && Shape(s, k) && Zeroed(text, pos, 4)
    ensures ArrayTrip(s, text, pos, id, k, m) == Trip(k, if pos + 4 <= |text| then Some(pos + 4) else None)
  {
    hide ArrayTrip, ElemsTrip, ReadWord32, SchemaOk;
    ArrayTripUnfold(s, text, pos, id, k, m);
    if pos + 4 <= |text| {
      ZeroWord(text, pos, m.big);
      ElemsTripUnfold(s, text, pos + 4, id, 0, k, m);
    }
  }

  lemma NeedFirst(slots: seq<Slot>, j: nat)
    requires 0 < j <= |slots|
    ensures Need(slots[..j]) == NodeNeed(slots[0].node) + Need(slots[1..][..j - 1])
  {
    assert slots[..j][1..] == slots[1..][..j - 1];
  }

  lemma ZeroParts(text: bytes, pos: nat, a: nat, b: nat)
    requires Zeroed(text, pos, a + b)
    ensures Zeroed(text, pos, a) && Zeroed(text, pos + a, b)
  {
  }

  // Over zero bytes a walk passes its first j slots and is where it was.
  lemma {:induction false} ZeroPass(s: Schema, text: bytes, pos: nat, slots: seq<Slot>, j: nat, k: Counters, m: Mode, r: nat)
    requires SchemaOk(s) && r < |s| && Above(s, slots, r) && Shape(s, k) && j <= |slots|
    requires forall i :: 0 <= i < |slots| ==> !slots[i].node.Pound?
    requires pos + Need(slots[..j]) <= |text| && Zeroed(text, pos, Need(slots[..j]))
    ensures Above(s, slots[j..], r)
    ensures RowTrip(s, text, pos, slots, k, m, r) == RowTrip(s, text, pos + Need(slots[..j]), slots[j..], k, m, r)
    decreases j
  {
    hide RowTrip, ArrayTrip, ScanField, SchemaOk, StoppedAt, FieldNeed, Zeroed, Need;
    if j == 0 {
      NoNeed();
      assert slots[..0] == [] && slots[0..] == slots;
    } else {
      RowTripUnfold(s, text, pos, slots, k, m, r);
      NeedFirst(slots, j);
      var n := NodeNeed(slots[0].node);
      ZeroParts(text, pos, n, Need(slots[1..][..j - 1]));
      if slots[0].node.Leaf? {
        ZeroField(text, pos, slots[0].node.field, m);
      } else {
        ZeroArray(s, text, pos, slots[0].node.id, k, m);
      }
      ZeroPass(s, text, pos + n, slots[1..], j - 1, k, m, r);
      assert slots[1..][j - 1..] == slots[j..];
    }
  }

  lemma NoNeed()
    ensures Need([]) == 0
  {
  }

  // All of it: it ends behind what the slots need, if the text goes so far.
  lemma {:induction false} ZeroRow(s: Schema, text: bytes, pos: nat, slots: seq<Slot>, k: Counters, m: Mode, r: nat)
    requires SchemaOk(s) && r < |s| && Above(s, slots, r) && Shape(s, k) && pos <= |text|
    requires forall i :: 0 <= i < |slots| ==> !slots[i].node.Pound?
    requires Zeroed(text, pos, Need(slots))
    ensures RowTrip(s, text, pos, slots, k, m, r).end == if pos + Need(slots) <= |text| then Some(pos + Need(slots)) else None
    decreases |slots|
  {
    hide RowTrip, ArrayTrip, ScanField, SchemaOk, StoppedAt, FieldNeed, Zeroed, Need;
    RowTripUnfold(s, text, pos, slots, k, m, r);
    if slots == [] {
      NoNeed();
    } else {
      NeedFirst(slots, |slots|);
      assert slots[..|slots|] == slots && slots[1..][..|slots| - 1] == slots[1..];
      var n := NodeNeed(slots[0].node);
      ZeroParts(text, pos, n, Need(slots[1..]));
      if slots[0].node.Leaf? {
        ZeroField(text, pos, slots[0].node.field, m);
      } else {
        ZeroArray(s, text, pos, slots[0].node.id, k, m);
      }
      if pos + n <= |text| {
        ZeroRow(s, text, pos + n, slots[1..], k, m, r);
      }
    }
  }

  // ----- a late walk takes less -----

  ghost predicate LeavesOk(nodes: seq<Node>) {
    forall p :: 0 <= p < |nodes| && nodes[p].Leaf? ==> FieldOk(nodes[p].field)
  }

  lemma FieldNeeds(f: Field)
    requires FieldOk(f)
    ensures FieldNeed(f) > 0
  {
    if f.Scalar? {
      TimesAtLeast(f.size, f.num);
    }
  }

  lemma TimesAtLeast(a: nat, b: nat)
    requires 1 <= a && 1 <= b
    ensures a * b >= 1
  {
  }

  lemma NeedMore(t: Slot, rest: seq<Slot>)
    ensures Need([t] + rest) == NodeNeed(t.node) + Need(rest)
  {
    assert ([t] + rest)[1..] == rest;
  }

  // One leaf and then the '#': the walk in front of a loop at `it` has one
  // round less before it than at `it` - 1.
  lemma {:induction false} RoundLess(nodes: seq<Node>, c: nat, it: nat)
    requires Flat(nodes) && LeavesOk(nodes) && c <= |nodes| && NextPound(nodes, c) < |nodes|
    requires 0 < it < CountAt(nodes, NextPound(nodes, c))
    ensures Need(Walk(nodes, c, it)) < Need(Walk(nodes, c, it - 1))
    decreases NextPound(nodes, c) - c
  {
    hide Walk, Need, FieldNeed;
    if nodes[c].Pound? {
      NextPoundHere(nodes, c);
      WalkBack(nodes, c, it - 1);
      assert PoundOk(nodes, c);
      RoundTakes(nodes, c - nodes[c].span, it);
    } else {
      WalkLeaf(nodes, c, it);
      WalkLeaf(nodes, c, it - 1);
      NeedMore(Slot(nodes[c], c, it), Walk(nodes, c + 1, it));
      NeedMore(Slot(nodes[c], c, it - 1), Walk(nodes, c + 1, it - 1));
      RoundLess(nodes, c + 1, it);
    }
  }

  // From the first node of a loop to its '#' the walk takes something.
  lemma {:induction false} RoundTakes(nodes: seq<Node>, c: nat, it: nat)
    requires Flat(nodes) && LeavesOk(nodes) && c < |nodes| && it < CountAt(nodes, NextPound(nodes, c))
    requires NextPound(nodes, c) < |nodes| && forall q :: c <= q < NextPound(nodes, c) ==> nodes[q].Leaf?
    ensures NextPound(nodes, NextPound(nodes, c)) == NextPound(nodes, c)
    ensures var here, end := Need(Walk(nodes, c, it)), Need(Walk(nodes, NextPound(nodes, c), it));
      here >= end && (c < NextPound(nodes, c) ==> here > end)
    decreases NextPound(nodes, c) - c
  {
    hide Walk, Need, FieldNeed;
    NextPoundHere(nodes, NextPound(nodes, c));
    if c < NextPound(nodes, c) {
      WalkLeaf(nodes, c, it);
      NeedMore(Slot(nodes[c], c, it), Walk(nodes, c + 1, it));
      FieldNeeds(nodes[c].field);
      RoundTakes(nodes, c + 1, it);
    }
  }

  lemma {:induction false} RoundsLess(nodes: seq<Node>, c: nat, it: nat)
    requires Flat(nodes) && LeavesOk(nodes) && c <= |nodes| && it < CountAt(nodes, NextPound(nodes, c))
    ensures Need(Walk(nodes, c, it)) <= Need(Walk(nodes, c, 0))
    ensures it > 0 ==> Need(Walk(nodes, c, it)) < Need(Walk(nodes, c, 0))
    decreases it
  {
    hide Walk, Need, LeavesOk;
    if it > 0 {
      RoundLess(nodes, c, it);
      RoundsLess(nodes, c, it - 1);
    }
  }

  ghost predicate LaterCounter(nodes: seq<Node>, k: seq<nat>, c: nat)
    requires |k| == |nodes|
  {
    exists p :: c <= p < |k| && k[p] > 0
  }

  lemma {:induction false} LateTakesLess(nodes: seq<Node>, k: seq<nat>, c: nat, it: nat)
    requires Late(nodes, k, c, it) && LeavesOk(nodes)
    ensures it < CountAt(nodes, NextPound(nodes, c)) && Need(LateWalk(nodes, k, c, it)) <= Need(Walk(nodes, c, it))
    ensures LaterCounter(nodes, k, NextPound(nodes, c) + 1) ==> Need(LateWalk(nodes, k, c, it)) < Need(Walk(nodes, c, it))
    decreases |nodes| - NextPound(nodes, c), CountAt(nodes, NextPound(nodes, c)) - it, NextPound(nodes, c) - c
  {
    hide Walk, LateWalk, Need, FieldNeed, LeavesOk, NextPound;
    LateLength(nodes, k, c, it);
    if c == |nodes| {
      LateDone(nodes, k, it);
      NoNeed();
    } else if nodes[c].Pound? {
      LateTurn(nodes, k, c, it);
      LateStepTurn(nodes, k, c, it);
      NextPoundHere(nodes, c);
      if it + 1 < nodes[c].count {
        WalkBack(nodes, c, it);
        LateTakesLess(nodes, k, c - nodes[c].span, it + 1);
      } else {
        WalkPast(nodes, c, it);
        var x := NextCount(nodes, k, c + 1);
        LateTakesLess(nodes, k, c + 1, x);
        RoundsLess(nodes, c + 1, x);
        if LaterCounter(nodes, k, c + 1) {
          NextCounter(nodes, k, c);
        }
      }
    } else {
      LateLeaf(nodes, k, c, it);
      LateStepLeaf(nodes, k, c, it);
      WalkLeaf(nodes, c, it);
      NeedMore(Slot(nodes[c], c, it), Walk(nodes, c + 1, it));
      NeedMore(Slot(nodes[c], c, if InLoop(nodes, c) then it else 0), LateWalk(nodes, k, c + 1, it));
      LateTakesLess(nodes, k, c + 1, it);
    }
  }

  // A counter behind c is the next one or one behind that.
  lemma NextCounter(nodes: seq<Node>, k: seq<nat>, c: nat)
    requires Flat(nodes) && c < |nodes| && RowCounters(nodes, k) && LaterCounter(nodes, k, c + 1)
    ensures NextCount(nodes, k, c + 1) > 0 || LaterCounter(nodes, k, NextPound(nodes, c + 1) + 1)
  {
    hide NextPound;
    var q :| c + 1 <= q < |k| && k[q] > 0;
    assert nodes[q].Pound?;
  }

  // The walk of a row from its leftover counters takes less than the row needs
  // if and only if there is one.
  lemma LateRowTakesLess(s: Schema, r: nat, k: seq<nat>)
    requires SchemaOk(s) && r < |s| && RowCounters(Nodes(s[r]), k) && !RowZero(k)
    ensures Flat(Nodes(s[r])) && Need(LateSlots(Nodes(s[r]), k)) < Need(RowSlots(s, r))
  {
    hide Walk, LateWalk, Need, Slots, Nodes;
    var nodes := Nodes(s[r]);
    FlatNodesOf(s, r);
    WalkVisitsSlots(s[r]);
    LateStart(nodes, k);
    LeavesOfRow(s[r]);
    var x := NextCount(nodes, k, 0);
    LateTakesLess(nodes, k, 0, x);
    RoundsLess(nodes, 0, x);
    var q :| 0 <= q < |k| && k[q] > 0;
    assert nodes[q].Pound?;
    if q > NextPound(nodes, 0) {
      assert LaterCounter(nodes, k, NextPound(nodes, 0) + 1);
    }
  }

  lemma {:induction false} LeavesOfRow(row: Row)
    requires RowOk(row)
    ensures LeavesOk(Nodes(row))
    decreases |row|
  {
    hide Nodes;
    SlotsUnfold(row, 0);
    if row != [] {
      LeavesOfRow(row[1..]);
      assert ItemOk(row[0]);
      assert LeavesOk(NodesOf(row[0]));
    }
  }

  // ----- the image -----

  function ZeroBytes(n: nat): (r: bytes)
    ensures |r| == n
  {
    seq(n, _ => 0)
  }

  // Where row p names array id.
  lemma {:induction false} SlotOfArray(row: Row, base: nat, id: nat)
    requires Array(id) in row
    ensures exists j :: 0 <= j < |Slots(row, base)| && Slots(row, base)[j].node == Ary(id)
    decreases |row|
  {
    hide Slots, Nodes;
    SlotsUnfold(row, base);
    if row[0] == Array(id) {
      assert Slots(row, base)[0].node == Ary(id);
    } else {
      var rest := Slots(row[1..], base + |NodesOf(row[0])|);
      SlotOfArray(row[1..], base + |NodesOf(row[0])|, id);
      var j :| 0 <= j < |rest| && rest[j].node == Ary(id);
      assert Slots(row, base)[|ItemSlots(row[0], base)| + j].node == Ary(id);
    }
  }

  lemma SlotOfRow(s: Schema, parents: seq<Place>, r: nat)
    requires SchemaOk(s) && ParentsOk(s, parents) && 0 < r < |s|
    ensures |parents| == |s| && parents[r].row < r
    ensures exists j :: 0 <= j < |RowSlots(s, parents[r].row)| && RowSlots(s, parents[r].row)[j].node == Ary(r)
  {
    hide Slots, Nodes;
    var p := parents[r];
    assert Nodes(s[p.row])[p.pos] == Ary(r);
    AryOfRow(s[p.row], p.pos);
    SlotOfArray(s[p.row], 0, r);
    var slots := RowSlots(s, p.row);
    var j :| 0 <= j < |slots| && slots[j].node == Ary(r);
  }

  ghost function SlotIndex(s: Schema, parents: seq<Place>, r: nat): (j: nat)
    requires SchemaOk(s) && ParentsOk(s, parents) && 0 < r < |s|
    ensures |parents| == |s| && parents[r].row < r && j < |RowSlots(s, parents[r].row)|
    ensures RowSlots(s, parents[r].row)[j].node == Ary(r)
  {
    SlotOfRow(s, parents, r);
    var j :| 0 <= j < |RowSlots(s, parents[r].row)| && RowSlots(s, parents[r].row)[j].node == Ary(r);
    j
  }

  // What stands in front of the one element of row r when every array on the
  // way to it has one element and all else is zero, and what follows.
  ghost function Front(s: Schema, parents: seq<Place>, r: nat, big: bool): bytes
    requires SchemaOk(s) && ParentsOk(s, parents) && r < |s|
    decreases r
  {
    if r == 0 then []
    else
      var j := SlotIndex(s, parents, r);
      Front(s, parents, parents[r].row, big) + ZeroBytes(Need(RowSlots(s, parents[r].row)[..j])) + Word32(1, big)
  }

  ghost function Behind(s: Schema, parents: seq<Place>, r: nat): nat
    requires SchemaOk(s) && ParentsOk(s, parents) && r < |s|
    decreases r
  {
    if r == 0 then 0
    else
      var j := SlotIndex(s, parents, r);
      Need(RowSlots(s, parents[r].row)[j + 1..]) + Behind(s, parents, parents[r].row)
  }

  // The trip through one element.
  lemma OneElem(s: Schema, text: bytes, pos: nat, id: nat, k: Counters, m: Mode)
    requires SchemaOk(s) && id < |s| && pos + 4 <= |text| && Shape(s, k) && At(text, pos, Word32(1, m.big))
    ensures Flat(Nodes(s[id])) && Above(s, LateSlots(Nodes(s[id]), k[id]), id)
    ensures ArrayTrip(s, text, pos, id, k, m) == RowTrip(s, text, pos + 4, LateSlots(Nodes(s[id]), k[id]), k, m, id)
  {
    hide ArrayTrip, ElemsTrip, RowTrip, ReadWord32, SchemaOk, LateWalk, Nodes, Word32;
    ArrayTripUnfold(s, text, pos, id, k, m);
    CountReadBack(text, pos, 1, m.big);
    OneTurn(s, text, pos + 4, id, k, m);
  }

  lemma OneTurn(s: Schema, text: bytes, pos: nat, id: nat, k: Counters, m: Mode)
    requires SchemaOk(s) && id < |s| && pos <= |text| && Shape(s, k)
    ensures Flat(Nodes(s[id])) && Above(s, LateSlots(Nodes(s[id]), k[id]), id)
    ensures ElemsTrip(s, text, pos, id, 1, k, m) == RowTrip(s, text, pos, LateSlots(Nodes(s[id]), k[id]), k, m, id)
  {
    hide ElemsTrip, RowTrip, SchemaOk, LateWalk, Nodes;
    ElemsTripUnfold(s, text, pos, id, 1, k, m);
    var one := RowTrip(s, text, pos, LateSlots(Nodes(s[id]), k[id]), k, m, id);
    if one.end.Some? {
      ElemsTripUnfold(s, text, one.end.value, id, 0, one.counters, m);
    }
  }

  // The end of a trip through row r decides where the whole trip ends: zero
  // bytes follow, as many as the rows above still take.
  ghost function Onward(text: bytes, end: Option<nat>, more: nat): Option<nat> {
    if end.Some? && end.value + more <= |text| then Some(end.value + more) else None
  }

  ghost function RowEnd(s: Schema, text: bytes, pos: nat, k: Counters, m: Mode, r: nat): (end: Option<nat>)
    requires SchemaOk(s) && r < |s| && pos <= |text| && Shape(s, k)
    ensures end.Some? ==> pos <= end.value <= |text|
  {
    LateAbove(s, r, k[r]);
    RowTrip(s, text, pos, LateSlots(Nodes(s[r]), k[r]), k, m, r).end
  }

  lemma {:induction false} WholeTrip(s: Schema, parents: seq<Place>, text: bytes, h: nat, r: nat, k: Counters, m: Mode)
    requires SchemaOk(s) && ParentsOk(s, parents) && r < |s| && Shape(s, k)
    requires forall q :: 0 <= q < r ==> RowZero(k[q])
    requires h + |Front(s, parents, r, m.big)| <= |text| && At(text, h, Front(s, parents, r, m.big))
    requires var end := RowEnd(s, text, h + |Front(s, parents, r, m.big)|, k, m, r);
      end.Some? ==> Zeroed(text, end.value, |text|)
    ensures ElemsTrip(s, text, h, 0, 1, k, m).end
      == Onward(text, RowEnd(s, text, h + |Front(s, parents, r, m.big)|, k, m, r), Behind(s, parents, r))
    decreases r
  {
    hide SchemaOk, ParentsOk, RowEnd, ElemsTrip, RowTrip, RowZero, At, Word32, Zeroed, Need, Slots, LateWalk, Nodes, Front, Behind;
    FrontUnfold(s, parents, r, m.big);
    if r == 0 {
      RowEndIs(s, text, h, k, m, 0);
      OneTurn(s, text, h, 0, k, m);
    } else {
      var p := parents[r].row;
      var j := SlotIndex(s, parents, r);
      var front := Front(s, parents, p, m.big);
      var a := RowSlots(s, p)[..j];
      var gap := ZeroBytes(Need(a));
      AtThree(text, h, front, gap, Word32(1, m.big));
      ParentTrip(s, text, h + |front|, r, p, j, k, m);
      WholeTrip(s, parents, text, h, p, k, m);
    }
  }

  lemma AtThree(text: bytes, h: nat, a: bytes, b: bytes, c: bytes)
    requires At(text, h, a + b + c)
    ensures h + |a| + |b| + |c| <= |text| && |a + b + c| == |a| + |b| + |c|
    ensures At(text, h, a) && At(text, h + |a|, b) && At(text, h + |a| + |b|, c)
  {
    hide At;
    AtSplit(text, h, a + b, c);
    AtSplit(text, h, a, b);
    AtFits(text, h + |a| + |b|, c);
  }

  lemma AtFits(text: bytes, h: nat, a: bytes)
    requires At(text, h, a)
    ensures h + |a| <= |text|
  {
  }

  lemma FrontUnfold(s: Schema, parents: seq<Place>, r: nat, big: bool)
    requires SchemaOk(s) && ParentsOk(s, parents) && r < |s|
    ensures r == 0 ==> Front(s, parents, r, big) == [] && Behind(s, parents, r) == 0
    ensures r > 0 ==>
      var j := SlotIndex(s, parents, r); var p := parents[r].row;
      && Front(s, parents, r, big) == Front(s, parents, p, big) + ZeroBytes(Need(RowSlots(s, p)[..j])) + Word32(1, big)
      && Behind(s, parents, r) == Need(RowSlots(s, p)[j + 1..]) + Behind(s, parents, p)
  {
    hide SchemaOk, ParentsOk, Need, Slots, Word32;
  }

  lemma RowEndIs(s: Schema, text: bytes, pos: nat, k: Counters, m: Mode, r: nat)
    requires SchemaOk(s) && r < |s| && pos <= |text| && Shape(s, k)
    ensures Flat(Nodes(s[r])) && Above(s, LateSlots(Nodes(s[r]), k[r]), r)
    ensures RowEnd(s, text, pos, k, m, r) == RowTrip(s, text, pos, LateSlots(Nodes(s[r]), k[r]), k, m, r).end
  {
    hide SchemaOk, RowTrip, LateWalk, Nodes;
    LateAbove(s, r, k[r]);
  }

  lemma ZeroFrom(text: bytes, pos: nat, n: nat)
    requires pos + n <= |text| && At(text, pos, ZeroBytes(n))
    ensures Zeroed(text, pos, n)
  {
    forall i | pos <= i < pos + n ensures text[i] == 0 {
      assert text[i] == text[pos..pos + n][i - pos];
    }
  }

  lemma ZeroOn(text: bytes, pos: nat, n: nat)
    requires Zeroed(text, pos, |text|)
    ensures Zeroed(text, pos, n) && Zeroed(text, pos + n, |text|)
  {
  }

  // The row above: zero bytes up to the array, its one element, zero bytes.
  lemma ParentTrip(s: Schema, text: bytes, pos: nat, r: nat, p: nat, j: nat, k: Counters, m: Mode)
    requires SchemaOk(s) && p < r < |s| && Shape(s, k) && RowZero(k[p])
    requires j < |RowSlots(s, p)| && RowSlots(s, p)[j].node == Ary(r)
    requires pos + Need(RowSlots(s, p)[..j]) + 4 <= |text|
    requires At(text, pos, ZeroBytes(Need(RowSlots(s, p)[..j]))) && At(text, pos + Need(RowSlots(s, p)[..j]), Word32(1, m.big))
    requires var end := RowEnd(s, text, pos + Need(RowSlots(s, p)[..j]) + 4, k, m, r); end.Some? ==> Zeroed(text, end.value, |text|)
    ensures RowEnd(s, text, pos, k, m, p)
      == Onward(text, RowEnd(s, text, pos + Need(RowSlots(s, p)[..j]) + 4, k, m, r), Need(RowSlots(s, p)[j + 1..]))
    ensures RowEnd(s, text, pos, k, m, p).Some? ==> Zeroed(text, RowEnd(s, text, pos, k, m, p).value, |text|)
  {
    hide SchemaOk, RowEnd, ElemsTrip, RowTrip, ArrayTrip, RowZero, At, Word32, Zeroed, Need, Slots, LateWalk, Nodes;
    var slots := RowSlots(s, p);
    var mid := pos + Need(slots[..j]);
    LateSlotsFromZero(s, p, k[p]);
    NoPounds(s, p);
    RowEndIs(s, text, pos, k, m, p);
    ZeroFrom(text, pos, Need(slots[..j]));
    ZeroPass(s, text, pos, slots, j, k, m, p);
    RowTripUnfold(s, text, mid, slots[j..], k, m, p);
    OneElem(s, text, mid, r, k, m);
    RowEndIs(s, text, mid + 4, k, m, r);
    var a := ArrayTrip(s, text, mid, r, k, m);
    if a.end.Some? {
      assert slots[j..][1..] == slots[j + 1..];
      ZeroOn(text, a.end.value, Need(slots[j + 1..]));
      ZeroRow(s, text, a.end.value, slots[j + 1..], a.counters, m, p);
    }
  }

  // ----- the theorem -----

  // The image that gets through: one element of row r with the fields its
  // walk still visits, zero bytes throughout.
  ghost function ShortImage(s: Schema, parents: seq<Place>, fmt: bytes, fxlens: seq<nat>, r: nat, k: Counters, big: bool, size: nat): bytes
    requires SchemaOk(s) && ParentsOk(s, parents) && r < |s| && Shape(s, k) && size < TWO_TO_THE_32
    requires forall j :: 0 <= j < |fxlens| ==> fxlens[j] < TWO_TO_THE_31
  {
    FlatNodesOf(s, r);
    Preamble(fmt, fxlens, size, big) + Front(s, parents, r, big)
    + ZeroBytes(Need(LateSlots(Nodes(s[r]), k[r])) + Behind(s, parents, r))
  }

  ghost function ShortSize(s: Schema, parents: seq<Place>, fmt: bytes, fxlens: seq<nat>, r: nat, k: Counters, big: bool): nat
    requires SchemaOk(s) && ParentsOk(s, parents) && r < |s| && Shape(s, k)
  {
    FlatNodesOf(s, r);
    HeaderSize(fmt, fxlens) + |Front(s, parents, r, big)| + Need(LateSlots(Nodes(s[r]), k[r])) + Behind(s, parents, r)
  }

  lemma ShortHeader(fmt: bytes, fxlens: seq<nat>, size: nat, data: bytes, big: bool, excess: bool)
    requires forall j :: 0 <= j < |fxlens| ==> fxlens[j] < TWO_TO_THE_31
    requires size < TWO_TO_THE_32 && (excess || size == HeaderSize(fmt, fxlens) + |data|)
    ensures HeaderMatches(fmt, fxlens, Preamble(fmt, fxlens, size, big) + data, big, excess)
  {
    hide At, LensMatch, Preamble, LenWords, Word32, ReadWord32;
    var text := Preamble(fmt, fxlens, size, big) + data;
    WholeAt(Preamble(fmt, fxlens, size, big), data);
    PreambleParts(text, fmt, fxlens, size, big);
    LensReadBack(text, 8 + |fmt| + 1, fxlens, big);
    CountReadBack(text, 4, size, big);
    AtFirst(text, fmt, big);
  }

  lemma ShortParts(text: bytes, pre: bytes, front: bytes, zeros: bytes)
    requires text == pre + (front + zeros)
    ensures |text| == |pre| + |front| + |zeros|
    ensures At(text, |pre|, front) && At(text, |pre| + |front|, zeros)
  {
    hide At;
    WholeAt(pre, front + zeros);
    AtSplit(text, |pre|, front, zeros);
  }

  lemma ZeroToEnd(text: bytes, pos: nat, n: nat)
    requires pos + n == |text| && Zeroed(text, pos, n)
    ensures Zeroed(text, pos, |text|)
  {
  }

  // Zero bytes behind the front of row r: the whole trip ends where the
  // slots of row r and of the rows above end, if the text goes so far.
  lemma ShortEnds(s: Schema, parents: seq<Place>, text: bytes, h: nat, r: nat, k: Counters, m: Mode)
    requires SchemaOk(s) && ParentsOk(s, parents) && r < |s| && Shape(s, k)
    requires forall q :: 0 <= q < r ==> RowZero(k[q])
    requires h + |Front(s, parents, r, m.big)| <= |text| && At(text, h, Front(s, parents, r, m.big))
    requires Zeroed(text, h + |Front(s, parents, r, m.big)|, |text|)
    ensures Flat(Nodes(s[r]))
    ensures var end := h + |Front(s, parents, r, m.big)| + Need(LateSlots(Nodes(s[r]), k[r])) + Behind(s, parents, r);
      ElemsTrip(s, text, h, 0, 1, k, m).end == if end <= |text| then Some(end) else None
  {
    hide SchemaOk, ParentsOk, RowEnd, ElemsTrip, RowTrip, RowZero, At, Zeroed, Need, Slots, LateWalk, Nodes, Front, Behind;
    var pos := h + |Front(s, parents, r, m.big)|;
    RowEndIs(s, text, pos, k, m, r);
    LateNoPounds(s, r, k[r]);
    var slots := LateSlots(Nodes(s[r]), k[r]);
    ZeroOn(text, pos, Need(slots));
    ZeroRow(s, text, pos, slots, k, m, r);
    WholeTrip(s, parents, text, h, r, k, m);
  }

  lemma LateNoPounds(s: Schema, r: nat, k: seq<nat>)
    requires SchemaOk(s) && r < |s| && |k| == |Nodes(s[r])|
    ensures Flat(Nodes(s[r]))
    ensures forall j :: 0 <= j < |LateSlots(Nodes(s[r]), k)| ==> !LateSlots(Nodes(s[r]), k)[j].node.Pound?
  {
    hide Nodes, LateWalk;
    LateLoops(s, r, k);
  }

  function AllZeros(k: Counters): (z: Counters)
    ensures |z| == |k| && AllZero(z)
    ensures forall r :: 0 <= r < |k| ==> |z[r]| == |k[r]| && RowZero(z[r])
  {
    seq(|k|, r requires 0 <= r < |k| => Zeros(|k[r]|))
  }

  lemma AcceptsByTrip(s: Schema, fmt: bytes, fxlens: seq<nat>, text: bytes, k: Counters, m: Mode, excess: bool)
    requires SchemaOk(s) && Shape(s, k) && HeaderMatches(fmt, fxlens, text, m.big, excess)
    ensures HeaderSize(fmt, fxlens) <= |text|
    ensures var end := ElemsTrip(s, text, HeaderSize(fmt, fxlens), 0, 1, k, m).end;
      AcceptsFrom(s, fmt, fxlens, text, k, m, excess) <==> end.Some? && (excess || end.value == |text|)
  {
    hide SchemaOk, ElemsTrip, HeaderMatches;
    HeaderFits(fmt, fxlens, text, m.big, excess);
  }

  // With a counter left over in row r and none in the rows above, the short
  // image is accepted, and its data are not well formed.
  lemma ShortIsAccepted(s: Schema, parents: seq<Place>, fmt: bytes, fxlens: seq<nat>, r: nat, k: Counters, m: Mode, size: nat, excess: bool)
    requires SchemaOk(s) && ParentsOk(s, parents) && r < |s| && Shape(s, k) && size < TWO_TO_THE_32
    requires forall j :: 0 <= j < |fxlens| ==> fxlens[j] < TWO_TO_THE_31
    requires (forall q :: 0 <= q < r ==> RowZero(k[q])) && !RowZero(k[r]) && RowCounters(Nodes(s[r]), k[r])
    requires excess || size == ShortSize(s, parents, fmt, fxlens, r, k, m.big)
    ensures var text := ShortImage(s, parents, fmt, fxlens, r, k, m.big, size);
      AcceptsFrom(s, fmt, fxlens, text, k, m, excess) && !Accepts(s, fmt, fxlens, text, m, excess)
  {
    hide SchemaOk, ParentsOk, RowEnd, ElemsTrip, RowZero, RowCounters, At, Zeroed, Need, Slots, LateWalk, Nodes, Front, Behind, HeaderMatches, Preamble, Shape, Accepts, AcceptsFrom;
    var text := ShortImage(s, parents, fmt, fxlens, r, k, m.big, size);
    var h := HeaderSize(fmt, fxlens);
    FlatNodesOf(s, r);
    ShapeAt(s, k, r);
    var front := Front(s, parents, r, m.big);
    var late := Need(LateSlots(Nodes(s[r]), k[r]));
    var zeros := ZeroBytes(late + Behind(s, parents, r));
    var pre := Preamble(fmt, fxlens, size, m.big);
    assert text == pre + (front + zeros);
    ShortHeader(fmt, fxlens, size, front + zeros, m.big, excess);
    ShortParts(text, pre, front, zeros);
    var pos := h + |front|;
    ZeroFrom(text, pos, |zeros|);
    ZeroToEnd(text, pos, |zeros|);
    ShortEnds(s, parents, text, h, r, k, m);
    LateRowTakesLess(s, r, k[r]);
    var z := AllZeros(k);
    SameShape(s, k, z);
    ShortEnds(s, parents, text, h, r, z, m);
    LateSlotsFromZero(s, r, z[r]);
    FromZero(s, fmt, fxlens, text, z, m, excess);
    AcceptsByTrip(s, fmt, fxlens, text, k, m, excess);
    AcceptsByTrip(s, fmt, fxlens, text, z, m, excess);
  }

  lemma SameShape(s: Schema, k: Counters, z: Counters)
    requires Shape(s, k) && |z| == |k| && forall r :: 0 <= r < |k| ==> |z[r]| == |k[r]|
    ensures Shape(s, z)
  {
  }

  // The first row with a counter left over.
  lemma {:induction false} FirstLeft(k: Counters, n: nat) returns (r: nat)
    requires n < |k| && forall q :: 0 <= q < n ==> RowZero(k[q])
    requires !AllZero(k)
    ensures n <= r < |k| && !RowZero(k[r]) && forall q :: 0 <= q < r ==> RowZero(k[q])
    decreases |k| - n
  {
    hide RowZero;
    r := n;
    if RowZero(k[n]) {
      r := FirstLeft(k, n + 1);
    }
  }

  // tpl_load accepts only images whose data are well formed if and only if no
  // '#' counter is left over.
  lemma AcceptsOnlyWellFormed(s: Schema, parents: seq<Place>, fmt: bytes, fxlens: seq<nat>, rows: seq<seq<Cursor>>, m: Mode)
    requires SchemaOk(s) && ParentsOk(s, parents) && FmtOk(s, fmt, fxlens) && InRange(s, rows) && 0 < |s|
    ensures AtRest(s, rows) <==> forall text: bytes :: AcceptsAt(s, fmt, fxlens, text, rows, m, true) ==> Accepts(s, fmt, fxlens, text, m, true)
  {
    hide SchemaOk, ParentsOk, FmtOk, RowInRange, RowAtRest, AcceptsAt, Accepts, AllZero, RowZero, RowCounters, Nodes;
    ZeroAtRest(s, rows);
    if AtRest(s, rows) {
      forall text: bytes | AcceptsAt(s, fmt, fxlens, text, rows, m, true) ensures Accepts(s, fmt, fxlens, text, m, true) {
        AcceptsAtRest(s, fmt, fxlens, text, rows, m, true);
      }
    } else {
      var k := Counts(rows);
      CountsFit(s, rows);
      var r := FirstLeft(k, 0);
      LensAreInts(s, fmt, fxlens);
      ShortIsAccepted(s, parents, fmt, fxlens, r, k, m, 0, true);
      AcceptsAtIs(s, fmt, fxlens, ShortImage(s, parents, fmt, fxlens, r, k, m.big, 0), rows, m, true);
    }
  }

  lemma AcceptsAtIs(s: Schema, fmt: bytes, fxlens: seq<nat>, text: bytes, rows: seq<seq<Cursor>>, m: Mode, excess: bool)
    requires SchemaOk(s) && InRange(s, rows)
    ensures Shape(s, Counts(rows))
    ensures AcceptsAt(s, fmt, fxlens, text, rows, m, excess) <==> AcceptsFrom(s, fmt, fxlens, text, Counts(rows), m, excess)
  {
    hide SchemaOk, InRange, AcceptsFrom;
    CountsFit(s, rows);
  }

  // A load on a tpl at rest leaves it at rest exactly when the image is refused
  // by its header, has data that fit, or stops fitting in the first iteration
  // of a loop.
  lemma RestAfterLoad(s: Schema, fmt: bytes, fxlens: seq<nat>, rows: seq<seq<Cursor>>, text: bytes, m: Mode, excess: bool, after: seq<seq<Cursor>>)
    requires SchemaOk(s) && AtRest(s, rows) && 0 < |s|
    requires InRange(s, rows) && After(rows, after, LeftBy(s, fmt, fxlens, text, rows, m, excess)) && InRange(s, after)
    ensures AtRest(s, after) <==> !HeaderMatches(fmt, fxlens, text, m.big, excess) || LeavesNone(DataMisfit(s, fmt, fxlens, text, m))
  {
    hide SchemaOk, RowInRange, RowAtRest, AllZero, HeaderMatches, LeavesNone, RowMisfit;
    CountsFit(s, rows);
    RestInRange(s, rows);
    FromZero(s, fmt, fxlens, text, Counts(rows), m, excess);
    CountedTwice(rows, LeftBy(s, fmt, fxlens, text, rows, m, excess), Counts(rows));
    ZeroAtRest(s, after);
  }

  // So these are exactly the loads after which tpl_load is still to be trusted.
  lemma NextLoadIsSafe(s: Schema, parents: seq<Place>, fmt: bytes, fxlens: seq<nat>, rows: seq<seq<Cursor>>, text: bytes, m: Mode, excess: bool,
                       after: seq<seq<Cursor>>, next: Mode)
    requires SchemaOk(s) && ParentsOk(s, parents) && FmtOk(s, fmt, fxlens) && AtRest(s, rows) && 0 < |s|
    requires InRange(s, rows) && After(rows, after, LeftBy(s, fmt, fxlens, text, rows, m, excess)) && InRange(s, after)
    ensures (!HeaderMatches(fmt, fxlens, text, m.big, excess) || LeavesNone(DataMisfit(s, fmt, fxlens, text, m)))
      <==> forall image: bytes :: AcceptsAt(s, fmt, fxlens, image, after, next, true) ==> Accepts(s, fmt, fxlens, image, next, true)
  {
    hide SchemaOk, ParentsOk, FmtOk, InRange, After, AtRest, AcceptsAt, Accepts, HeaderMatches, LeavesNone, RowMisfit;
    RestAfterLoad(s, fmt, fxlens, rows, text, m, excess, after);
    AcceptsOnlyWellFormed(s, parents, fmt, fxlens, after, next);
  }

  // ----- the same image loaded twice -----

  // S(i)# with two records, on a host that wrote or did not write the image.
  const PAIR: Schema := [[Struct([Scalar(4, 1)], 2, 4)]]
  const PAIR_FMT: bytes := [83, 40, 105, 41, 35]

  ghost function OneRecord(record: bytes, big: bool): bytes
    requires |record| == 4
  {
    Preamble(PAIR_FMT, [2], 22, big) + record
  }

  lemma PairNodes()
    ensures SchemaOk(PAIR) && Nodes(PAIR[0]) == [Leaf(Scalar(4, 1)), Pound(1, 2, 4)] && Flat(Nodes(PAIR[0]))
    ensures NextPound(Nodes(PAIR[0]), 0) == 1 && NextPound(Nodes(PAIR[0]), 1) == 1 && NextPound(Nodes(PAIR[0]), 2) == 2
  {
    SlotsUnfold(PAIR[0], 0);
    SlotsUnfold(PAIR[0][1..], 0);
    assert Leaves([Scalar(4, 1)]) == [Leaf(Scalar(4, 1))];
    FlatNodesOf(PAIR, 0);
  }

  lemma PairShapes()
    ensures Shape(PAIR, [[0, 0]]) && Shape(PAIR, [[0, 1]]) && AllZero([[0, 0]])
  {
    hide Nodes;
    PairNodes();
  }

  lemma PairWalks()
    ensures SchemaOk(PAIR) && Flat(Nodes(PAIR[0])) && |Nodes(PAIR[0])| == 2
    ensures var t0 := Slot(Leaf(Scalar(4, 1)), 0, 0); var t1 := Slot(Leaf(Scalar(4, 1)), 0, 1);
      LateSlots(Nodes(PAIR[0]), [0, 0]) == [t0, t1] && LateSlots(Nodes(PAIR[0]), [0, 1]) == [t1]
    ensures StoppedAt(Nodes(PAIR[0]), [0, 0], Slot(Leaf(Scalar(4, 1)), 0, 1)) == [0, 1]
  {
    hide Nodes, LateWalk;
    PairNodes();
    var nodes := Nodes(PAIR[0]);
    LateLeaf(nodes, [0, 0], 0, 0);
    LateTurn(nodes, [0, 0], 1, 0);
    LateLeaf(nodes, [0, 0], 0, 1);
    LateTurn(nodes, [0, 0], 1, 1);
    LateDone(nodes, [0, 0], 0);
    LateLeaf(nodes, [0, 1], 0, 1);
    LateTurn(nodes, [0, 1], 1, 1);
    LateDone(nodes, [0, 1], 0);
  }

  // An image with one record is rejected by a fresh tpl, accepted when the same
  // bytes are loaded again, and its data still end before the second record.
  lemma AcceptedTheSecondTime(record: bytes, m: Mode)
    requires |record| == 4
    ensures SchemaOk(PAIR) && Shape(PAIR, [[0, 0]]) && Shape(PAIR, [[0, 1]])
    ensures var image := OneRecord(record, m.big);
      && !AcceptsFrom(PAIR, PAIR_FMT, [2], image, [[0, 0]], m, false)
      && CountersAfter(PAIR, PAIR_FMT, [2], image, [[0, 0]], m, false) == [[0, 1]]
      && AcceptsFrom(PAIR, PAIR_FMT, [2], image, [[0, 1]], m, false)
      && HeaderSize(PAIR_FMT, [2]) <= |image| && DataScan(PAIR, PAIR_FMT, [2], image, m) == Bad
  {
    hide Nodes, LateWalk, SchemaOk, HeaderMatches, Preamble, ScanVals, RowTrip, ElemsTrip, StoppedAt, Slots, RowMisfit;
    var image := OneRecord(record, m.big);
    PairNodes();
    PairShapes();
    PairWalks();
    assert HeaderSize(PAIR_FMT, [2]) == 18 && |image| == 22;
    ShortHeader(PAIR_FMT, [2], 22, record, m.big, false);
    var t0, t1 := Slot(Leaf(Scalar(4, 1)), 0, 0), Slot(Leaf(Scalar(4, 1)), 0, 1);
    OneTurn(PAIR, image, 18, 0, [[0, 0]], m);
    OneTurn(PAIR, image, 18, 0, [[0, 1]], m);
    ZeroWords(image, 18, 4, 1, m.swap);
    ZeroWords(image, 22, 4, 1, m.swap);
    RowTripUnfold(PAIR, image, 18, [t0, t1], [[0, 0]], m, 0);
    RowTripUnfold(PAIR, image, 22, [t1], [[0, 0]], m, 0);
    RowTripUnfold(PAIR, image, 18, [t1], [[0, 1]], m, 0);
    RowTripUnfold(PAIR, image, 22, [], [[0, 1]], m, 0);
    assert [t1][1..] == [];
    assert ElemsTrip(PAIR, image, 18, 0, 1, [[0, 1]], m).end == Some(22);
    AcceptsByTrip(PAIR, PAIR_FMT, [2], image, [[0, 1]], m, false);
    FromZero(PAIR, PAIR_FMT, [2], image, [[0, 0]], m, false);
  }
}
