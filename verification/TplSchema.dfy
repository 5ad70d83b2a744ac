// The node table tpl_map_va builds from a format string. Row 0 is the root,
// row k > 0 is the k-th A(...) in order of appearance (the tpl_pidx index).
module TplSchema {
  import opened Bytes

  // An atom: a number (size bytes, num of them), a string array, a buffer.
  datatype Field = Scalar(size: nat, num: nat) | Text(num: nat) | Blob

  // What a row is made of: an atom, a structure repeated by '#', a nested A(...).
  datatype Item = Atom(field: Field) | Struct(fields: seq<Field>, count: nat, stride: int) | Array(id: nat)

  type Row = seq<Item>
  type Schema = seq<Row>

  // The children list of a node. A '#' after a structure is a node of its own,
  // which sends the walk back over the `span` nodes before it.
  datatype Node = Leaf(field: Field) | Ary(id: nat) | Pound(span: nat, count: nat, stride: int)

  predicate FieldOk(f: Field) {
    match f
    case Scalar(size, num) => 1 <= size && 1 <= num
    case Text(num) => 1 <= num
    case Blob => true
  }

  predicate ItemOk(item: Item) {
    match item
    case Atom(f) => FieldOk(f)
    case Struct(fs, count, _) => 1 <= |fs| && 1 <= count && forall f :: f in fs ==> FieldOk(f) && f != Blob
    case Array(_) => true
  }

  predicate RowOk(row: Row) {
    forall k :: 0 <= k < |row| ==> ItemOk(row[k])
  }

  // Arrays are numbered after the row that holds them.
  ghost predicate SchemaOk(s: Schema) {
    && |s| > 0
    && (forall r :: 0 <= r < |s| ==> s[r] != [] && RowOk(s[r]))
    && (forall r, k :: 0 <= r < |s| && 0 <= k < |s[r]| && s[r][k].Array? ==> r < s[r][k].id < |s|)
    && (forall r, j, k :: 0 <= r < |s| && 0 <= j < k < |s[r]| && s[r][j].Array? && s[r][k].Array? ==> s[r][j].id != s[r][k].id)
  }

  function Leaves(fs: seq<Field>): (r: seq<Node>)
    ensures |r| == |fs|
  {
    seq(|fs|, j requires 0 <= j < |fs| => Leaf(fs[j]))
  }

  function NodesOf(item: Item): seq<Node> {
    match item
    case Atom(f) => [Leaf(f)]
    case Array(id) => [Ary(id)]
    case Struct(fs, count, stride) => Leaves(fs) + [Pound(|fs|, count, stride)]
  }

  function Nodes(row: Row): seq<Node> {
    if row == [] then [] else NodesOf(row[0]) + Nodes(row[1..])
  }

  // One visit of a walk: the node, its place in the children list, and the
  // iteration of the enclosing '#' loop.
  datatype Slot = Slot(node: Node, pos: nat, iter: nat)

  function Pass(fs: seq<Field>, base: nat, k: nat): (r: seq<Slot>)
    ensures |r| == |fs|
  {
    seq(|fs|, j requires 0 <= j < |fs| => Slot(Leaf(fs[j]), base + j, k))
  }

  function Passes(fs: seq<Field>, base: nat, k: nat, count: nat): seq<Slot>
    decreases count - k
  {
    if k >= count then [] else Pass(fs, base, k) + Passes(fs, base, k + 1, count)
  }

  // The visits an item calls for: a structure is laid out iteration by iteration.
  function ItemSlots(item: Item, base: nat): seq<Slot> {
    match item
    case Atom(f) => [Slot(Leaf(f), base, 0)]
    case Array(id) => [Slot(Ary(id), base, 0)]
    case Struct(fs, count, _) => Passes(fs, base, 0, count)
  }

  function Slots(row: Row, base: nat): seq<Slot> {
    if row == [] then []
    else ItemSlots(row[0], base) + Slots(row[1..], base + |NodesOf(row[0])|)
  }

  lemma SlotsUnfold(row: Row, base: nat)
    ensures row == [] ==> Slots(row, base) == [] && Nodes(row) == []
    ensures row != [] ==> Nodes(row) == NodesOf(row[0]) + Nodes(row[1..])
    ensures row != [] ==> Slots(row, base) == ItemSlots(row[0], base) + Slots(row[1..], base + |NodesOf(row[0])|)
  {
  }

  // ----- the loop the C code runs: c = c->next, except at a '#' node -----

  predicate Flat(nodes: seq<Node>) {
    forall p :: 0 <= p < |nodes| ==> PoundOk(nodes, p)
  }

  predicate PoundOk(nodes: seq<Node>, p: nat)
    requires p < |nodes|
  {
    nodes[p].Pound? ==>
      && 1 <= nodes[p].span <= p && 1 <= nodes[p].count
      && forall q :: p - nodes[p].span <= q < p ==> nodes[q].Leaf?
  }

  // The '#' node the walk meets next, or the end of the list.
  function NextPound(nodes: seq<Node>, c: nat): (p: nat)
    requires c <= |nodes|
    ensures c <= p <= |nodes|
    ensures forall q :: c <= q < p ==> !nodes[q].Pound?
    ensures p < |nodes| ==> nodes[p].Pound?
    decreases |nodes| - c
  {
    if c == |nodes| || nodes[c].Pound? then c else NextPound(nodes, c + 1)
  }

  ghost function CountAt(nodes: seq<Node>, p: nat): (n: nat)
    requires Flat(nodes)
    ensures 1 <= n
  {
    if p < |nodes| && nodes[p].Pound? then assert PoundOk(nodes, p); nodes[p].count else 1
  }

  // What is left to visit at node c when the counter of the next '#' reads it.
  ghost function Walk(nodes: seq<Node>, c: nat, it: nat): seq<Slot>
    requires Flat(nodes) && c <= |nodes| && it < CountAt(nodes, NextPound(nodes, c))
    decreases |nodes| - NextPound(nodes, c), CountAt(nodes, NextPound(nodes, c)) - it, NextPound(nodes, c) - c
  {
    if c == |nodes| then []
    else if nodes[c].Pound? then
      if it + 1 < nodes[c].count then
        assert PoundOk(nodes, c);
        NextPoundBack(nodes, c);
        Walk(nodes, c - nodes[c].span, it + 1)
      else
        Walk(nodes, c + 1, 0)
    else
      [Slot(nodes[c], c, it)] + Walk(nodes, c + 1, it)
  }

  lemma NextPoundBack(nodes: seq<Node>, c: nat)
    requires c < |nodes| && nodes[c].Pound? && PoundOk(nodes, c)
    ensures NextPound(nodes, c - nodes[c].span) == c
  {
    NextPoundAt(nodes, c - nodes[c].span, c);
  }

  lemma {:induction false} NextPoundAt(nodes: seq<Node>, c: nat, p: nat)
    requires c <= p < |nodes| && nodes[p].Pound?
    requires forall q :: c <= q < p ==> !nodes[q].Pound?
    ensures NextPound(nodes, c) == p
    decreases p - c
  {
    if c < p {
      NextPoundAt(nodes, c + 1, p);
    }
  }

  lemma FlatNodes(row: Row)
    requires RowOk(row)
    ensures Flat(Nodes(row))
  {
    if row != [] {
      FlatNodes(row[1..]);
      FlatJoin(row[0], Nodes(row[1..]));
    }
  }

  lemma FlatJoin(item: Item, b: seq<Node>)
    requires ItemOk(item) && Flat(b)
    ensures Flat(NodesOf(item) + b)
  {
    var a := NodesOf(item);
    var ab := a + b;
    forall p | 0 <= p < |ab| ensures PoundOk(ab, p) {
      if p < |a| {
        assert ab[p] == a[p];
        if ab[p].Pound? {
          assert forall q :: 0 <= q < p ==> ab[q] == a[q];
        }
      } else {
        assert ab[p] == b[p - |a|] && PoundOk(b, p - |a|);
        if ab[p].Pound? {
          var s := ab[p].span;
          forall q | p - s <= q < p ensures ab[q].Leaf? {
            assert ab[q] == b[q - |a|];
          }
        }
      }
    }
    assert forall p :: 0 <= p < |ab| ==> PoundOk(ab, p);
  }

  // The jump-back walk visits exactly the slots of the row, in order: field j
  // of iteration k comes after all of iteration k - 1.
  lemma WalkVisitsSlots(row: Row)
    requires RowOk(row)
    ensures Flat(Nodes(row))
    ensures Walk(Nodes(row), 0, 0) == Slots(row, 0)
  {
    FlatNodes(row);
    WalkFrom(Nodes(row), 0, row);
  }

  // One step of the walk, as the code takes it.
  lemma WalkLeaf(nodes: seq<Node>, c: nat, it: nat)
    requires Flat(nodes) && c < |nodes| && !nodes[c].Pound? && it < CountAt(nodes, NextPound(nodes, c))
    ensures NextPound(nodes, c + 1) == NextPound(nodes, c)
    ensures Walk(nodes, c, it) == [Slot(nodes[c], c, it)] + Walk(nodes, c + 1, it)
  {
  }

  lemma WalkBack(nodes: seq<Node>, c: nat, it: nat)
    requires Flat(nodes) && c < |nodes| && nodes[c].Pound? && it + 1 < nodes[c].count
    ensures nodes[c].span <= c && NextPound(nodes, c - nodes[c].span) == c
    ensures Walk(nodes, c, it) == Walk(nodes, c - nodes[c].span, it + 1)
  {
    assert PoundOk(nodes, c);
    NextPoundBack(nodes, c);
  }

  lemma WalkPast(nodes: seq<Node>, c: nat, it: nat)
    requires Flat(nodes) && c < |nodes| && nodes[c].Pound? && it + 1 == nodes[c].count
    ensures Walk(nodes, c, it) == Walk(nodes, c + 1, 0)
  {
  }

  lemma WalkDone(nodes: seq<Node>)
    requires Flat(nodes)
    ensures Walk(nodes, |nodes|, 0) == []
  {
  }

  lemma {:induction false} WalkFrom(nodes: seq<Node>, c: nat, row: Row)
    requires RowOk(row) && Flat(nodes) && c <= |nodes| && nodes[c..] == Nodes(row)
    ensures Walk(nodes, c, 0) == Slots(row, c)
    decreases |row|
  {
    hide Walk, Slots, Nodes, NodesOf, ItemSlots, NextPound;
    SlotsUnfold(row, c);
    if row == [] {
      WalkDone(nodes);
    } else {
      var here, rest := NodesOf(row[0]), Nodes(row[1..]);
      SuffixStep(nodes, c, here, rest);
      WalkFrom(nodes, c + |here|, row[1..]);
      WalkItem(nodes, c, row[0]);
    }
  }

  lemma WalkItem(nodes: seq<Node>, c: nat, item: Item)
    requires ItemOk(item) && Flat(nodes) && c + |NodesOf(item)| <= |nodes|
    requires forall k :: 0 <= k < |NodesOf(item)| ==> nodes[c + k] == NodesOf(item)[k]
    ensures Walk(nodes, c, 0) == ItemSlots(item, c) + Walk(nodes, c + |NodesOf(item)|, 0)
  {
    hide Walk, Passes;
    if item.Struct? {
      WalkStruct(nodes, c, item);
    } else {
      assert nodes[c + 0] == NodesOf(item)[0];
      WalkLeaf(nodes, c, 0);
    }
  }

  lemma SuffixStep<T>(s: seq<T>, c: nat, here: seq<T>, rest: seq<T>)
    requires c <= |s| && s[c..] == here + rest
    ensures c + |here| <= |s| && s[c + |here|..] == rest
    ensures forall k :: 0 <= k < |here| ==> s[c + k] == here[k]
  {
    assert s[c + |here|..] == s[c..][|here|..];
    forall k | 0 <= k < |here| ensures s[c + k] == here[k] {
      assert s[c..][k] == here[k];
    }
  }

  lemma WalkStruct(nodes: seq<Node>, c: nat, item: Item)
    requires ItemOk(item) && item.Struct? && Flat(nodes)
    requires c + |item.fields| < |nodes|
    requires forall k :: 0 <= k <= |item.fields| ==> nodes[c + k] == NodesOf(item)[k]
    ensures NextPound(nodes, c) == c + |item.fields|
    ensures Walk(nodes, c, 0) == Passes(item.fields, c, 0, item.count) + Walk(nodes, c + |item.fields| + 1, 0)
  {
    hide Walk, Passes, NextPound;
    var fs := item.fields;
    assert nodes[c + |fs|] == NodesOf(item)[|fs|];
    forall q | c <= q < c + |fs| ensures nodes[q] == Leaf(fs[q - c]) {
      assert nodes[c + (q - c)] == NodesOf(item)[q - c];
    }
    WalkPasses(nodes, c, fs, 0, item.count);
  }

  lemma {:induction false} WalkPasses(nodes: seq<Node>, base: nat, fs: seq<Field>, k: nat, count: nat)
    requires Flat(nodes) && base + |fs| < |nodes| && k < count && 1 <= |fs|
    requires nodes[base + |fs|].Pound? && nodes[base + |fs|].span == |fs| && nodes[base + |fs|].count == count
    requires forall q :: base <= q < base + |fs| ==> nodes[q] == Leaf(fs[q - base])
    ensures NextPound(nodes, base) == base + |fs|
    ensures Walk(nodes, base, k) == Passes(fs, base, k, count) + Walk(nodes, base + |fs| + 1, 0)
    decreases count - k
  {
    hide Walk, NextPound;
    var p := base + |fs|;
    WalkPass(nodes, base, fs, 0, k);
    if k + 1 < count {
      WalkPasses(nodes, base, fs, k + 1, count);
      WalkBack(nodes, p, k);
    } else {
      WalkPast(nodes, p, k);
    }
    assert Pass(fs, base, k)[0..] == Pass(fs, base, k);
  }

  lemma {:induction false} WalkPass(nodes: seq<Node>, base: nat, fs: seq<Field>, j: nat, k: nat)
    requires Flat(nodes) && base + |fs| < |nodes| && j <= |fs|
    requires nodes[base + |fs|].Pound? && k < nodes[base + |fs|].count
    requires forall q :: base <= q < base + |fs| ==> nodes[q] == Leaf(fs[q - base])
    ensures NextPound(nodes, base + j) == base + |fs| == NextPound(nodes, base + |fs|)
    ensures Walk(nodes, base + j, k) == Pass(fs, base, k)[j..] + Walk(nodes, base + |fs|, k)
    decreases |fs| - j
  {
    hide Walk, NextPound;
    NextPoundAt(nodes, base + j, base + |fs|);
    NextPoundAt(nodes, base + |fs|, base + |fs|);
    if j < |fs| {
      WalkPass(nodes, base, fs, j + 1, k);
      WalkLeaf(nodes, base + j, k);
      assert Pass(fs, base, k)[j..] == [Slot(nodes[base + j], base + j, k)] + Pass(fs, base, k)[j + 1..];
    }
  }

  // ----- facts about the slots of a row -----

  ghost predicate SlotFits(s: Slot, row: Row, lo: nat, hi: nat) {
    && lo <= s.pos < hi
    && match s.node
       case Leaf(f) => FieldOk(f)
       case Ary(id) => Array(id) in row && s.iter == 0
       case Pound(_, _, _) => false
  }

  function Key(s: Slot): (nat, nat) { (s.pos, s.iter) }

  ghost predicate Distinct(slots: seq<Slot>) {
    forall i, j :: 0 <= i < j < |slots| ==> Key(slots[i]) != Key(slots[j])
  }

  ghost predicate SlotsFitIn(slots: seq<Slot>, row: Row, lo: nat, hi: nat) {
    forall k :: 0 <= k < |slots| ==> SlotFits(slots[k], row, lo, hi)
  }

  // Slots stay inside the children list and name only nodes of the row.
  lemma {:induction false} SlotsFit(row: Row, base: nat)
    requires RowOk(row)
    ensures SlotsFitIn(Slots(row, base), row, base, base + |Nodes(row)|)
    decreases |row|
  {
    hide Slots, Nodes, NodesOf, ItemSlots, SlotFits;
    SlotsUnfold(row, base);
    if row == [] {
    } else {
      var mid, hi := base + |NodesOf(row[0])|, base + |Nodes(row)|;
      SlotsFit(row[1..], mid);
      FitMore(Slots(row[1..], mid), row, base, mid, hi);
      ItemFits(row, base, hi);
    }
  }

  lemma FitMore(slots: seq<Slot>, row: Row, lo: nat, mid: nat, hi: nat)
    requires row != [] && lo <= mid && SlotsFitIn(slots, row[1..], mid, hi)
    ensures SlotsFitIn(slots, row, lo, hi)
  {
    forall k | 0 <= k < |slots| ensures SlotFits(slots[k], row, lo, hi) {
      assert SlotFits(slots[k], row[1..], mid, hi);
    }
  }

  lemma ItemFits(row: Row, base: nat, hi: nat)
    requires RowOk(row) && row != [] && base + |NodesOf(row[0])| <= hi
    ensures SlotsFitIn(ItemSlots(row[0], base), row, base, hi)
  {
    hide Passes, Nodes, Slots;
    assert ItemOk(row[0]);
    var here := ItemSlots(row[0], base);
    if row[0].Struct? {
      PassesFit(row[0].fields, base, 0, row[0].count);
    }
    forall k | 0 <= k < |here| ensures SlotFits(here[k], row, base, hi) {
    }
  }

  lemma ItemDistinct(item: Item, base: nat)
    ensures Distinct(ItemSlots(item, base))
    ensures forall k :: 0 <= k < |ItemSlots(item, base)| ==> ItemSlots(item, base)[k].pos < base + |NodesOf(item)|
  {
    hide Passes;
    if item.Struct? {
      PassesFit(item.fields, base, 0, item.count);
      PassesDistinct(item.fields, base, 0, item.count);
    }
  }

  // No (node, iteration) pair is visited twice.
  lemma {:induction false} SlotsDistinct(row: Row, base: nat)
    requires RowOk(row)
    ensures Distinct(Slots(row, base))
    decreases |row|
  {
    hide Slots, Nodes, NodesOf, ItemSlots, Distinct;
    SlotsUnfold(row, base);
    if row == [] {
      EmptyDistinct();
    } else {
      var mid := base + |NodesOf(row[0])|;
      var here, rest := ItemSlots(row[0], base), Slots(row[1..], mid);
      SlotsDistinct(row[1..], mid);
      SlotsFit(row[1..], mid);
      ItemDistinct(row[0], base);
      forall k | 0 <= k < |rest| ensures mid <= rest[k].pos {
        assert SlotFits(rest[k], row[1..], mid, mid + |Nodes(row[1..])|);
      }
      DistinctJoin(here, rest, mid);
    }
  }

  lemma EmptyDistinct()
    ensures Distinct([])
  {
  }

  lemma DistinctJoin(a: seq<Slot>, b: seq<Slot>, mid: nat)
    requires Distinct(a) && Distinct(b)
    requires forall k :: 0 <= k < |a| ==> a[k].pos < mid
    requires forall k :: 0 <= k < |b| ==> mid <= b[k].pos
    ensures Distinct(a + b)
  {
  }

  lemma {:induction false} PassesFit(fs: seq<Field>, base: nat, k: nat, count: nat)
    ensures forall i :: 0 <= i < |Passes(fs, base, k, count)| ==>
      var s := Passes(fs, base, k, count)[i];
      base <= s.pos < base + |fs| && k <= s.iter < count && s.node == Leaf(fs[s.pos - base])
    decreases count - k
  {
    if k < count {
      PassesFit(fs, base, k + 1, count);
    }
  }

  lemma {:induction false} PassesDistinct(fs: seq<Field>, base: nat, k: nat, count: nat)
    ensures Distinct(Passes(fs, base, k, count))
    decreases count - k
  {
    if k < count {
      PassesDistinct(fs, base, k + 1, count);
      PassesFit(fs, base, k + 1, count);
      var rest := Passes(fs, base, k + 1, count);
      assert forall i :: 0 <= i < |rest| ==> rest[i].iter > k;
      assert Distinct(Pass(fs, base, k));
    }
  }

  ghost predicate ArysOnce(slots: seq<Slot>) {
    forall i, j :: 0 <= i < j < |slots| && slots[i].node.Ary? ==> slots[i].node != slots[j].node
  }

  // A row names each of its arrays once.
  lemma {:induction false} ArysDistinct(row: Row, base: nat)
    requires RowOk(row)
    requires forall j, k :: 0 <= j < k < |row| && row[j].Array? && row[k].Array? ==> row[j].id != row[k].id
    ensures ArysOnce(Slots(row, base))
    decreases |row|
  {
    hide Slots, Nodes, NodesOf, ItemSlots, SlotFits;
    SlotsUnfold(row, base);
    if row == [] {
    } else {
      var mid := base + |NodesOf(row[0])|;
      ArysDistinct(row[1..], mid);
      ItemArys(row[0], base);
      RestNames(row, Slots(row[1..], mid), mid);
    }
  }

  // An array named first is not named again by the rest of the row.
  lemma RestNames(row: Row, rest: seq<Slot>, mid: nat)
    requires RowOk(row) && row != [] && rest == Slots(row[1..], mid)
    requires forall j :: 1 <= j < |row| ==> row[j] != row[0] || !row[0].Array?
    ensures row[0].Array? ==> forall k :: 0 <= k < |rest| ==> rest[k].node != Ary(row[0].id)
  {
    hide Slots, Nodes, NodesOf;
    SlotsFit(row[1..], mid);
    if row[0].Array? {
      forall k | 0 <= k < |rest| ensures rest[k].node != Ary(row[0].id) {
        assert SlotFits(rest[k], row[1..], mid, mid + |Nodes(row[1..])|);
      }
    }
  }

  lemma ItemArys(item: Item, base: nat)
    ensures item.Array? ==> ItemSlots(item, base) == [Slot(Ary(item.id), base, 0)]
    ensures !item.Array? ==> forall k :: 0 <= k < |ItemSlots(item, base)| ==> ItemSlots(item, base)[k].node.Leaf?
  {
    hide Passes;
    if item.Struct? {
      PassesFit(item.fields, base, 0, item.count);
    }
  }
}
