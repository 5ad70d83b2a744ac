// tpl_map_va: from a format string to the node table, the field addresses and
// the '#' lengths.
module TplMap {
  import opened Bytes
  import opened TplSchema
  import opened TplImage
  import opened TplState
  import opened TplLayout
  import opened TplReading
  import opened TplFormat
  import TplFree
  import opened TplReset
  import opened TplObject

  // What the loop keeps: the rows so far with the address of every node, where
  // each row hangs, the row new nodes go to, and the state of the scan. `start`
  // is where the last structure begins in its row.
  datatype Parsing = Parsing(
    rows: Schema, addrs: seq<seq<int>>, up: seq<nat>, at: seq<nat>, parent: nat, fxlens: seq<nat>,
    level: nat, awaiting: bool, inStructure: nat, start: nat, structAddr: int, interEltLen: nat, closed: bool,
    ptrs: nat, pounds: nat)

  function Depth(up: seq<nat>, r: nat): nat
    requires r < |up| && forall k :: 0 < k < |up| ==> up[k] < k
  {
    if r == 0 then 0 else 1 + Depth(up, up[r])
  }

  // ----- what holds after each character -----

  ghost predicate ShapeOk(s: Parsing) {
    && |s.rows| == |s.addrs| == |s.up| && s.parent < |s.rows|
    && (forall r :: 0 < r < |s.up| ==> s.up[r] < r)
    && (forall r :: 0 <= r < |s.rows| ==> RowOk(s.rows[r]) && |s.addrs[r]| == |Nodes(s.rows[r])|)
  }

  ghost predicate ArraysOk(rows: Schema, up: seq<nat>) {
    && |rows| == |up|
    && (forall r, k :: 0 <= r < |rows| && 0 <= k < |rows[r]| && rows[r][k].Array? ==>
          r < rows[r][k].id < |rows| && up[rows[r][k].id] == r)
    && (forall r, j, k :: 0 <= r < |rows| && 0 <= j < k < |rows[r]| && rows[r][j].Array? && rows[r][k].Array? ==>
          rows[r][j].id != rows[r][k].id)
  }

  // Only the row being filled can be empty, right behind its opening.
  ghost predicate FilledOk(s: Parsing, done: bytes)
    requires ShapeOk(s)
  {
    && (forall r :: 0 <= r < |s.rows| && r != s.parent ==> s.rows[r] != [])
    && (done == [] ==> s.rows[s.parent] == [])
    && (s.rows[s.parent] == [] ==> (done == [] && s.parent == 0) || EndsIn(done, [OPEN, LETTER_A, STRUCT]))
  }

  ghost predicate LevelOk(s: Parsing, done: bytes)
    requires ShapeOk(s)
  {
    && s.level + (if s.awaiting then 1 else 0) == Depth(s.up, s.parent) + (if s.inStructure > 0 then 1 else 0)
    && (s.inStructure > 0 ==> s.inStructure == s.level + if s.awaiting then 1 else 0)
    && (s.awaiting <==> EndsIn(done, [LETTER_A, STRUCT]))
    && (EndsIn(done, [OPEN]) ==> s.level >= 1)
    && (done == [] ==> s.level == 0)
  }

  function FieldsOf(items: Row): (r: seq<Field>)
    requires forall k :: 0 <= k < |items| ==> items[k].Atom?
    ensures |r| == |items|
  {
    seq(|items|, k requires 0 <= k < |items| => items[k].field)
  }

  ghost predicate Atoms(items: Row) {
    forall k :: 0 <= k < |items| ==> items[k].Atom?
  }

  // The fields of the last structure are the tail of the row, at the offsets
  // calc_field_addr gives them.
  ghost predicate TailOk(row: Row, addr: seq<int>, start: nat, structAddr: int) {
    && start <= |row| && Atoms(row[start..]) && |addr| == |Nodes(row)|
    && var fs := FieldsOf(row[start..]);
       var base := |Nodes(row[..start])|;
       && base + |fs| == |addr|
       && (fs != [] ==> StructFields(fs) && forall j :: 0 <= j < |fs| ==> addr[base + j] == structAddr + Offset(fs, j))
  }

  ghost predicate StructOk(s: Parsing, done: bytes)
    requires ShapeOk(s)
  {
    && (s.closed ==> s.inStructure == 0)
    && (s.inStructure > 0 || s.closed ==> TailOk(s.rows[s.parent], s.addrs[s.parent], s.start, s.structAddr))
    && (s.inStructure > 0 && s.start == |s.rows[s.parent]| ==> EndsIn(done, [OPEN, STRUCT]))
    && (s.closed ==>
          && s.start < |s.rows[s.parent]|
          && s.interEltLen == InterElt(FieldsOf(s.rows[s.parent][s.start..])))
  }

  ghost predicate CountsOk(rows: Schema, fxlens: seq<nat>, done: bytes) {
    && (forall k :: 0 <= k < |done| ==> done[k] in FMT_CHARS)
    && Hashes(done) == |fxlens|
    && (forall k :: 0 <= k < |fxlens| ==> fxlens[k] < TWO_TO_THE_31)
    && (HasText(rows) <==> LETTER_S in done)
  }

  // Item k of a row, if it is a structure, is laid out as C lays it out.
  ghost predicate ItemLaid(row: Row, addr: seq<int>, k: nat)
    requires k < |row|
  {
    row[k].Struct? ==>
      var base := |Nodes(row[..k])|;
      && StructFields(row[k].fields) && row[k].stride == InterElt(row[k].fields) && base + |row[k].fields| < |addr|
      && forall j :: 0 <= j < |row[k].fields| ==> addr[base + j] == addr[base] + Offset(row[k].fields, j)
  }

  ghost predicate LaidOk(rows: Schema, addrs: seq<seq<int>>)
    requires |rows| == |addrs|
  {
    forall r, k :: 0 <= r < |rows| && 0 <= k < |rows[r]| ==> ItemLaid(rows[r], addrs[r], k)
  }

  ghost predicate Sound(s: Parsing, done: bytes) {
    && ShapeOk(s) && ArraysOk(s.rows, s.up) && FilledOk(s, done) && LevelOk(s, done) && StructOk(s, done)
    && CountsOk(s.rows, s.fxlens, done) && LaidOk(s.rows, s.addrs)
  }

  // ----- adding to the end of the open row -----

  lemma {:induction false} NodesAppend(row: Row, item: Item)
    ensures Nodes(row + [item]) == Nodes(row) + NodesOf(item)
    decreases |row|
  {
    hide NodesOf;
    if row == [] {
      assert row + [item] == [item];
      assert Nodes([item][1..]) == [];
    } else {
      assert (row + [item])[1..] == row[1..] + [item];
      NodesAppend(row[1..], item);
    }
  }

  lemma {:induction false} NodesJoin(a: Row, b: Row)
    ensures Nodes(a + b) == Nodes(a) + Nodes(b)
    decreases |a|
  {
    hide NodesOf;
    if a == [] {
      assert a + b == b;
    } else {
      assert (a + b)[1..] == a[1..] + b;
      NodesJoin(a[1..], b);
    }
  }

  function Extended(s: Parsing, item: Item, addr: seq<int>): Parsing
    requires s.parent < |s.rows| == |s.addrs|
  {
    s.(rows := s.rows[s.parent := s.rows[s.parent] + [item]], addrs := s.addrs[s.parent := s.addrs[s.parent] + addr])
  }

  lemma ExtendedShape(s: Parsing, item: Item, addr: seq<int>)
    requires ShapeOk(s) && ItemOk(item) && |addr| == |NodesOf(item)|
    ensures ShapeOk(Extended(s, item, addr))
  {
    hide Nodes, NodesOf, ItemOk;
    NodesAppend(s.rows[s.parent], item);
    var row := s.rows[s.parent] + [item];
    assert RowOk(row);
  }

  lemma ExtendedLaid(s: Parsing, item: Item, addr: seq<int>)
    requires ShapeOk(s) && LaidOk(s.rows, s.addrs) && !item.Struct?
    ensures LaidOk(Extended(s, item, addr).rows, Extended(s, item, addr).addrs)
  {
    hide Nodes, Offset, InterElt, StructFields;
    var t := Extended(s, item, addr);
    forall r, k | 0 <= r < |t.rows| && 0 <= k < |t.rows[r]| ensures ItemLaid(t.rows[r], t.addrs[r], k) {
      if k < |s.rows[r]| {
        assert ItemLaid(s.rows[r], s.addrs[r], k);
        assert t.rows[r][..k] == s.rows[r][..k];
      }
    }
  }

  lemma ExtendedText(rows: Schema, r: nat, item: Item)
    requires r < |rows|
    ensures HasText(rows[r := rows[r] + [item]]) <==> HasText(rows) || ItemHasText(item)
  {
    hide ItemHasText;
    var next := rows[r := rows[r] + [item]];
    if HasText(rows) {
      var q, k :| 0 <= q < |rows| && 0 <= k < |rows[q]| && ItemHasText(rows[q][k]);
      assert next[q][k] == rows[q][k];
    }
    if ItemHasText(item) {
      assert next[r][|rows[r]|] == item;
    }
    if HasText(next) && !ItemHasText(item) {
      var q, k :| 0 <= q < |next| && 0 <= k < |next[q]| && ItemHasText(next[q][k]);
      assert k < |rows[q]| && rows[q][k] == next[q][k];
    }
  }

  lemma CountsNext(s: Parsing, t: Parsing, done: bytes, c: byte, text: bool)
    requires CountsOk(s.rows, s.fxlens, done) && t.fxlens == s.fxlens && c in FMT_CHARS && c != HASH
    requires (HasText(t.rows) <==> HasText(s.rows) || text) && (text <==> c == LETTER_S)
    ensures CountsOk(t.rows, t.fxlens, done + [c])
  {
    hide HasText;
    assert (done + [c])[..|done|] == done;
  }

  lemma DepthSame(up: seq<nat>, more: seq<nat>, r: nat)
    requires r < |up| && (forall k :: 0 < k < |up| ==> up[k] < k) && (forall k :: 0 < k < |up + more| ==> (up + more)[k] < k)
    ensures Depth(up + more, r) == Depth(up, r)
  {
    if r > 0 {
      assert (up + more)[r] == up[r];
      DepthSame(up, more, up[r]);
    }
  }

  // ----- one character each -----

  // The address of the next field of a structure: calc_field_addr.
  function FieldAddress(s: Parsing, f: Field): int
    requires ShapeOk(s) && StructField(f) && TailOk(s.rows[s.parent], s.addrs[s.parent], s.start, s.structAddr)
  {
    var row, addr := s.rows[s.parent], s.addrs[s.parent];
    if s.start == |row| then s.structAddr
    else
      var fs := FieldsOf(row[s.start..]);
      FieldsBehind(s);
      CalcFieldAddr(addr[|addr| - 1], Width(fs[|fs| - 1]), Align(f), s.structAddr)
  }

  lemma FieldsBehind(s: Parsing)
    requires ShapeOk(s) && TailOk(s.rows[s.parent], s.addrs[s.parent], s.start, s.structAddr) && s.start < |s.rows[s.parent]|
    ensures |s.addrs[s.parent]| > 0 && s.addrs[s.parent][|s.addrs[s.parent]| - 1] >= s.structAddr
  {
    hide Offset, Nodes;
    var row, addr := s.rows[s.parent], s.addrs[s.parent];
    var fs, base := FieldsOf(row[s.start..]), |Nodes(row[..s.start])|;
    assert addr[base + (|fs| - 1)] == s.structAddr + Offset(fs, |fs| - 1);
  }

  lemma {:induction false} OffsetPrefix(fs: seq<Field>, gs: seq<Field>, j: nat)
    requires StructFields(fs) && StructFields(gs) && j < |fs| && j < |gs|
    requires forall k :: 0 <= k < j ==> fs[k] == gs[k]
    requires Align(fs[j]) == Align(gs[j])
    ensures Offset(fs, j) == Offset(gs, j)
    decreases j
  {
    hide AlignUp, Width, Offset;
    OffsetStep(fs, j);
    OffsetStep(gs, j);
    if j > 0 {
      OffsetPrefix(fs, gs, j - 1);
    }
  }

  // One more field at the address calc_field_addr computes.
  lemma FieldAdded(s: Parsing, f: Field)
    requires ShapeOk(s) && StructField(f) && TailOk(s.rows[s.parent], s.addrs[s.parent], s.start, s.structAddr)
    ensures TailOk(s.rows[s.parent] + [Atom(f)], s.addrs[s.parent] + [FieldAddress(s, f)], s.start, s.structAddr)
  {
    hide Nodes, Offset, Width, Align, StructField, AlignUp;
    var row, addr := s.rows[s.parent], s.addrs[s.parent];
    var row', addr' := row + [Atom(f)], addr + [FieldAddress(s, f)];
    var fs := FieldsOf(row[s.start..]);
    NodesAppend(row, Atom(f));
    assert row'[s.start..] == row[s.start..] + [Atom(f)] && row'[..s.start] == row[..s.start];
    var fs' := FieldsOf(row'[s.start..]);
    assert fs' == fs + [f];
    var base := |Nodes(row[..s.start])|;
    OffsetStep(fs', |fs|);
    forall j | 0 <= j < |fs'| ensures addr'[base + j] == s.structAddr + Offset(fs', j) {
      if j < |fs| {
        OffsetPrefix(fs, fs', j);
      } else if |fs| > 0 {
        OffsetPrefix(fs, fs', |fs| - 1);
        assert addr[base + (|fs| - 1)] == s.structAddr + Offset(fs, |fs| - 1);
      }
    }
  }

  lemma ExtendedArrays(s: Parsing, item: Item, addr: seq<int>)
    requires ShapeOk(s) && ArraysOk(s.rows, s.up) && !item.Array?
    ensures ArraysOk(Extended(s, item, addr).rows, s.up)
  {
    var t := Extended(s, item, addr);
    forall r, k | 0 <= r < |t.rows| && 0 <= k < |t.rows[r]| && t.rows[r][k].Array?
      ensures r < t.rows[r][k].id < |t.rows| && s.up[t.rows[r][k].id] == r
    {
      assert t.rows[r][k] == s.rows[r][k];
    }
    forall r, j, k | 0 <= r < |t.rows| && 0 <= j < k < |t.rows[r]| && t.rows[r][j].Array? && t.rows[r][k].Array?
      ensures t.rows[r][j].id != t.rows[r][k].id
    {
      assert t.rows[r][j] == s.rows[r][j] && t.rows[r][k] == s.rows[r][k];
    }
  }

  // What an item that is no array keeps of the shape of the parse.
  lemma ItemAdded(s: Parsing, done: bytes, item: Item, addr: int, c: byte)
    requires Sound(s, done) && !s.awaiting && item.Atom? && ItemOk(item) && c in FMT_CHARS
    requires c !in [HASH, LETTER_A, STRUCT, OPEN] && (c == LETTER_S <==> ItemHasText(item))
    ensures var t := Extended(s, item, [addr]);
      && ShapeOk(t) && ArraysOk(t.rows, t.up) && FilledOk(t, done + [c]) && LevelOk(t, done + [c])
      && CountsOk(t.rows, t.fxlens, done + [c]) && LaidOk(t.rows, t.addrs)
  {
    hide Nodes, NodesOf, LaidOk, ArraysOk, TailOk, HasText, ItemHasText, ItemOk, RowOk, Depth, Hashes, CountsOk;
    assert |NodesOf(item)| == 1 by {
      OneNode(item);
    }
    ExtendedShape(s, item, [addr]);
    ExtendedArrays(s, item, [addr]);
    ExtendedLaid(s, item, [addr]);
    ExtendedText(s.rows, s.parent, item);
    CountsNext(s, Extended(s, item, [addr]), done, c, ItemHasText(item));
  }

  lemma OneNode(item: Item)
    requires !item.Struct?
    ensures |NodesOf(item)| == 1
  {
  }

  function AtomStep(s: Parsing, c: byte, ptr: int): Parsing
    requires ShapeOk(s) && (NumberLetter(c) || c == LETTER_S)
    requires s.inStructure > 0 ==> TailOk(s.rows[s.parent], s.addrs[s.parent], s.start, s.structAddr)
  {
    var f := AtomFor(c);
    if s.inStructure > 0 then Extended(s, Item.Atom(f), [FieldAddress(s, f)]).(closed := false)
    else Extended(s, Item.Atom(f), [ptr]).(closed := false, ptrs := s.ptrs + 1)
  }

  lemma AtomSound(s: Parsing, done: bytes, c: byte, ptr: int)
    requires Sound(s, done) && !s.awaiting && (NumberLetter(c) || c == LETTER_S)
    ensures Sound(AtomStep(s, c, ptr), done + [c])
  {
    hide LaidOk, ArraysOk, TailOk, CountsOk, FieldAddress, AtomFor, RowOk, Nodes, Depth;
    var f := AtomFor(c);
    LetterFacts(c);
    if s.inStructure > 0 {
      FieldAdded(s, f);
      TailStart(s.rows[s.parent], s.addrs[s.parent], s.start, s.structAddr);
      ItemAdded(s, done, Item.Atom(f), FieldAddress(s, f), c);
    } else {
      ItemAdded(s, done, Item.Atom(f), ptr, c);
    }
  }

  lemma LetterFacts(c: byte)
    requires NumberLetter(c) || c == LETTER_S
    ensures StructField(AtomFor(c)) && ItemOk(Item.Atom(AtomFor(c))) && c in FMT_CHARS
    ensures c !in [HASH, LETTER_A, STRUCT, OPEN] && (c == LETTER_S <==> ItemHasText(Item.Atom(AtomFor(c))))
  {
  }

  lemma BlobSound(s: Parsing, done: bytes, ptr: int)
    requires Sound(s, done) && !s.awaiting && s.inStructure == 0
    ensures Sound(Extended(s, Item.Atom(Blob), [ptr]).(closed := false, ptrs := s.ptrs + 1), done + [LETTER_B])
  {
    hide LaidOk, ArraysOk, TailOk, CountsOk, RowOk, Nodes, Depth;
    ItemAdded(s, done, Item.Atom(Blob), ptr, LETTER_B);
  }

  // 'A': the new row hangs on the open one and becomes the open one.
  function ArrayStep(s: Parsing): Parsing
    requires ShapeOk(s)
  {
    var t := Extended(s, Item.Array(|s.rows|), [0]);
    t.(rows := t.rows + [[]], addrs := t.addrs + [[]], up := t.up + [s.parent], at := t.at + [|s.addrs[s.parent]|],
       parent := |s.rows|, awaiting := true, closed := false)
  }

  lemma ArraySound(s: Parsing, done: bytes)
    requires Sound(s, done) && !s.awaiting && s.inStructure == 0
    ensures Sound(ArrayStep(s), done + [LETTER_A])
  {
    hide LaidOk, ArraysOk, TailOk, CountsOk, RowOk, Nodes, Depth;
    var t, item := ArrayStep(s), Item.Array(|s.rows|);
    ExtendedShape(s, item, [0]) by {
      OneNode(item);
    }
    assert ShapeOk(t) by {
      NoNodes();
    }
    ArrayArrays(s);
    ArrayLaid(s);
    ArrayText(s);
    DepthSame(s.up, [s.parent], s.parent);
    DepthNew(t.up, |s.up|);
    CountsNext(s, t, done, LETTER_A, false);
  }

  lemma NoNodes()
    ensures Nodes([]) == [] && RowOk([])
  {
  }

  lemma DepthNew(up: seq<nat>, r: nat)
    requires r < |up| && r > 0 && forall k :: 0 < k < |up| ==> up[k] < k
    ensures Depth(up, r) == 1 + Depth(up, up[r])
  {
  }

  lemma ArrayArrays(s: Parsing)
    requires ShapeOk(s) && ArraysOk(s.rows, s.up)
    ensures ArraysOk(ArrayStep(s).rows, ArrayStep(s).up)
  {
    hide RowOk, Nodes;
    var t, n := ArrayStep(s), |s.rows|;
    forall r, k | 0 <= r < |t.rows| && 0 <= k < |t.rows[r]| && t.rows[r][k].Array?
      ensures r < t.rows[r][k].id < |t.rows| && t.up[t.rows[r][k].id] == r
    {
      if r < n && k < |s.rows[r]| {
        assert t.rows[r][k] == s.rows[r][k];
      }
    }
    forall r, j, k | 0 <= r < |t.rows| && 0 <= j < k < |t.rows[r]| && t.rows[r][j].Array? && t.rows[r][k].Array?
      ensures t.rows[r][j].id != t.rows[r][k].id
    {
      assert r < n && t.rows[r][j] == s.rows[r][j];
      if k < |s.rows[r]| {
        assert t.rows[r][k] == s.rows[r][k];
      }
    }
  }

  lemma ArrayLaid(s: Parsing)
    requires ShapeOk(s) && LaidOk(s.rows, s.addrs)
    ensures LaidOk(ArrayStep(s).rows, ArrayStep(s).addrs)
  {
    hide RowOk, Nodes, ItemLaid;
    var t, e := ArrayStep(s), Extended(s, Item.Array(|s.rows|), [0]);
    ExtendedLaid(s, Item.Array(|s.rows|), [0]);
    forall r, k | 0 <= r < |t.rows| && 0 <= k < |t.rows[r]| ensures ItemLaid(t.rows[r], t.addrs[r], k) {
      assert r < |s.rows|;
      assert ItemLaid(e.rows[r], e.addrs[r], k);
    }
  }

  lemma ArrayText(s: Parsing)
    requires ShapeOk(s)
    ensures HasText(ArrayStep(s).rows) <==> HasText(s.rows)
  {
    hide ItemHasText, RowOk, Nodes;
    var t, item := ArrayStep(s), Item.Array(|s.rows|);
    var e := s.rows[s.parent := s.rows[s.parent] + [item]];
    ExtendedText(s.rows, s.parent, item);
    assert !ItemHasText(item) by {
      ArrayNoText(|s.rows|);
    }
    if HasText(e) {
      var r, k :| 0 <= r < |e| && 0 <= k < |e[r]| && ItemHasText(e[r][k]);
      assert t.rows[r][k] == e[r][k];
    }
    if HasText(t.rows) {
      var r, k :| 0 <= r < |t.rows| && 0 <= k < |t.rows[r]| && ItemHasText(t.rows[r][k]);
      assert e[r][k] == t.rows[r][k];
    }
  }

  lemma ArrayNoText(id: nat)
    ensures !ItemHasText(Item.Array(id))
  {
  }

  lemma TailStart(row: Row, addr: seq<int>, start: nat, structAddr: int)
    requires TailOk(row, addr, start, structAddr)
    ensures start <= |row|
  {
  }

  // 'S': a structure begins at the end of the open row.
  function StructStep(s: Parsing, ptr: int): Parsing
    requires ShapeOk(s)
  {
    s.(awaiting := true, inStructure := 1 + s.level, structAddr := ptr, start := |s.rows[s.parent]|, closed := false, ptrs := s.ptrs + 1)
  }

  lemma StructSound(s: Parsing, done: bytes, ptr: int)
    requires Sound(s, done) && !s.awaiting && s.inStructure == 0
    ensures Sound(StructStep(s, ptr), done + [STRUCT])
  {
    hide LaidOk, ArraysOk, CountsOk, RowOk, Nodes, Depth;
    var row := s.rows[s.parent];
    assert row[|row|..] == [] && row[..|row|] == row;
    CountsNext(s, StructStep(s, ptr), done, STRUCT, false);
  }

  lemma OpenSound(s: Parsing, done: bytes)
    requires Sound(s, done) && s.awaiting
    ensures Sound(s.(awaiting := false, level := s.level + 1, closed := false), done + [OPEN])
  {
    hide LaidOk, ArraysOk, CountsOk, RowOk, Nodes, Depth, TailOk;
    CountsNext(s, s.(awaiting := false, level := s.level + 1, closed := false), done, OPEN, false);
  }

  // ')' of a structure: the distance to the next one.
  function EndStructStep(s: Parsing): Parsing
    requires ShapeOk(s) && s.level > 0 && s.start < |s.rows[s.parent]|
    requires TailOk(s.rows[s.parent], s.addrs[s.parent], s.start, s.structAddr)
  {
    var addr := s.addrs[s.parent];
    var fs := FieldsOf(s.rows[s.parent][s.start..]);
    FieldsBehind(s);
    s.(level := s.level - 1, inStructure := 0, closed := true,
       interEltLen := CalcFieldAddr(addr[|addr| - 1], Width(fs[|fs| - 1]), Widest(fs), s.structAddr) - s.structAddr)
  }

  lemma EndStructSound(s: Parsing, done: bytes)
    requires Sound(s, done) && !s.awaiting && s.inStructure > 0 && !EndsIn(done, [OPEN, STRUCT])
    ensures s.level > 0 && s.start < |s.rows[s.parent]| && TailOk(s.rows[s.parent], s.addrs[s.parent], s.start, s.structAddr)
    ensures Sound(EndStructStep(s), done + [CLOSE])
  {
    hide LaidOk, ArraysOk, CountsOk, RowOk, Nodes, Depth, Offset, TailOk;
    TailStart(s.rows[s.parent], s.addrs[s.parent], s.start, s.structAddr);
    LastOffset(s);
    CountsNext(s, EndStructStep(s), done, CLOSE, false);
  }

  lemma LastOffset(s: Parsing)
    requires ShapeOk(s) && s.start < |s.rows[s.parent]|
    requires TailOk(s.rows[s.parent], s.addrs[s.parent], s.start, s.structAddr)
    ensures var addr := s.addrs[s.parent]; var fs := FieldsOf(s.rows[s.parent][s.start..]);
      |addr| > 0 && StructFields(fs) && addr[|addr| - 1] == s.structAddr + Offset(fs, |fs| - 1)
  {
    hide Offset, Nodes;
    var row, addr := s.rows[s.parent], s.addrs[s.parent];
    var fs, base := FieldsOf(row[s.start..]), |Nodes(row[..s.start])|;
    assert addr[base + (|fs| - 1)] == s.structAddr + Offset(fs, |fs| - 1);
  }

  // ')' of an array.
  lemma EndArraySound(s: Parsing, done: bytes)
    requires Sound(s, done) && !s.awaiting && s.inStructure == 0 && s.level > 0 && !EndsIn(done, [OPEN])
    ensures s.parent > 0
    ensures Sound(s.(level := s.level - 1, parent := s.up[s.parent], closed := false), done + [CLOSE])
  {
    hide LaidOk, ArraysOk, CountsOk, RowOk, Nodes, Depth, TailOk;
    RootDepth(s.up);
    DepthNew(s.up, s.parent);
    CountsNext(s, s.(level := s.level - 1, parent := s.up[s.parent], closed := false), done, CLOSE, false);
  }

  lemma RootDepth(up: seq<nat>)
    requires |up| > 0 && forall k :: 0 < k < |up| ==> up[k] < k
    ensures Depth(up, 0) == 0
  {
  }

  // ----- '#' -----

  lemma {:induction false} HashesMore(done: bytes, n: nat)
    ensures Hashes(done + Hashed(n)) == Hashes(done) + n
    decreases n
  {
    if n == 0 {
      assert done + Hashed(0) == done;
    } else {
      HashesMore(done, n - 1);
      assert (done + Hashed(n))[..|done| + n - 1] == done + Hashed(n - 1);
    }
  }

  lemma CountsHashed(s: Parsing, rows: Schema, done: bytes, ns: seq<nat>)
    requires CountsOk(s.rows, s.fxlens, done) && (HasText(rows) <==> HasText(s.rows))
    requires forall k :: 0 <= k < |ns| ==> ns[k] < TWO_TO_THE_31
    ensures CountsOk(rows, s.fxlens + ns, done + Hashed(|ns|))
  {
    hide HasText, Hashes;
    HashesMore(done, |ns|);
    var all := done + Hashed(|ns|);
    forall k | 0 <= k < |all| ensures all[k] in FMT_CHARS {
      if k >= |done| {
        assert all[k] == HASH;
      }
    }
    assert LETTER_S in all <==> LETTER_S in done by {
      assert LETTER_S !in Hashed(|ns|);
    }
  }

  lemma EndsHashed(done: bytes, n: nat)
    requires n > 0
    ensures !EndsIn(done + Hashed(n), [LETTER_A, STRUCT]) && !EndsIn(done + Hashed(n), [OPEN]) && !EndsIn(done + Hashed(n), [OPEN, STRUCT])
  {
    assert (done + Hashed(n))[|done| + n - 1] == HASH;
  }

  function Last(row: Row): Item
    requires row != []
  {
    row[|row| - 1]
  }

  // An atom, repeated.
  function AtomHashStep(s: Parsing, ns: seq<nat>, prod: nat): Parsing
    requires ShapeOk(s) && s.rows[s.parent] != [] && Last(s.rows[s.parent]).Atom?
  {
    var row := s.rows[s.parent];
    var row' := row[|row| - 1 := Item.Atom(WithNum(Last(row).field, prod))];
    s.(rows := s.rows[s.parent := row'], fxlens := s.fxlens + ns, pounds := s.pounds + |ns|, closed := false)
  }

  lemma LastReplaced(row: Row, f: Field)
    requires row != [] && Last(row).Atom? && RowOk(row) && FieldOk(f)
    ensures var row' := row[|row| - 1 := Item.Atom(f)];
      |Nodes(row')| == |Nodes(row)| && RowOk(row') && row'[..|row| - 1] == row[..|row| - 1]
  {
    hide NodesOf;
    var row', most := row[|row| - 1 := Item.Atom(f)], row[..|row| - 1];
    assert row == most + [Last(row)] && row' == most + [Item.Atom(f)];
    NodesAppend(most, Last(row));
    NodesAppend(most, Item.Atom(f));
    OneNode(Last(row));
    OneNode(Item.Atom(f));
  }

  lemma NumKept(f: Field, n: nat)
    requires FieldOk(f) && 1 <= n && !f.Blob?
    ensures FieldOk(WithNum(f, n)) && Align(WithNum(f, n)) == Align(f)
    ensures StructField(f) ==> StructField(WithNum(f, n))
    ensures ItemHasText(Item.Atom(WithNum(f, n))) == ItemHasText(Item.Atom(f))
  {
  }

  lemma AtomHashSound(s: Parsing, done: bytes, ns: seq<nat>, prod: nat)
    requires Sound(s, done) && !EndsIn(done, [OPEN, STRUCT]) && !s.awaiting && ns != [] && 1 <= prod
    requires s.rows[s.parent] != [] && Last(s.rows[s.parent]).Atom? && !Last(s.rows[s.parent]).field.Blob?
    requires forall k :: 0 <= k < |ns| ==> ns[k] < TWO_TO_THE_31
    ensures Sound(AtomHashStep(s, ns, prod), done + Hashed(|ns|))
  {
    hide LaidOk, ArraysOk, CountsOk, RowOk, Nodes, Depth, TailOk, HasText, Hashed;
    var t, row := AtomHashStep(s, ns, prod), s.rows[s.parent];
    var f := Last(row).field;
    LastOk(row);
    NumKept(f, prod);
    LastReplaced(row, WithNum(f, prod));
    EndsHashed(done, |ns|);
    AtomHashKeeps(s, ns, prod);
    CountsHashed(s, t.rows, done, ns);
    if s.inStructure > 0 {
      TailStart(row, s.addrs[s.parent], s.start, s.structAddr);
      TailHashed(row, s.addrs[s.parent], s.start, s.structAddr, prod);
    }
  }

  lemma LastOk(row: Row)
    requires RowOk(row) && row != [] && Last(row).Atom?
    ensures FieldOk(Last(row).field)
  {
    assert ItemOk(row[|row| - 1]);
  }

  lemma AtomHashKeeps(s: Parsing, ns: seq<nat>, prod: nat)
    requires ShapeOk(s) && ArraysOk(s.rows, s.up) && LaidOk(s.rows, s.addrs)
    requires s.rows[s.parent] != [] && Last(s.rows[s.parent]).Atom?
    requires ItemHasText(Item.Atom(WithNum(Last(s.rows[s.parent]).field, prod))) == ItemHasText(Last(s.rows[s.parent]))
    ensures var t := AtomHashStep(s, ns, prod); ArraysOk(t.rows, t.up) && LaidOk(t.rows, t.addrs) && (HasText(t.rows) <==> HasText(s.rows))
  {
    hide Nodes, RowOk, ItemHasText, Offset, InterElt, StructFields;
    var t := AtomHashStep(s, ns, prod);
    var p, last := s.parent, |s.rows[s.parent]| - 1;
    forall r, k | 0 <= r < |t.rows| && 0 <= k < |t.rows[r]| ensures ItemLaid(t.rows[r], t.addrs[r], k) {
      assert ItemLaid(s.rows[r], s.addrs[r], k);
      assert t.rows[r][..k] == s.rows[r][..k];
    }
    if HasText(s.rows) {
      var r, k :| 0 <= r < |s.rows| && 0 <= k < |s.rows[r]| && ItemHasText(s.rows[r][k]);
      assert ItemHasText(t.rows[r][k]);
    }
    if HasText(t.rows) {
      var r, k :| 0 <= r < |t.rows| && 0 <= k < |t.rows[r]| && ItemHasText(t.rows[r][k]);
      assert ItemHasText(s.rows[r][k]);
    }
  }

  // The number of the last field of an open structure does not move it.
  lemma TailHashed(row: Row, addr: seq<int>, start: nat, structAddr: int, n: nat)
    requires TailOk(row, addr, start, structAddr) && start < |row| && RowOk(row) && 1 <= n
    ensures Last(row).Atom?
    ensures !Last(row).field.Blob? ==> TailOk(row[|row| - 1 := Item.Atom(WithNum(Last(row).field, n))], addr, start, structAddr)
  {
    hide Nodes, Offset, Align, StructField;
    assert row[start..][|row| - 1 - start] == Last(row);
    LastOk(row);
    if !Last(row).field.Blob? {
      var f := Last(row).field;
      var row' := row[|row| - 1 := Item.Atom(WithNum(f, n))];
      NumKept(f, n);
      LastReplaced(row, WithNum(f, n));
      var fs, fs' := FieldsOf(row[start..]), seq(|row| - start, k requires 0 <= k < |row| - start => if k == |row| - 1 - start then WithNum(f, n) else row[start..][k].field);
      assert row'[..start] == row[..start];
      forall k | 0 <= k < |row'[start..]| ensures row'[start..][k] == Item.Atom(fs'[k]) {
      }
      assert FieldsOf(row'[start..]) == fs';
      assert StructField(fs[|fs| - 1]);
      forall k | 0 <= k < |fs'| ensures StructField(fs'[k]) {
        assert StructField(fs[k]);
      }
      var base := |Nodes(row[..start])|;
      forall j | 0 <= j < |fs'| ensures addr[base + j] == structAddr + Offset(fs', j) {
        OffsetPrefix(fs, fs', j);
      }
    }
  }

  // A structure, repeated: a '#' node behind its fields.
  function StructHashStep(s: Parsing, ns: seq<nat>, prod: nat): Parsing
    requires ShapeOk(s) && TailOk(s.rows[s.parent], s.addrs[s.parent], s.start, s.structAddr)
  {
    var row := s.rows[s.parent];
    var row' := row[..s.start] + [Struct(FieldsOf(row[s.start..]), prod, s.interEltLen)];
    s.(rows := s.rows[s.parent := row'], addrs := s.addrs[s.parent := s.addrs[s.parent] + [0]],
       fxlens := s.fxlens + ns, pounds := s.pounds + |ns|, closed := false)
  }

  // Nothing but a '#' node is added to the children list.
  lemma PoundAppended(row: Row, addr: seq<int>, start: nat, structAddr: int, prod: nat, stride: int)
    requires TailOk(row, addr, start, structAddr)
    ensures var fs := FieldsOf(row[start..]);
      Nodes(row[..start] + [Struct(fs, prod, stride)]) == Nodes(row) + [Pound(|fs|, prod, stride)]
  {
    hide Nodes, Leaves, Offset;
    var fs := FieldsOf(row[start..]);
    assert row == row[..start] + row[start..];
    NodesJoin(row[..start], row[start..]);
    NodesAppend(row[..start], Struct(fs, prod, stride));
    AtomNodes(row[start..]);
  }

  lemma {:induction false} AtomNodes(items: Row)
    requires Atoms(items)
    ensures Nodes(items) == Leaves(FieldsOf(items))
    decreases |items|
  {
    if items != [] {
      AtomNodes(items[1..]);
      assert Leaves(FieldsOf(items)) == [Leaf(items[0].field)] + Leaves(FieldsOf(items[1..]));
    }
  }

  lemma StructHashSound(s: Parsing, done: bytes, ns: seq<nat>, prod: nat)
    requires Sound(s, done) && s.closed && !s.awaiting && ns != [] && 1 <= prod
    requires forall k :: 0 <= k < |ns| ==> ns[k] < TWO_TO_THE_31
    ensures TailOk(s.rows[s.parent], s.addrs[s.parent], s.start, s.structAddr)
    ensures Sound(StructHashStep(s, ns, prod), done + Hashed(|ns|))
  {
    hide LaidOk, ArraysOk, CountsOk, RowOk, Nodes, Depth, TailOk, HasText, Hashed, InterElt;
    var t, row := StructHashStep(s, ns, prod), s.rows[s.parent];
    TailStart(row, s.addrs[s.parent], s.start, s.structAddr);
    EndsHashed(done, |ns|);
    StructHashShape(s, ns, prod);
    StructHashArrays(s, ns, prod);
    StructHashLaid(s, ns, prod);
    StructHashText(s, ns, prod);
    CountsHashed(s, t.rows, done, ns);
  }

  lemma StructHashShape(s: Parsing, ns: seq<nat>, prod: nat)
    requires ShapeOk(s) && s.start < |s.rows[s.parent]| && 1 <= prod
    requires TailOk(s.rows[s.parent], s.addrs[s.parent], s.start, s.structAddr)
    ensures ShapeOk(StructHashStep(s, ns, prod))
  {
    hide Nodes, Offset;
    var row := s.rows[s.parent];
    var fs := FieldsOf(row[s.start..]);
    PoundAppended(row, s.addrs[s.parent], s.start, s.structAddr, prod, s.interEltLen);
    forall f | f in fs ensures FieldOk(f) && f != Blob {
      assert StructField(f);
    }
    assert RowOk(row[..s.start] + [Struct(fs, prod, s.interEltLen)]);
  }

  lemma StructHashArrays(s: Parsing, ns: seq<nat>, prod: nat)
    requires ShapeOk(s) && ArraysOk(s.rows, s.up) && TailOk(s.rows[s.parent], s.addrs[s.parent], s.start, s.structAddr)
    ensures ArraysOk(StructHashStep(s, ns, prod).rows, s.up)
  {
    hide Nodes, Offset, RowOk;
    var t := StructHashStep(s, ns, prod);
    forall r, k | 0 <= r < |t.rows| && 0 <= k < |t.rows[r]| && t.rows[r][k].Array?
      ensures r < t.rows[r][k].id < |t.rows| && s.up[t.rows[r][k].id] == r
    {
      assert t.rows[r][k] == s.rows[r][k];
    }
    forall r, j, k | 0 <= r < |t.rows| && 0 <= j < k < |t.rows[r]| && t.rows[r][j].Array? && t.rows[r][k].Array?
      ensures t.rows[r][j].id != t.rows[r][k].id
    {
      assert t.rows[r][j] == s.rows[r][j] && t.rows[r][k] == s.rows[r][k];
    }
  }

  lemma StructHashLaid(s: Parsing, ns: seq<nat>, prod: nat)
    requires ShapeOk(s) && LaidOk(s.rows, s.addrs) && s.start < |s.rows[s.parent]|
    requires TailOk(s.rows[s.parent], s.addrs[s.parent], s.start, s.structAddr)
    requires s.interEltLen == InterElt(FieldsOf(s.rows[s.parent][s.start..]))
    ensures LaidOk(StructHashStep(s, ns, prod).rows, StructHashStep(s, ns, prod).addrs)
  {
    hide Nodes, Offset, RowOk, InterElt;
    var t, row, addr := StructHashStep(s, ns, prod), s.rows[s.parent], s.addrs[s.parent];
    var fs, base := FieldsOf(row[s.start..]), |Nodes(row[..s.start])|;
    OffsetStep(fs, 0);
    assert addr[base + 0] == s.structAddr + Offset(fs, 0);
    forall r, k | 0 <= r < |t.rows| && 0 <= k < |t.rows[r]| ensures ItemLaid(t.rows[r], t.addrs[r], k) {
      if r != s.parent || k < s.start {
        assert ItemLaid(s.rows[r], s.addrs[r], k);
        assert t.rows[r][..k] == s.rows[r][..k];
      } else {
        assert t.rows[r][..k] == row[..s.start];
      }
    }
  }

  lemma StructHashText(s: Parsing, ns: seq<nat>, prod: nat)
    requires ShapeOk(s) && TailOk(s.rows[s.parent], s.addrs[s.parent], s.start, s.structAddr)
    ensures HasText(StructHashStep(s, ns, prod).rows) <==> HasText(s.rows)
  {
    hide Nodes, Offset, RowOk;
    var t, row := StructHashStep(s, ns, prod), s.rows[s.parent];
    var fs := FieldsOf(row[s.start..]);
    if HasText(s.rows) {
      var r, k :| 0 <= r < |s.rows| && 0 <= k < |s.rows[r]| && ItemHasText(s.rows[r][k]);
      if r == s.parent && k >= s.start {
        assert row[s.start..][k - s.start] == row[k] && fs[k - s.start].Text?;
        assert ItemHasText(t.rows[r][s.start]);
      } else {
        assert t.rows[r][k] == s.rows[r][k];
      }
    }
    if HasText(t.rows) {
      var r, k :| 0 <= r < |t.rows| && 0 <= k < |t.rows[r]| && ItemHasText(t.rows[r][k]);
      if r == s.parent && k == s.start {
        var j :| 0 <= j < |fs| && fs[j].Text?;
        assert row[s.start..][j] == row[s.start + j] && ItemHasText(row[s.start + j]);
      } else {
        assert t.rows[r][k] == s.rows[r][k];
      }
    }
  }

  // ----- the scan does what the format says -----

  function Zip(nodes: seq<Node>, addr: seq<int>): (r: seq<Cell>)
    requires |nodes| == |addr|
    ensures |r| == |nodes|
  {
    seq(|nodes|, k requires 0 <= k < |nodes| => Cell(nodes[k], addr[k]))
  }

  ghost predicate SameSizes(rows: Schema, addrs: seq<seq<int>>) {
    |rows| == |addrs| && forall r :: 0 <= r < |rows| ==> |addrs[r]| == |Nodes(rows[r])|
  }

  function TableOf(rows: Schema, addrs: seq<seq<int>>): (t: Table)
    requires SameSizes(rows, addrs)
    ensures |t| == |rows|
  {
    seq(|rows|, r requires 0 <= r < |rows| => Zip(Nodes(rows[r]), addrs[r]))
  }

  ghost predicate Told(s: Parsing, done: bytes, ptr: nat -> int, pound: nat -> int32) {
    && SameSizes(s.rows, s.addrs) && s.parent < |s.rows|
    && var t := TableOf(s.rows, s.addrs); var r := Read(done, ptr, pound);
       && Says(t, s.up, s.at, s.parent, r.marks)
       && s.ptrs == r.ptrs && s.pounds == r.pounds && (s.inStructure > 0 <==> r.inStruct)
       && (s.inStructure > 0 || s.closed ==>
             s.start <= |s.rows[s.parent]| && r.structAddr == s.structAddr && r.fields == |s.rows[s.parent]| - s.start)
       && Numbers(s.fxlens, s.pounds, pound)
  }

  // The `#` lengths are the numbers passed, in order.
  ghost predicate Numbers(fxlens: seq<nat>, pounds: nat, pound: nat -> int32) {
    |fxlens| == pounds && forall k :: 0 <= k < |fxlens| ==> fxlens[k] == pound(k)
  }

  lemma StartTold(ptr: nat -> int, pound: nat -> int32)
    ensures Told(Start(), [], ptr, pound)
  {
    NoNodes();
    var t := TableOf(Start().rows, Start().addrs);
    assert t[0] == [];
    assert RowMarks(t, 0, 0) == [];
  }

  // One node more, at the end of the open row.
  lemma TableExtended(s: Parsing, item: Item, a: int)
    requires ShapeOk(s) && !item.Struct? && ShapeOk(Extended(s, item, [a]))
    ensures |NodesOf(item)| == 1 && SameSizes(s.rows, s.addrs)
    ensures var e := Extended(s, item, [a]);
      SameSizes(e.rows, e.addrs)
      && var t := TableOf(s.rows, s.addrs);
         TableOf(e.rows, e.addrs) == t[s.parent := t[s.parent] + [Cell(NodesOf(item)[0], a)]]
  {
    hide Nodes, NodesOf, RowOk;
    OneNode(item);
    NodesAppend(s.rows[s.parent], item);
    var e, t := Extended(s, item, [a]), TableOf(s.rows, s.addrs);
    var t' := t[s.parent := t[s.parent] + [Cell(NodesOf(item)[0], a)]];
    forall r | 0 <= r < |t'| ensures TableOf(e.rows, e.addrs)[r] == t'[r] {
    }
  }

  lemma AtomTold(s: Parsing, done: bytes, c: byte, ptr: nat -> int, pound: nat -> int32)
    requires Sound(s, done) && Told(s, done, ptr, pound) && !s.awaiting && (NumberLetter(c) || c == LETTER_S)
    requires ShapeOk(s) && (s.inStructure > 0 ==> TailOk(s.rows[s.parent], s.addrs[s.parent], s.start, s.structAddr))
    ensures Told(AtomStep(s, c, ptr(s.ptrs)), done + [c], ptr, pound)
  {
    hide Sound, TailOk, ShapeOk, Nodes, Says, Numbers, FieldAddress, AtomFor, Read, FieldPlace, TableOf, SameSizes;
    var f := AtomFor(c);
    LetterFacts(c);
    var a := if s.inStructure > 0 then FieldAddress(s, f) else ptr(s.ptrs);
    AtomShape(s, f, a);
    TableExtended(s, Item.Atom(f), a);
    AppendMark(TableOf(s.rows, s.addrs), s.up, s.at, s.parent, Read(done, ptr, pound).marks, Cell(Leaf(f), a));
    ReadNext(done, c, ptr, pound);
    if s.inStructure > 0 {
      FieldWhere(s, done, f, ptr, pound);
    }
  }

  lemma AtomShape(s: Parsing, f: Field, a: int)
    requires ShapeOk(s) && ItemOk(Item.Atom(f))
    ensures ShapeOk(Extended(s, Item.Atom(f), [a]))
  {
    hide Nodes, RowOk, ItemOk;
    OneNode(Item.Atom(f));
    ExtendedShape(s, Item.Atom(f), [a]);
  }

  // The address taken from the last node is the one read off the last mark.
  lemma FieldWhere(s: Parsing, done: bytes, f: Field, ptr: nat -> int, pound: nat -> int32)
    requires ShapeOk(s) && Told(s, done, ptr, pound) && s.inStructure > 0 && StructField(f)
    requires TailOk(s.rows[s.parent], s.addrs[s.parent], s.start, s.structAddr)
    ensures 0 < Align(f) && FieldAddress(s, f) == FieldPlace(Read(done, ptr, pound), f)
  {
    hide Says, Read, Numbers, Offset, CalcFieldAddr;
    var row, addr := s.rows[s.parent], s.addrs[s.parent];
    if s.start < |row| {
      FieldsBehind(s);
      LastLeaf(s);
      var t := TableOf(s.rows, s.addrs);
      ReplaceMark(t, s.up, s.at, s.parent, Read(done, ptr, pound).marks, t[s.parent][|t[s.parent]| - 1]);
      assert FieldsOf(row[s.start..])[|row| - s.start - 1] == row[s.start..][|row| - s.start - 1].field == Last(row).field;
    }
  }

  lemma LastLeaf(s: Parsing)
    requires ShapeOk(s) && TailOk(s.rows[s.parent], s.addrs[s.parent], s.start, s.structAddr) && s.start < |s.rows[s.parent]|
    ensures SameSizes(s.rows, s.addrs) && Last(s.rows[s.parent]).Atom?
    ensures var cells := TableOf(s.rows, s.addrs)[s.parent]; var addr := s.addrs[s.parent];
      cells != [] && addr != [] && cells[|cells| - 1] == Cell(Leaf(Last(s.rows[s.parent]).field), addr[|addr| - 1])
  {
    hide Nodes, Offset;
    var row := s.rows[s.parent];
    assert row[s.start..][|row| - s.start - 1] == Last(row);
    LastNode(row);
  }

  lemma LastNode(row: Row)
    requires row != [] && Last(row).Atom?
    ensures Nodes(row) != [] && Nodes(row)[|Nodes(row)| - 1] == Leaf(Last(row).field)
  {
    hide Nodes;
    var most := row[..|row| - 1];
    assert row == most + [Last(row)];
    NodesAppend(most, Last(row));
  }

  lemma BlobTold(s: Parsing, done: bytes, ptr: nat -> int, pound: nat -> int32)
    requires Told(s, done, ptr, pound) && ShapeOk(s) && s.inStructure == 0
    ensures Told(Extended(s, Item.Atom(Blob), [ptr(s.ptrs)]).(closed := false, ptrs := s.ptrs + 1), done + [LETTER_B], ptr, pound)
  {
    hide ShapeOk, Nodes, Says, Numbers, Read, TableOf, SameSizes;
    AtomShape(s, Blob, ptr(s.ptrs));
    TableExtended(s, Item.Atom(Blob), ptr(s.ptrs));
    AppendMark(TableOf(s.rows, s.addrs), s.up, s.at, s.parent, Read(done, ptr, pound).marks, Cell(Leaf(Blob), ptr(s.ptrs)));
    ReadNext(done, LETTER_B, ptr, pound);
  }

  lemma ArrayTold(s: Parsing, done: bytes, ptr: nat -> int, pound: nat -> int32)
    requires Told(s, done, ptr, pound) && ShapeOk(s) && ShapeOk(ArrayStep(s)) && s.inStructure == 0
    ensures Told(ArrayStep(s), done + [LETTER_A], ptr, pound)
  {
    hide Nodes, Says, Numbers, Read, RowOk;
    var t, item, s' := TableOf(s.rows, s.addrs), Item.Array(|s.rows|), ArrayStep(s);
    OneNode(item);
    ExtendedShape(s, item, [0]);
    TableExtended(s, item, 0);
    OpenMarks(t, s.up, s.at, s.parent, Read(done, ptr, pound).marks);
    ReadNext(done, LETTER_A, ptr, pound);
    NoNodes();
    assert TableOf(s'.rows, s'.addrs) == t[s.parent := t[s.parent] + [Cell(Ary(|t|), 0)]] + [[]];
  }

  lemma StructTold(s: Parsing, done: bytes, ptr: nat -> int, pound: nat -> int32)
    requires Told(s, done, ptr, pound) && ShapeOk(s) && s.inStructure == 0
    ensures Told(StructStep(s, ptr(s.ptrs)), done + [STRUCT], ptr, pound)
  {
    hide Nodes, Says, Numbers, Read, TableOf, SameSizes;
    ReadNext(done, STRUCT, ptr, pound);
  }

  lemma OpenTold(s: Parsing, done: bytes, ptr: nat -> int, pound: nat -> int32)
    requires Told(s, done, ptr, pound) && s.awaiting
    ensures Told(s.(awaiting := false, level := s.level + 1, closed := false), done + [OPEN], ptr, pound)
  {
    hide Nodes, Says, Numbers, Read, TableOf, SameSizes;
    ReadNext(done, OPEN, ptr, pound);
  }

  lemma EndStructTold(s: Parsing, done: bytes, ptr: nat -> int, pound: nat -> int32)
    requires Told(s, done, ptr, pound) && s.inStructure > 0 && ShapeOk(s) && s.level > 0 && s.start < |s.rows[s.parent]|
    requires TailOk(s.rows[s.parent], s.addrs[s.parent], s.start, s.structAddr)
    ensures Told(EndStructStep(s), done + [CLOSE], ptr, pound)
  {
    hide Nodes, Says, Numbers, Read, TableOf, SameSizes, Offset, Widest, CalcFieldAddr;
    ReadNext(done, CLOSE, ptr, pound);
  }

  lemma EndArrayTold(s: Parsing, done: bytes, ptr: nat -> int, pound: nat -> int32)
    requires Told(s, done, ptr, pound) && s.inStructure == 0 && s.parent > 0 && s.level > 0 && ShapeOk(s)
    ensures Told(s.(level := s.level - 1, parent := s.up[s.parent], closed := false), done + [CLOSE], ptr, pound)
  {
    hide Nodes, Says, Numbers, Read, TableOf, SameSizes;
    CloseMarks(TableOf(s.rows, s.addrs), s.up, s.at, s.parent, Read(done, ptr, pound).marks);
    ReadNext(done, CLOSE, ptr, pound);
  }

  lemma AtomHashTold(s: Parsing, done: bytes, ns: seq<nat>, ptr: nat -> int, pound: nat -> int32)
    requires Told(s, done, ptr, pound) && ShapeOk(s) && s.rows[s.parent] != [] && Last(s.rows[s.parent]).Atom?
    requires !Last(s.rows[s.parent]).field.Blob? && RowOk(s.rows[s.parent]) && 1 <= Product(ns)
    requires ns != [] && done != [] && done[|done| - 1] != HASH && done[|done| - 1] != CLOSE
    requires forall k :: 0 <= k < |ns| ==> ns[k] == pound(s.pounds + k)
    ensures Told(AtomHashStep(s, ns, Product(ns)), done + Hashed(|ns|), ptr, pound)
  {
    hide Told, Nodes, Says, Numbers, Read, Hashed, RowOk, ItemOk, Product, TableOf, SameSizes, ShapeOk, AtomHashStep, MarkOf, WithNum, SlotAddr, RowMarks;
    ToldFacts(s, done, ptr, pound);
    var p, row, s' := s.parent, s.rows[s.parent], AtomHashStep(s, ns, Product(ns));
    var t, cell := TableReplaced(s, ns, Product(ns));
    ReplaceMark(t, s.up, s.at, p, Read(done, ptr, pound).marks, cell);
    AtomRead(done, ns, ptr, pound, t[p][|t[p]| - 1], cell);
    AtomHashFields(s, ns, Product(ns));
    NumbersFollow(s, ns, pound);
    ToldAfterAtom(s, s', done, done + Hashed(|ns|), ptr, pound, t[p := t[p][|t[p]| - 1 := cell]]);
  }

  lemma AtomHashFields(s: Parsing, ns: seq<nat>, prod: nat)
    requires ShapeOk(s) && s.rows[s.parent] != [] && Last(s.rows[s.parent]).Atom?
    ensures var t := AtomHashStep(s, ns, prod);
      && t == s.(rows := t.rows, fxlens := s.fxlens + ns, pounds := s.pounds + |ns|, closed := false)
      && |t.rows| == |s.rows| && |t.rows[t.parent]| == |s.rows[s.parent]|
  {
    hide Nodes, RowOk;
  }

  lemma NumbersFollow(s: Parsing, ns: seq<nat>, pound: nat -> int32)
    requires Numbers(s.fxlens, s.pounds, pound) && forall k :: 0 <= k < |ns| ==> ns[k] == pound(s.pounds + k)
    ensures Numbers(s.fxlens + ns, s.pounds + |ns|, pound)
  {
    var all := s.fxlens + ns;
    forall k | 0 <= k < |all| ensures all[k] == pound(k) {
      if k >= |s.fxlens| {
        assert all[k] == ns[k - |s.fxlens|];
      }
    }
  }

  // The last cell of the open row gets its number.
  lemma TableReplaced(s: Parsing, ns: seq<nat>, prod: nat) returns (t: Table, cell: Cell)
    requires ShapeOk(s) && s.rows[s.parent] != [] && Last(s.rows[s.parent]).Atom? && !Last(s.rows[s.parent]).field.Blob?
    requires RowOk(s.rows[s.parent]) && 1 <= prod
    ensures SameSizes(s.rows, s.addrs) && t == TableOf(s.rows, s.addrs)
    ensures var f := Last(s.rows[s.parent]).field; var row := t[s.parent]; var n := |row| - 1;
      && row != [] && row[n].node == Leaf(f) && cell == Cell(Leaf(WithNum(f, prod)), row[n].addr)
      && var s' := AtomHashStep(s, ns, prod);
         SameSizes(s'.rows, s'.addrs) && TableOf(s'.rows, s'.addrs) == t[s.parent := row[n := cell]]
  {
    hide Nodes, RowOk, ItemOk;
    var p, row, s' := s.parent, s.rows[s.parent], AtomHashStep(s, ns, prod);
    var f := Last(row).field;
    LastOk(row);
    NumKept(f, prod);
    LastReplaced(row, WithNum(f, prod));
    LastNode(row);
    RowReplaced(row, WithNum(f, prod));
    t := TableOf(s.rows, s.addrs);
    var n := |t[p]| - 1;
    cell := Cell(Leaf(WithNum(f, prod)), t[p][n].addr);
    assert TableOf(s'.rows, s'.addrs)[p] == t[p][n := cell];
    forall r | 0 <= r < |t| ensures TableOf(s'.rows, s'.addrs)[r] == t[p := t[p][n := cell]][r] {
    }
  }

  lemma RowReplaced(row: Row, f: Field)
    requires row != [] && Last(row).Atom?
    ensures Nodes(row) != [] && Nodes(row[|row| - 1 := Item.Atom(f)]) == Nodes(row)[|Nodes(row)| - 1 := Leaf(f)]
  {
    hide Nodes;
    var row', most := row[|row| - 1 := Item.Atom(f)], row[..|row| - 1];
    assert row == most + [Last(row)] && row' == most + [Item.Atom(f)];
    NodesAppend(most, Last(row));
    NodesAppend(most, Item.Atom(f));
  }

  lemma StructHashTold(s: Parsing, done: bytes, ns: seq<nat>, ptr: nat -> int, pound: nat -> int32)
    requires Told(s, done, ptr, pound) && ShapeOk(s) && s.closed && s.inStructure == 0
    requires TailOk(s.rows[s.parent], s.addrs[s.parent], s.start, s.structAddr)
    requires ns != [] && done != [] && done[|done| - 1] == CLOSE
    requires forall k :: 0 <= k < |ns| ==> ns[k] == pound(s.pounds + k)
    ensures Told(StructHashStep(s, ns, Product(ns)), done + Hashed(|ns|), ptr, pound)
  {
    hide Told, Nodes, Says, Numbers, Read, Hashed, RowOk, Product, TailOk, TableOf, SameSizes, ShapeOk, StructHashStep, MarkOf, NodesOf;
    var s' := StructHashStep(s, ns, Product(ns));
    ToldFacts(s, done, ptr, pound);
    var t, cell := TablePounded(s, ns, Product(ns));
    StructHashFields(s, ns, Product(ns));
    AppendMark(t, s.up, s.at, s.parent, Read(done, ptr, pound).marks, cell);
    LoopRead(done, ns, ptr, pound, cell);
    NumbersFollow(s, ns, pound);
    ToldAfter(s', done + Hashed(|ns|), ptr, pound, t[s.parent := t[s.parent] + [cell]]);
  }

  lemma AtomRead(done: bytes, ns: seq<nat>, ptr: nat -> int, pound: nat -> int32, old': Cell, cell: Cell)
    requires ns != [] && done != [] && done[|done| - 1] != HASH && done[|done| - 1] != CLOSE
    requires var r := Read(done, ptr, pound);
      && (forall k :: 0 <= k < |ns| ==> ns[k] == pound(r.pounds + k))
      && old'.node.Leaf? && !old'.node.field.Blob? && r.marks != [] && r.marks[|r.marks| - 1] == MarkOf(old')
    requires cell == Cell(Leaf(WithNum(old'.node.field, Product(ns))), old'.addr)
    ensures var r := Read(done, ptr, pound);
      Read(done + Hashed(|ns|), ptr, pound) == r.(marks := r.marks[|r.marks| - 1 := MarkOf(cell)], pounds := r.pounds + |ns|)
  {
    hide Read, Hashed, Product;
    ReadHashes(done, ns, ptr, pound);
  }

  lemma ToldFacts(s: Parsing, done: bytes, ptr: nat -> int, pound: nat -> int32)
    requires Told(s, done, ptr, pound)
    ensures SameSizes(s.rows, s.addrs) && s.parent < |s.rows|
    ensures var r := Read(done, ptr, pound);
      && Says(TableOf(s.rows, s.addrs), s.up, s.at, s.parent, r.marks)
      && s.ptrs == r.ptrs && s.pounds == r.pounds && (s.inStructure > 0 <==> r.inStruct)
      && (s.closed ==> s.start <= |s.rows[s.parent]| && r.fields == |s.rows[s.parent]| - s.start)
    ensures Numbers(s.fxlens, s.pounds, pound)
  {
    hide SameSizes, Says, Numbers, Read, TableOf;
  }

  // Behind the number of an atom.
  lemma ToldAfterAtom(s: Parsing, s': Parsing, done: bytes, done': bytes, ptr: nat -> int, pound: nat -> int32, t: Table)
    requires Told(s, done, ptr, pound)
    requires SameSizes(s'.rows, s'.addrs) && s'.parent == s.parent && |s'.rows| == |s.rows| && t == TableOf(s'.rows, s'.addrs)
    requires var r := Read(done, ptr, pound); var r' := Read(done', ptr, pound);
      Says(t, s'.up, s'.at, s'.parent, r'.marks) && s'.pounds == r'.pounds && r' == r.(marks := r'.marks, pounds := r'.pounds)
    requires s' == s.(rows := s'.rows, fxlens := s'.fxlens, pounds := s'.pounds, closed := false)
    requires |s'.rows[s'.parent]| == |s.rows[s.parent]| && Numbers(s'.fxlens, s'.pounds, pound)
    ensures Told(s', done', ptr, pound)
  {
    hide SameSizes, Says, Numbers, Read, TableOf;
  }

  lemma ToldAfter(s: Parsing, done: bytes, ptr: nat -> int, pound: nat -> int32, t: Table)
    requires SameSizes(s.rows, s.addrs) && s.parent < |s.rows| && t == TableOf(s.rows, s.addrs)
    requires var r := Read(done, ptr, pound);
      Says(t, s.up, s.at, s.parent, r.marks) && s.ptrs == r.ptrs && s.pounds == r.pounds && !r.inStruct
    requires s.inStructure == 0 && !s.closed && Numbers(s.fxlens, s.pounds, pound)
    ensures Told(s, done, ptr, pound)
  {
    hide SameSizes, Says, Numbers, Read, TableOf;
  }

  lemma LoopRead(done: bytes, ns: seq<nat>, ptr: nat -> int, pound: nat -> int32, cell: Cell)
    requires ns != [] && done != [] && done[|done| - 1] == CLOSE
    requires forall k :: 0 <= k < |ns| ==> ns[k] == pound(Read(done, ptr, pound).pounds + k)
    requires cell.node.Pound? && cell.node.span == Read(done, ptr, pound).fields && cell.node.count == Product(ns)
    ensures var r := Read(done, ptr, pound);
      Read(done + Hashed(|ns|), ptr, pound) == r.(marks := r.marks + [MarkOf(cell)], pounds := r.pounds + |ns|)
  {
    hide Read, Hashed, Product;
    ReadHashes(done, ns, ptr, pound);
  }

  lemma StructHashFields(s: Parsing, ns: seq<nat>, prod: nat)
    requires ShapeOk(s) && TailOk(s.rows[s.parent], s.addrs[s.parent], s.start, s.structAddr)
    ensures var t := StructHashStep(s, ns, prod);
      && t == s.(rows := t.rows, addrs := t.addrs, fxlens := s.fxlens + ns, pounds := s.pounds + |ns|, closed := false)
      && |t.rows| == |s.rows|
  {
    hide Nodes, RowOk;
  }

  // The open row gets its '#' node.
  lemma TablePounded(s: Parsing, ns: seq<nat>, prod: nat) returns (t: Table, cell: Cell)
    requires ShapeOk(s) && TailOk(s.rows[s.parent], s.addrs[s.parent], s.start, s.structAddr)
    ensures SameSizes(s.rows, s.addrs) && t == TableOf(s.rows, s.addrs) && s.start <= |s.rows[s.parent]|
    ensures cell == Cell(Pound(|s.rows[s.parent]| - s.start, prod, s.interEltLen), 0)
    ensures var s' := StructHashStep(s, ns, prod);
      SameSizes(s'.rows, s'.addrs) && TableOf(s'.rows, s'.addrs) == t[s.parent := t[s.parent] + [cell]]
  {
    hide Nodes, RowOk, TailOk;
    var p, row, s' := s.parent, s.rows[s.parent], StructHashStep(s, ns, prod);
    TailStart(row, s.addrs[p], s.start, s.structAddr);
    PoundAppended(row, s.addrs[p], s.start, s.structAddr, prod, s.interEltLen);
    t := TableOf(s.rows, s.addrs);
    cell := Cell(Pound(|row| - s.start, prod, s.interEltLen), 0);
    assert TableOf(s'.rows, s'.addrs)[p] == t[p] + [cell];
    forall r | 0 <= r < |t| ensures TableOf(s'.rows, s'.addrs)[r] == t[p := t[p] + [cell]][r] {
    }
  }

  // ----- the whole scan -----

  function Start(): Parsing {
    Parsing([[]], [[]], [0], [0], 0, [], 0, false, 0, 0, 0, 0, false, 0, 0)
  }

  lemma StartSound()
    ensures Sound(Start(), [])
  {
    NoNodes();
    RootDepth(Start().up);
    assert !HasText([[]]);
  }

  // What the scan leaves is a schema all of tpl's walks can work on, with the
  // format string it came from, and every structure in it laid out as in C.
  lemma FormatGivesSchema(s: Parsing, fmt: bytes)
    requires Sound(s, fmt) && s.level == 0 && !s.awaiting && fmt != []
    ensures s.parent == 0 && SchemaOk(s.rows) && FmtOk(s.rows, fmt, s.fxlens) && LaidOk(s.rows, s.addrs)
  {
    hide LaidOk, RowOk, Nodes, TailOk, HasText, Hashes, Depth;
    assert !EndsIn(fmt, [LETTER_A, STRUCT]);
    if s.parent > 0 {
      DepthNew(s.up, s.parent);
    }
    assert s.parent == 0;
    assert s.rows[0] != [];
  }

  // ----- the scan and the characters it has read -----

  ghost predicate EndsInAtom(s: Parsing)
    requires s.parent < |s.rows|
  {
    s.rows[s.parent] != [] && Last(s.rows[s.parent]).Atom? && !Last(s.rows[s.parent]).field.Blob?
  }

  // The state of the scan, as the characters alone have it.
  ghost predicate Tracks(s: Parsing, done: bytes)
    requires s.parent < |s.rows|
  {
    && s.level == Level(done) && (s.inStructure > 0 <==> InStruct(done)) && s.pounds == Hashes(done)
    && (EndsIn(done, [CLOSE]) ==> (s.closed <==> InStruct(done[..|done| - 1])))
    && (EndsNumbered(done) <==> EndsInAtom(s))
  }

  lemma StartTracks()
    ensures Tracks(Start(), [])
  {
  }

  lemma AtomTracks(s: Parsing, done: bytes, c: byte, ptr: int)
    requires ShapeOk(s) && Tracks(s, done) && AtomLetter(c)
    requires s.inStructure > 0 ==> TailOk(s.rows[s.parent], s.addrs[s.parent], s.start, s.structAddr)
    ensures Tracks(AtomStep(s, c, ptr), done + [c])
  {
    hide Level, InStruct, EndsNumbered, Hashes, FieldAddress, TailOk, RowOk, Nodes;
    FormatNext(done, c);
  }

  lemma BlobTracks(s: Parsing, done: bytes, ptr: int)
    requires ShapeOk(s) && Tracks(s, done)
    ensures Tracks(Extended(s, Item.Atom(Blob), [ptr]).(closed := false, ptrs := s.ptrs + 1), done + [LETTER_B])
  {
    hide Level, InStruct, EndsNumbered, Hashes, RowOk, Nodes;
    FormatNext(done, LETTER_B);
  }

  lemma ArrayTracks(s: Parsing, done: bytes)
    requires ShapeOk(s) && Tracks(s, done)
    ensures Tracks(ArrayStep(s), done + [LETTER_A])
  {
    hide Level, InStruct, EndsNumbered, Hashes, RowOk;
    FormatNext(done, LETTER_A);
  }

  lemma StructTracks(s: Parsing, done: bytes, ptr: int)
    requires ShapeOk(s) && Tracks(s, done)
    ensures Tracks(StructStep(s, ptr), done + [STRUCT])
  {
    hide Level, InStruct, EndsNumbered, Hashes, RowOk;
    FormatNext(done, STRUCT);
  }

  lemma OpenTracks(s: Parsing, done: bytes)
    requires ShapeOk(s) && Tracks(s, done)
    ensures Tracks(s.(awaiting := false, level := s.level + 1, closed := false), done + [OPEN])
  {
    hide Level, InStruct, EndsNumbered, Hashes, RowOk;
    FormatNext(done, OPEN);
  }

  lemma EndStructTracks(s: Parsing, done: bytes)
    requires ShapeOk(s) && Tracks(s, done) && s.level > 0 && s.inStructure > 0 && s.start < |s.rows[s.parent]|
    requires TailOk(s.rows[s.parent], s.addrs[s.parent], s.start, s.structAddr)
    ensures Tracks(EndStructStep(s), done + [CLOSE])
  {
    hide Level, InStruct, EndsNumbered, Hashes, RowOk, Nodes, Offset;
    FormatNext(done, CLOSE);
    var row := s.rows[s.parent];
    var fs := FieldsOf(row[s.start..]);
    assert StructField(fs[|fs| - 1]);
    assert row[s.start..][|fs| - 1] == Last(row);
  }

  lemma EndArrayTracks(s: Parsing, done: bytes)
    requires ShapeOk(s) && Tracks(s, done) && s.parent > 0 && s.level > 0 && s.inStructure == 0
    requires s.up[s.parent] < |s.rows| && s.rows[s.up[s.parent]] != [] && Last(s.rows[s.up[s.parent]]).Array?
    ensures Tracks(s.(level := s.level - 1, parent := s.up[s.parent], closed := false), done + [CLOSE])
  {
    hide Level, InStruct, EndsNumbered, Hashes, RowOk, Nodes;
    FormatNext(done, CLOSE);
  }

  // The array at hand is the last node of the row above.
  lemma LastIsOpenArray(s: Parsing, done: bytes, ptr: nat -> int, pound: nat -> int32)
    requires ShapeOk(s) && Told(s, done, ptr, pound) && s.parent > 0
    ensures s.up[s.parent] < s.parent && s.rows[s.up[s.parent]] != [] && Last(s.rows[s.up[s.parent]]).Array?
  {
    hide Read, PathMarks, Hooked, Nodes, RowOk;
    var q := s.up[s.parent];
    var t: Table := TableOf(s.rows, s.addrs);
    assert t[q] != [] && t[q][|t[q]| - 1].node == Ary(s.parent);
    LastArray(s.rows[q]);
  }

  lemma LastArray(row: Row)
    requires Nodes(row) != [] && Nodes(row)[|Nodes(row)| - 1].Ary?
    ensures row != [] && Last(row).Array?
  {
    if row == [] {
      assert false;
    } else {
      var most := row[..|row| - 1];
      NodesAppend(most, Last(row));
      assert most + [Last(row)] == row;
    }
  }

  lemma AtomHashTracks(s: Parsing, done: bytes, ns: seq<nat>, prod: nat)
    requires ShapeOk(s) && Tracks(s, done) && ns != [] && EndsInAtom(s) && !EndsIn(done, [CLOSE])
    ensures Tracks(AtomHashStep(s, ns, prod), done + Hashed(|ns|))
  {
    hide Level, InStruct, EndsNumbered, Hashes, RowOk, Hashed;
    FormatHashed(done, |ns|);
  }

  lemma StructHashTracks(s: Parsing, done: bytes, ns: seq<nat>, prod: nat)
    requires ShapeOk(s) && Tracks(s, done) && ns != [] && EndsIn(done, [CLOSE])
    requires TailOk(s.rows[s.parent], s.addrs[s.parent], s.start, s.structAddr)
    ensures Tracks(StructHashStep(s, ns, prod), done + Hashed(|ns|))
  {
    hide Level, InStruct, EndsNumbered, Hashes, RowOk, Hashed, TailOk;
    FormatHashed(done, |ns|);
  }

  // The prefix decides what the next character does.
  lemma TrackedVerdict(s: Parsing, done: bytes, c: byte)
    requires ShapeOk(s) && LevelOk(s, done) && Tracks(s, done)
    ensures Unnoticed(s, c) && c != HASH ==> CharVerdict(done, c).Odd?
    ensures !Unnoticed(s, c) ==> CharVerdict(done, c) == if Takes(s, c, EndsIn(done, [OPEN])) then Mapped else Failed
  {
    hide Level, InStruct, EndsNumbered, Hashes, RowOk, Nodes, Depth;
  }

  predicate Takes(s: Parsing, c: byte, opening: bool) {
    if AtomLetter(c) then !s.awaiting
    else if c == LETTER_B then !s.awaiting && s.inStructure == 0
    else if Opens(c) then s.inStructure == 0
    else if c == CLOSE then s.level > 0 && !opening
    else c == OPEN && s.awaiting
  }

  // A '#' that is taken does not stand behind an opening.
  lemma NotOpening(fmt: bytes, s: Parsing, c: nat)
    requires 0 < c <= |fmt| && ShapeOk(s) && LevelOk(s, fmt[..c]) && fmt[c - 1] != OPEN && !s.awaiting
    ensures !EndsIn(fmt[..c], [OPEN, STRUCT])
  {
    hide Depth;
    LastOf(fmt, c);
  }

  // Contiguous '#': their numbers and the product of them.
  method ReadPounds(fmt: bytes, c: nat, pound: nat -> int32, from: nat) returns (ns: seq<nat>, prod: nat, ok: bool)
    requires c < |fmt| && fmt[c] == HASH && from == Hashes(fmt[..c])
    ensures ok <==> !RunFatal(fmt, c, pound)
    ensures ok ==> ns != [] && 1 <= prod == Product(ns) && c + |ns| <= |fmt| && fmt[c..c + |ns|] == Hashed(|ns|)
    ensures ok ==> (c + |ns| < |fmt| ==> fmt[c + |ns|] != HASH) && forall k :: c <= k < c + |ns| ==> fmt[k] == HASH
    ensures ok ==> forall k :: 0 <= k < |ns| ==> 1 <= ns[k] == pound(from + k)
  {
    hide Product, ProductOf, Hashes;
    NoProduct();
    ns, prod, ok := [], 1, true;
    var peek := c;
    while peek < |fmt| && fmt[peek] == HASH
      invariant c <= peek <= |fmt| && |ns| == peek - c <= MAX_CONTIGUOUS && 1 <= prod == Product(ns)
      invariant forall k :: c <= k < peek ==> fmt[k] == HASH
      invariant forall k :: 0 <= k < |ns| ==> 1 <= ns[k] == pound(from + k)
    {
      var n: int := pound(from + |ns|);
      RunReaches(fmt, c, peek);
      if n < 1 || |ns| >= MAX_CONTIGUOUS {
        return ns, prod, false;
      }
      AtLeastOne(prod, n);
      ProductNext(ns, n);
      ns := ns + [n];
      prod := ProductOf(prod, n);
      peek := peek + 1;
    }
    RunEnds(fmt, c, |ns|);
    forall j | from <= j < from + |ns| ensures pound(j) >= 1 {
      assert ns[j - from] == pound(from + (j - from));
    }
  }

  lemma NoProduct()
    ensures Product([]) == 1
  {
  }

  lemma ProductNext(ns: seq<nat>, n: nat)
    ensures Product(ns + [n]) == ProductOf(Product(ns), n)
  {
    assert (ns + [n])[..|ns|] == ns;
  }

  lemma AtLeastOne(a: nat, b: nat)
    requires 1 <= a && 1 <= b
    ensures 1 <= ProductOf(a, b)
  {
  }

  // Row r is filled in below tree node rowNode[r].
  ghost predicate Hangs(t: TplFree.Tree, parent: nat, rowNode: seq<nat>, s: Parsing)
    requires ShapeOk(s)
  {
    && |rowNode| == |s.rows| && parent == rowNode[s.parent]
    && (forall r :: 0 <= r < |rowNode| ==> rowNode[r] < |t|)
    && (forall r :: 0 < r < |rowNode| ==>
          t[rowNode[r]].kind.Array? && t[rowNode[r]].parent == Some(rowNode[s.up[r]]))
  }

  lemma HangsOn(t: TplFree.Tree, t': TplFree.Tree, parent: nat, kind: TplFree.Kind, rowNode: seq<nat>, s: Parsing, s': Parsing)
    requires ShapeOk(s) && ShapeOk(s') && Hangs(t, parent, rowNode, s) && s'.up == s.up && s'.parent == s.parent
    requires TplFree.Open(t, parent) && TplFree.CanTake(t, parent) && !kind.Root? && t' == TplFree.Added(t, parent, kind)
    ensures Hangs(t', parent, rowNode, s')
  {
    hide TplFree.Open, TplFree.Added, Nodes, RowOk;
    forall r | 0 < r < |rowNode|
      ensures t'[rowNode[r]].kind.Array? && t'[rowNode[r]].parent == Some(rowNode[s.up[r]])
    {
      TplFree.AddedAt(t, parent, kind, rowNode[r]);
    }
  }

  lemma HangsNew(t: TplFree.Tree, t': TplFree.Tree, parent: nat, rowNode: seq<nat>, s: Parsing)
    requires ShapeOk(s) && ShapeOk(ArrayStep(s)) && Hangs(t, parent, rowNode, s)
    requires TplFree.Open(t, parent) && TplFree.CanTake(t, parent) && t' == TplFree.Added(t, parent, TplFree.Array)
    ensures Hangs(t', |t|, rowNode + [|t|], ArrayStep(s))
  {
    hide TplFree.Open, TplFree.Added, Nodes, RowOk;
    var s', more := ArrayStep(s), rowNode + [|t|];
    TplFree.AddedAt(t, parent, TplFree.Array, parent);
    forall r | 0 < r < |more|
      ensures t'[more[r]].kind.Array? && t'[more[r]].parent == Some(more[s'.up[r]])
    {
      if r < |rowNode| {
        TplFree.AddedAt(t, parent, TplFree.Array, rowNode[r]);
      }
    }
  }

  lemma SoundShape(s: Parsing, done: bytes)
    requires Sound(s, done)
    ensures ShapeOk(s) && LevelOk(s, done) && (s.closed ==> s.inStructure == 0) && (done == [] ==> s.rows[s.parent] == [] && s.level == 0)
    ensures s.inStructure > 0 || s.closed ==> TailOk(s.rows[s.parent], s.addrs[s.parent], s.start, s.structAddr)
  {
  }

  // A node without children goes to the end of the open list.
  method NewLeaf(tree: TplFree.Mapping, ghost rowNode: seq<nat>, ghost s: Parsing, ghost t: Parsing)
    requires tree.Whole() && ShapeOk(s) && ShapeOk(t) && Hangs(tree.tree, tree.parent, rowNode, s)
    requires t.up == s.up && t.parent == s.parent
    modifies tree
    ensures tree.Whole() && ShapeOk(t) && Hangs(tree.tree, tree.parent, rowNode, t)
  {
    hide ShapeOk, Hangs, TplFree.Open, TplFree.Added, TplFree.CanTake, TplFree.All;
    ghost var before, parent := tree.tree, tree.parent;
    tree.AddAtom();
    HangsOn(before, tree.tree, parent, TplFree.Atom, rowNode, s, t);
  }

  method NewArray(tree: TplFree.Mapping, ghost rowNode: seq<nat>, ghost s: Parsing) returns (ghost more: seq<nat>)
    requires tree.Whole() && ShapeOk(s) && ShapeOk(ArrayStep(s)) && Hangs(tree.tree, tree.parent, rowNode, s)
    modifies tree
    ensures tree.Whole() && ShapeOk(ArrayStep(s)) && Hangs(tree.tree, tree.parent, more, ArrayStep(s))
  {
    hide ShapeOk, Hangs, TplFree.Open, TplFree.Added, TplFree.CanTake, TplFree.All;
    ghost var before, parent := tree.tree, tree.parent;
    tree.OpenArray();
    more := rowNode + [|before|];
    HangsNew(before, tree.tree, parent, rowNode, s);
  }

  method EndArray(tree: TplFree.Mapping, ghost rowNode: seq<nat>, s: Parsing) returns (t: Parsing)
    requires tree.Whole() && ShapeOk(s) && s.parent > 0 && s.level > 0 && Hangs(tree.tree, tree.parent, rowNode, s)
    modifies tree
    ensures t == s.(level := s.level - 1, parent := s.up[s.parent], closed := false)
    ensures tree.Whole() && ShapeOk(t) && Hangs(tree.tree, tree.parent, rowNode, t)
  {
    hide TplFree.Open, TplFree.Added, TplFree.CanTake, TplFree.All, Nodes, RowOk;
    t := s.(level := s.level - 1, parent := s.up[s.parent], closed := false);
    tree.CloseArray();
  }

  // A '(' is due, and the code takes this character instead.
  predicate Unnoticed(s: Parsing, ch: byte) {
    s.awaiting && (((ch == LETTER_A || ch == STRUCT) && s.inStructure == 0) || (ch == CLOSE && s.level > 0))
  }

  // The cases of the switch but '#'.
  method MapChar(ch: byte, previous: byte, s: Parsing, ptr: nat -> int, tree: TplFree.Mapping,
                 ghost done: bytes, ghost pound: nat -> int32, ghost rowNode: seq<nat>)
    returns (t: Parsing, ok: bool, ghost more: seq<nat>)
    requires Sound(s, done) && Told(s, done, ptr, pound)
    requires tree.Whole() && ShapeOk(s) && Hangs(tree.tree, tree.parent, rowNode, s) && Tracks(s, done)
    requires ch != HASH && !Unnoticed(s, ch) && (done != [] ==> previous == done[|done| - 1])
    modifies tree
    ensures tree.Whole() && ok == Takes(s, ch, EndsIn(done, [OPEN]))
    ensures ok ==> Sound(t, done + [ch]) && Told(t, done + [ch], ptr, pound) && t.parent < |t.rows| && Tracks(t, done + [ch])
    ensures ok ==> ShapeOk(t) && Hangs(tree.tree, tree.parent, more, t)
  {
    hide Sound, Told, ShapeOk, Hangs, LevelOk, TailOk, AtomStep, ArrayStep, EndStructStep, StructStep, Tracks;
    t, ok, more := s, false, rowNode;
    SoundShape(s, done);
    if NumberLetter(ch) || ch == LETTER_S {
      if !s.awaiting {
        AtomSound(s, done, ch, ptr(s.ptrs));
        AtomTold(s, done, ch, ptr, pound);
        AtomTracks(s, done, ch, ptr(s.ptrs));
        t := AtomStep(s, ch, ptr(s.ptrs));
        SameRows(s, ch, ptr(s.ptrs));
        SoundShape(t, done + [ch]);
        NewLeaf(tree, rowNode, s, t);
        ok := true;
      }
    } else if ch == LETTER_B {
      if !s.awaiting && s.inStructure == 0 {
        BlobSound(s, done, ptr(s.ptrs));
        BlobTold(s, done, ptr, pound);
        BlobTracks(s, done, ptr(s.ptrs));
        t := Extended(s, Item.Atom(Blob), [ptr(s.ptrs)]).(closed := false, ptrs := s.ptrs + 1);
        SoundShape(t, done + [ch]);
        NewLeaf(tree, rowNode, s, t);
        ok := true;
      }
    } else if ch == LETTER_A {
      if s.inStructure == 0 {
        ArraySound(s, done);
        ArrayTracks(s, done);
        t := ArrayStep(s);
        SoundShape(t, done + [ch]);
        ArrayTold(s, done, ptr, pound);
        more := NewArray(tree, rowNode, s);
        ok := true;
      }
    } else if ch == STRUCT {
      if s.inStructure == 0 {
        StructSound(s, done, ptr(s.ptrs));
        StructTold(s, done, ptr, pound);
        StructTracks(s, done, ptr(s.ptrs));
        t := StructStep(s, ptr(s.ptrs));
        SoundShape(t, done + [ch]);
        SameHang(tree.tree, tree.parent, rowNode, s, t) by { StructRows(s, ptr(s.ptrs)); }
        ok := true;
      }
    } else if ch == CLOSE {
      t, ok := MapClose(previous, s, tree, done, ptr, pound, rowNode);
    } else if ch == OPEN {
      if s.awaiting {
        OpenSound(s, done);
        OpenTold(s, done, ptr, pound);
        OpenTracks(s, done);
        t := s.(awaiting := false, level := s.level + 1, closed := false);
        SoundShape(t, done + [ch]);
        SameHang(tree.tree, tree.parent, rowNode, s, t);
        ok := true;
      }
    }
  }

  method MapClose(previous: byte, s: Parsing, tree: TplFree.Mapping,
                  ghost done: bytes, ghost ptr: nat -> int, ghost pound: nat -> int32, ghost rowNode: seq<nat>)
    returns (t: Parsing, ok: bool)
    requires Sound(s, done) && Told(s, done, ptr, pound) && tree.Whole() && ShapeOk(s) && Hangs(tree.tree, tree.parent, rowNode, s)
    requires !Unnoticed(s, CLOSE) && (done != [] ==> previous == done[|done| - 1]) && Tracks(s, done)
    modifies tree
    ensures tree.Whole() && ok == (s.level > 0 && !EndsIn(done, [OPEN]))
    ensures ok ==> Sound(t, done + [CLOSE]) && Told(t, done + [CLOSE], ptr, pound) && t.parent < |t.rows| && Tracks(t, done + [CLOSE])
    ensures ok ==> ShapeOk(t) && Hangs(tree.tree, tree.parent, rowNode, t)
  {
    hide Sound, Told, ShapeOk, Hangs, TailOk, EndStructStep, Depth, Tracks;
    t, ok := s, false;
    SoundShape(s, done);
    if s.level > 0 && previous != OPEN {
      if s.inStructure > 0 && s.inStructure - 1 == s.level - 1 {
        EndStructSound(s, done);
        EndStructTold(s, done, ptr, pound);
        EndStructTracks(s, done);
        t := EndStructStep(s);
        EndStructRows(s);
        SoundShape(t, done + [CLOSE]);
        SameHang(tree.tree, tree.parent, rowNode, s, t);
      } else {
        EndArraySound(s, done);
        EndArrayTold(s, done, ptr, pound);
        LastIsOpenArray(s, done, ptr, pound);
        EndArrayTracks(s, done);
        t := EndArray(tree, rowNode, s);
      }
      ok := true;
    }
  }

  lemma SameRows(s: Parsing, c: byte, ptr: int)
    requires ShapeOk(s) && (NumberLetter(c) || c == LETTER_S)
    requires s.inStructure > 0 ==> TailOk(s.rows[s.parent], s.addrs[s.parent], s.start, s.structAddr)
    ensures AtomStep(s, c, ptr).up == s.up && AtomStep(s, c, ptr).parent == s.parent
  {
    hide FieldAddress;
  }

  lemma StructRows(s: Parsing, ptr: int)
    requires ShapeOk(s)
    ensures StructStep(s, ptr).rows == s.rows && StructStep(s, ptr).up == s.up && StructStep(s, ptr).parent == s.parent
  {
  }

  lemma EndStructRows(s: Parsing)
    requires ShapeOk(s) && s.level > 0 && s.start < |s.rows[s.parent]|
    requires TailOk(s.rows[s.parent], s.addrs[s.parent], s.start, s.structAddr)
    ensures EndStructStep(s).rows == s.rows && EndStructStep(s).up == s.up && EndStructStep(s).parent == s.parent
  {
  }

  lemma SameHang(t: TplFree.Tree, parent: nat, rowNode: seq<nat>, s: Parsing, s': Parsing)
    requires ShapeOk(s) && ShapeOk(s') && Hangs(t, parent, rowNode, s)
    requires s'.rows == s.rows && s'.up == s.up && s'.parent == s.parent
    ensures Hangs(t, parent, rowNode, s')
  {
  }

  // '#': the numbers, then the atom or the structure they repeat.
  method MapHash(fmt: bytes, c: nat, s: Parsing, pound: nat -> int32, tree: TplFree.Mapping, ghost ptr: nat -> int, ghost rowNode: seq<nat>)
    returns (t: Parsing, next: nat, result: MapResult)
    requires c < |fmt| && fmt[c] == HASH && (c > 0 ==> fmt[c - 1] != HASH)
    requires Sound(s, fmt[..c]) && Told(s, fmt[..c], ptr, pound)
    requires tree.Whole() && ShapeOk(s) && Hangs(tree.tree, tree.parent, rowNode, s) && Tracks(s, fmt[..c])
    modifies tree
    ensures tree.Whole() && c <= next <= |fmt| && result == Verdict(fmt, c, pound)
    ensures result.Mapped? ==> c < next && (next < |fmt| ==> fmt[next] != HASH) && forall j :: c <= j < next ==> fmt[j] == HASH
    ensures result.Mapped? ==> Sound(t, fmt[..next]) && Told(t, fmt[..next], ptr, pound) && t.parent < |t.rows| && Tracks(t, fmt[..next])
    ensures result.Mapped? ==> ShapeOk(t) && Hangs(tree.tree, tree.parent, rowNode, t)
  {
    hide Sound, Told, ShapeOk, Hangs, TailOk, AtomHashStep, StructHashStep, LevelOk, Product, RowOk, EndsIn, Hashed, Nodes, Read, TplFree.Open, TplFree.CanTake, TplFree.All, RunFatal, Tracks, Verdict;
    t, next, result := s, c, Failed;
    SoundShape(s, fmt[..c]);
    HashVerdict(fmt, c, s, pound);
    var row := s.rows[s.parent];
    if row == [] {
      return;
    }
    var appliesToStruct := fmt[c - 1] == CLOSE;
    if !appliesToStruct && !(Last(row).Atom? && !Last(row).field.Blob?) {
      return;
    }
    if s.awaiting || fmt[c - 1] == OPEN {
      return s, c, Odd;
    }
    var ns, prod, ok := ReadPounds(fmt, c, pound, s.pounds);
    if !ok {
      return s, c, Fatal;
    }
    if appliesToStruct && !s.closed {
      return s, c, Undefined;
    }
    PoundBounds(ns, pound, s.pounds);
    NotOpening(fmt, s, c);
    LastChar(fmt, c);
    next, result := c + |ns|, Mapped;
    PrefixHashed(fmt, c, |ns|);
    if appliesToStruct {
      t := HashStruct(s, ns, prod, tree, fmt[..c], ptr, pound, rowNode);
    } else {
      t := HashAtom(s, ns, prod, tree, fmt[..c], ptr, pound, rowNode);
    }
  }

  lemma HashVerdict(fmt: bytes, c: nat, s: Parsing, pound: nat -> int32)
    requires c < |fmt| && fmt[c] == HASH && (c > 0 ==> fmt[c - 1] != HASH)
    requires ShapeOk(s) && Sound(s, fmt[..c]) && Tracks(s, fmt[..c])
    ensures s.pounds == Hashes(fmt[..c]) && (s.rows[s.parent] != [] ==> c > 0)
    ensures Verdict(fmt, c, pound) ==
      if s.rows[s.parent] == [] || (fmt[c - 1] != CLOSE && !EndsInAtom(s)) then Failed
      else if s.awaiting || fmt[c - 1] == OPEN then Odd
      else if RunFatal(fmt, c, pound) then Fatal
      else if fmt[c - 1] == CLOSE && !s.closed then Undefined
      else Mapped
  {
    hide Level, InStruct, Hashes, RowOk, Nodes, Depth, RunFatal, ArraysOk, StructOk, CountsOk, LaidOk, EndsNumbered;
    if c > 0 {
      LastOf(fmt, c);
    } else {
      assert fmt[..c] == [];
      NothingNumbered();
    }
  }

  lemma NothingNumbered()
    ensures !EndsNumbered([])
  {
  }

  method HashStruct(s: Parsing, ns: seq<nat>, prod: nat, tree: TplFree.Mapping,
                    ghost done: bytes, ghost ptr: nat -> int, ghost pound: nat -> int32, ghost rowNode: seq<nat>)
    returns (t: Parsing)
    requires Sound(s, done) && Told(s, done, ptr, pound) && s.closed && !s.awaiting && s.inStructure == 0
    requires ns != [] && 1 <= prod == Product(ns) && done != [] && done[|done| - 1] == CLOSE
    requires forall k :: 0 <= k < |ns| ==> ns[k] == pound(s.pounds + k) && ns[k] < TWO_TO_THE_31
    requires tree.Whole() && ShapeOk(s) && Hangs(tree.tree, tree.parent, rowNode, s) && Tracks(s, done)
    modifies tree
    ensures tree.Whole() && Sound(t, done + Hashed(|ns|)) && Told(t, done + Hashed(|ns|), ptr, pound)
    ensures ShapeOk(t) && Hangs(tree.tree, tree.parent, rowNode, t) && t.parent < |t.rows| && Tracks(t, done + Hashed(|ns|))
  {
    hide Sound, Told, ShapeOk, Hangs, TailOk, StructHashStep, Product, Hashed, Tracks;
    StructHashTracks(s, done, ns, prod) by {
      SoundShape(s, done);
    }
    StructHashSound(s, done, ns, prod);
    StructHashTold(s, done, ns, ptr, pound);
    t := StructHashStep(s, ns, prod);
    StructHashRows(s, ns, prod);
    SoundShape(t, done + Hashed(|ns|));
    NewLeaf(tree, rowNode, s, t);
  }

  method HashAtom(s: Parsing, ns: seq<nat>, prod: nat, tree: TplFree.Mapping,
                  ghost done: bytes, ghost ptr: nat -> int, ghost pound: nat -> int32, ghost rowNode: seq<nat>)
    returns (t: Parsing)
    requires ShapeOk(s) && s.rows[s.parent] != [] && Last(s.rows[s.parent]).Atom? && !Last(s.rows[s.parent]).field.Blob?
    requires Sound(s, done) && Told(s, done, ptr, pound) && !s.awaiting && !EndsIn(done, [OPEN, STRUCT])
    requires ns != [] && 1 <= prod == Product(ns) && done != [] && done[|done| - 1] != HASH && done[|done| - 1] != CLOSE
    requires forall k :: 0 <= k < |ns| ==> ns[k] == pound(s.pounds + k) && ns[k] < TWO_TO_THE_31
    requires tree.Whole() && Hangs(tree.tree, tree.parent, rowNode, s) && Tracks(s, done)
    ensures tree.Whole() && Sound(t, done + Hashed(|ns|)) && Told(t, done + Hashed(|ns|), ptr, pound)
    ensures ShapeOk(t) && Hangs(tree.tree, tree.parent, rowNode, t) && t.parent < |t.rows| && Tracks(t, done + Hashed(|ns|))
  {
    hide Sound, Told, ShapeOk, Hangs, AtomHashStep, Product, Hashed, RowOk, Tracks;
    AtomHashTracks(s, done, ns, prod);
    AtomHashSound(s, done, ns, prod);
    OpenRowOk(s);
    AtomHashTold(s, done, ns, ptr, pound);
    t := AtomHashStep(s, ns, prod);
    AtomHashRows(s, ns, prod);
    SoundShape(t, done + Hashed(|ns|));
    HangsSame(tree.tree, tree.parent, rowNode, s, t);
  }

  lemma PrefixHashed(fmt: bytes, c: nat, n: nat)
    requires c + n <= |fmt| && fmt[c..c + n] == Hashed(n)
    ensures fmt[..c + n] == fmt[..c] + Hashed(n)
  {
    hide Hashed;
  }

  lemma LastChar(fmt: bytes, c: nat)
    requires 0 < c < |fmt|
    ensures fmt[..c] != [] && fmt[..c][|fmt[..c]| - 1] == fmt[c - 1]
  {
  }

  lemma OpenRowOk(s: Parsing)
    requires ShapeOk(s)
    ensures RowOk(s.rows[s.parent])
  {
  }

  lemma PoundBounds(ns: seq<nat>, pound: nat -> int32, from: nat)
    requires forall k :: 0 <= k < |ns| ==> 1 <= ns[k] == pound(from + k)
    ensures forall k :: 0 <= k < |ns| ==> ns[k] < TWO_TO_THE_31
  {
  }

  lemma AtomHashRows(s: Parsing, ns: seq<nat>, prod: nat)
    requires ShapeOk(s) && s.rows[s.parent] != [] && Last(s.rows[s.parent]).Atom?
    ensures var t := AtomHashStep(s, ns, prod); t.up == s.up && t.parent == s.parent && |t.rows| == |s.rows|
  {
  }

  lemma StructHashRows(s: Parsing, ns: seq<nat>, prod: nat)
    requires ShapeOk(s) && TailOk(s.rows[s.parent], s.addrs[s.parent], s.start, s.structAddr)
    ensures var t := StructHashStep(s, ns, prod); t.up == s.up && t.parent == s.parent
  {
  }

  lemma HangsSame(t: TplFree.Tree, parent: nat, rowNode: seq<nat>, s: Parsing, s': Parsing)
    requires ShapeOk(s) && ShapeOk(s') && Hangs(t, parent, rowNode, s)
    requires |s'.rows| == |s.rows| && s'.up == s.up && s'.parent == s.parent
    ensures Hangs(t, parent, rowNode, s')
  {
  }

  function CursorRow(addr: seq<int>): (r: seq<Cursor>)
    ensures |r| == |addr|
  {
    seq(|addr|, p requires 0 <= p < |addr| => Cursor(addr[p], 0, 0))
  }

  function CursorsAt(addrs: seq<seq<int>>): (r: seq<seq<Cursor>>)
    ensures |r| == |addrs|
  {
    seq(|addrs|, k requires 0 <= k < |addrs| => CursorRow(addrs[k]))
  }

  lemma RestingCursors(s: Parsing)
    requires ShapeOk(s)
    ensures AtRest(s.rows, CursorsAt(s.addrs))
  {
    hide Nodes, RowOk;
    forall r | 0 <= r < |s.rows| ensures RowAtRest(Nodes(s.rows[r]), CursorsAt(s.addrs)[r]) {
      FlatNodes(s.rows[r]);
    }
  }

  // The nodes of item k, where they stand in the children list.
  lemma ItemNodes(row: Row, k: nat)
    requires k < |row|
    ensures |Nodes(row[..k])| + |NodesOf(row[k])| <= |Nodes(row)|
    ensures forall j :: 0 <= j < |NodesOf(row[k])| ==> Nodes(row)[|Nodes(row[..k])| + j] == NodesOf(row[k])[j]
  {
    hide Nodes, NodesOf;
    assert row == row[..k] + ([row[k]] + row[k + 1..]);
    NodesJoin(row[..k], [row[k]] + row[k + 1..]);
    NodesJoin([row[k]], row[k + 1..]);
    NodesAppend([], row[k]);
    assert [] + [row[k]] == [row[k]];
    assert Nodes([]) == [] by {
      NoNodes();
    }
  }

  // A walk that moves addresses visits field j of iteration `it` of a repeated
  // structure exactly at element `it` of the C array.
  lemma VisitsLieInTheArray(row: Row, addr: seq<int>, k: nat, j: nat, it: nat)
    requires RowOk(row) && |addr| == |Nodes(row)| && k < |row| && row[k].Struct? && ItemLaid(row, addr, k)
    requires j < |row[k].fields|
    ensures var base := |Nodes(row[..k])|;
      && Flat(Nodes(row)) && base + j < |addr|
      && SlotAddr(CursorRow(addr), Nodes(row), Slot(Leaf(row[k].fields[j]), base + j, it)) == FieldAddr(row[k].fields, addr[base], j, it)
  {
    hide Nodes, Offset, InterElt, NextPound, Flat;
    var base, fs, nodes := |Nodes(row[..k])|, row[k].fields, Nodes(row);
    FlatNodes(row);
    ItemNodes(row, k);
    var own := NodesOf(row[k]);
    assert nodes[base + |fs|] == own[|fs|] == Pound(|fs|, row[k].count, row[k].stride);
    forall q | base + j <= q < base + |fs| ensures !nodes[q].Pound? {
      assert nodes[base + (q - base)] == own[q - base];
    }
    NextPoundAt(nodes, base + j, base + |fs|);
    FlatAt(nodes, base + |fs|);
    assert addr[base + j] == addr[base] + Offset(fs, j);
  }

  lemma FlatAt(nodes: seq<Node>, p: nat)
    requires Flat(nodes) && p < |nodes|
    ensures PoundOk(nodes, p)
  {
  }

  // tpl_map_va. A format that is accepted gives a tpl in a valid state; on the
  // failure path tpl_free gives back everything the scan had allocated.
  method MapVa(fmt: bytes, ptr: nat -> int, pound: nat -> int32, hostBig: bool)
    returns (result: MapResult, t: Tpl?, tree: TplFree.Mapping, ghost addrs: seq<seq<int>>)
    ensures fresh(tree) && result == Outcome(fmt, 0, pound)
    ensures result.Mapped? <==> WellFormed(fmt, pound)
    ensures result.Failed? ==> tree.nodes == {} && tree.data == {}
    ensures result.Mapped? <==> t != null
    ensures t != null ==>
      && fresh(t) && t.Valid() && t.fmt == fmt && t.hostBig == hostBig && tree.Whole()
      && t.cursors == CursorsAt(addrs) && |t.schema| == |addrs| && LaidOk(t.schema, addrs)
    ensures t != null ==>
      var r := Read(fmt, ptr, pound);
      && SameSizes(t.schema, addrs) && 0 < |addrs|
      && RowMarks(TableOf(t.schema, addrs), 0, |addrs[0]|) == r.marks
      && |t.fxlens| == r.pounds && forall k :: 0 <= k < |t.fxlens| ==> t.fxlens[k] == pound(k)
  {
    hide Sound, Told, ShapeOk, Hangs, LaidOk, TplFree.Open, TplFree.Added, TplFree.CanTake, TplFree.All, Read, RowMarks, TableOf, SameSizes, Outcome, WellFormed, Verdict, CharVerdict, Tracks, EndOutcome;
    tree := new TplFree.Mapping();
    t, addrs := null, [];
    MappedExactly(fmt, pound);
    var s;
    s, result := Scan(fmt, ptr, pound, tree);
    if !result.Mapped? {
      if result.Failed? {
        tree.Free();
      }
      return;
    }
    SoundShape(s, fmt);
    EndVerdict(s, fmt, pound);
    if s.level != 0 {
      result := Failed;
      tree.Free();
      return;
    }
    if s.awaiting || fmt == [] {
      result := Odd;
      return;
    }
    t, addrs := Finish(s, fmt, hostBig, ptr, pound);
  }

  // The loop over the format string.
  method Scan(fmt: bytes, ptr: nat -> int, pound: nat -> int32, tree: TplFree.Mapping) returns (s: Parsing, result: MapResult)
    requires tree.Whole() && |tree.tree| > 0 && tree.parent == 0
    modifies tree
    ensures tree.Whole() && (!result.Mapped? ==> result == Outcome(fmt, 0, pound))
    ensures result.Mapped? ==>
      && Sound(s, fmt) && Told(s, fmt, ptr, pound) && ShapeOk(s) && Tracks(s, fmt)
      && Outcome(fmt, 0, pound) == Outcome(fmt, |fmt|, pound)
  {
    hide Sound, Told, ShapeOk, Hangs, TplFree.Open, TplFree.Added, TplFree.CanTake, TplFree.All, Read, Outcome, Verdict, CharVerdict, Tracks;
    s, result := Start(), Mapped;
    ghost var rowNode: seq<nat> := [0];
    var c: nat := 0;
    StartSound();
    StartTold(ptr, pound);
    StartHangs(tree.tree, tree.parent);
    StartTracks();
    assert fmt[..0] == [];
    while c < |fmt|
      invariant c <= |fmt| && tree.Whole() && result.Mapped?
      invariant Sound(s, fmt[..c]) && Told(s, fmt[..c], ptr, pound) && ShapeOk(s) && Hangs(tree.tree, tree.parent, rowNode, s)
      invariant 0 < c < |fmt| && fmt[c - 1] == HASH ==> fmt[c] != HASH
      invariant s.parent < |s.rows| && Tracks(s, fmt[..c]) && Outcome(fmt, 0, pound) == Outcome(fmt, c, pound)
    {
      SoundShape(s, fmt[..c]);
      OutcomeStep(fmt, c, pound);
      if fmt[c] == HASH {
        ghost var at := c;
        s, c, result := MapHash(fmt, c, s, pound, tree, ptr, rowNode);
        if result.Mapped? {
          OutcomeRun(fmt, at + 1, c - at - 1, pound);
        }
      } else {
        TrackedVerdict(s, fmt[..c], fmt[c]);
        if Unnoticed(s, fmt[c]) {
          return s, Odd;
        }
        assert fmt[..c + 1] == fmt[..c] + [fmt[c]];
        if c > 0 {
          LastOf(fmt, c);
        }
        var ok;
        s, ok, rowNode := MapChar(fmt[c], if c > 0 then fmt[c - 1] else 0, s, ptr, tree, fmt[..c], pound, rowNode);
        result := if ok then Mapped else Failed;
        c := c + 1;
      }
      if !result.Mapped? {
        return;
      }
    }
    assert fmt[..c] == fmt;
  }

  // The tpl of a format that has been scanned to its end.
  method Finish(s: Parsing, fmt: bytes, hostBig: bool, ghost ptr: nat -> int, ghost pound: nat -> int32) returns (t: Tpl, ghost addrs: seq<seq<int>>)
    requires Sound(s, fmt) && Told(s, fmt, ptr, pound) && ShapeOk(s) && s.level == 0 && !s.awaiting && fmt != []
    ensures fresh(t) && t.Valid() && t.fmt == fmt && t.hostBig == hostBig
    ensures t.cursors == CursorsAt(addrs) && |t.schema| == |addrs| && LaidOk(t.schema, addrs)
    ensures var r := Read(fmt, ptr, pound);
      && SameSizes(t.schema, addrs) && 0 < |addrs|
      && RowMarks(TableOf(t.schema, addrs), 0, |addrs[0]|) == r.marks
      && |t.fxlens| == r.pounds && forall k :: 0 <= k < |t.fxlens| ==> t.fxlens[k] == pound(k)
  {
    hide Sound, Told, ShapeOk, LaidOk, Read, RowMarks, TableOf, SameSizes;
    FormatGivesSchema(s, fmt);
    RestingCursors(s);
    ShapeSizes(s);
    WholeTold(s, fmt, ptr, pound);
    addrs := s.addrs;
    ParentsTold(s, fmt, ptr, pound);
    t := new Tpl(s.rows, Places(s.up, s.at), fmt, s.fxlens, hostBig, CursorsAt(s.addrs), map[]);
  }

  lemma OutcomeStep(fmt: bytes, c: nat, pound: nat -> int32)
    requires c < |fmt|
    ensures var v := Verdict(fmt, c, pound); Outcome(fmt, c, pound) == if v.Mapped? then Outcome(fmt, c + 1, pound) else v
    ensures fmt[c] != HASH ==> Verdict(fmt, c, pound) == CharVerdict(fmt[..c], fmt[c])
  {
    hide CharVerdict, RunFatal, EndsNumbered;
  }

  lemma EndVerdict(s: Parsing, fmt: bytes, pound: nat -> int32)
    requires ShapeOk(s) && LevelOk(s, fmt) && Tracks(s, fmt)
    ensures Outcome(fmt, |fmt|, pound) == if s.level != 0 then Failed else if s.awaiting || fmt == [] then Odd else Mapped
  {
    hide Level, InStruct, EndsNumbered, Hashes, RowOk, Nodes, Depth;
  }

  function Places(up: seq<nat>, at: seq<nat>): (r: seq<Place>)
    requires |up| == |at|
    ensures |r| == |up|
  {
    seq(|up|, r requires 0 <= r < |up| => Place(up[r], at[r]))
  }

  // Every array knows the one node it hangs on.
  lemma ParentsTold(s: Parsing, fmt: bytes, ptr: nat -> int, pound: nat -> int32)
    requires Told(s, fmt, ptr, pound)
    ensures |s.up| == |s.at| && ParentsOk(s.rows, Places(s.up, s.at))
  {
    hide Nodes, Read, OpenPath, PathMarks, Hung, Hooked;
    var t: Table := TableOf(s.rows, s.addrs);
    HookedAt(t, s.up, s.at);
    forall r, p | 0 <= r < |s.rows| && 0 <= p < |Nodes(s.rows[r])| && Nodes(s.rows[r])[p].Ary?
      ensures var id := Nodes(s.rows[r])[p].id; r < id < |s.rows| && Places(s.up, s.at)[id] == Place(r, p)
    {
      assert t[r][p].node == Nodes(s.rows[r])[p];
      OnlyPlace(t, s.up, s.at, r, p);
    }
  }

  lemma HookedAt(t: Table, up: seq<nat>, at: seq<nat>)
    requires Hooked(t, up, at)
    ensures |at| == |up| == |t|
    ensures forall r :: 0 < r < |t| ==> up[r] < r && at[r] < |t[up[r]]| && t[up[r]][at[r]].node == Ary(r)
  {
  }

  lemma WholeTold(s: Parsing, fmt: bytes, ptr: nat -> int, pound: nat -> int32)
    requires Told(s, fmt, ptr, pound) && s.parent == 0
    ensures var r := Read(fmt, ptr, pound);
      && SameSizes(s.rows, s.addrs) && 0 < |s.addrs|
      && RowMarks(TableOf(s.rows, s.addrs), 0, |s.addrs[0]|) == r.marks
      && |s.fxlens| == r.pounds && forall k :: 0 <= k < |s.fxlens| ==> s.fxlens[k] == pound(k)
  {
    hide Nodes, RowMarks, Read;
  }

  lemma ShapeSizes(s: Parsing)
    requires ShapeOk(s)
    ensures |s.rows| == |s.addrs| && 0 < |s.rows|
  {
  }

  lemma StartHangs(t: TplFree.Tree, parent: nat)
    requires |t| > 0 && parent == 0
    ensures ShapeOk(Start()) && Hangs(t, parent, [0], Start())
  {
    NoNodes();
  }
}
