// What a format string says, read once from left to right, and what a table of
// rows says, read in the order of the tree. tpl_map_va makes the two agree.
module TplReading {
  import opened Bytes
  import opened TplSchema
  import opened TplLayout
  import opened TplImage

  const LETTER_A: byte := 65
  const LETTER_B: byte := 66
  const STRUCT: byte := 83       // 'S'
  const OPEN: byte := 40         // '('
  const CLOSE: byte := 41        // ')'

  // Letters of number fields: "ciujvIUf".
  predicate NumberLetter(c: byte) {
    c in [99, 105, 117, 106, 118, 73, 85, 102]
  }

  function AtomFor(c: byte): Field
    requires NumberLetter(c) || c == LETTER_S
  {
    if c == LETTER_S then Text(1)
    else if c == 99 then Scalar(1, 1)
    else if c == 106 || c == 118 then Scalar(2, 1)
    else if c == 105 || c == 117 then Scalar(4, 1)
    else Scalar(8, 1)
  }

  function WithNum(f: Field, n: nat): Field {
    match f
    case Scalar(size, _) => Scalar(size, n)
    case Text(_) => Text(n)
    case Blob => Blob
  }

  type int32 = x: int | -TWO_TO_THE_31 <= x < TWO_TO_THE_31

  // An atom and its address, a repetition of the `span` atoms before it, the
  // beginning and the end of an array.
  datatype Mark = LeafMark(field: Field, addr: int) | LoopMark(span: nat, count: nat) | OpenMark | CloseMark

  // ----- reading the format -----

  // The marks so far, the pointer and number arguments used, and the last
  // structure: where it is, how many fields it has, whether it is still open.
  datatype Reading = Reading(marks: seq<Mark>, ptrs: nat, pounds: nat, structAddr: int, fields: nat, inStruct: bool)

  // The first field lies at the structure, every other behind the one before.
  function FieldPlace(r: Reading, f: Field): int
    requires 0 < Align(f)
  {
    if r.fields == 0 || r.marks == [] then r.structAddr
    else
      var last := r.marks[|r.marks| - 1];
      if last.LeafMark? && last.addr >= r.structAddr then CalcFieldAddr(last.addr, Width(last.field), Align(f), r.structAddr)
      else r.structAddr
  }

  function Times(n: nat, p: int): nat {
    if p < 0 then 0 else ProductOf(n, p)
  }

  function ProductOf(n: nat, p: nat): nat { n * p }

  // A number: of the atom before it, or of the repetition it begins or goes on.
  function Numbered(r: Reading, previous: byte, p: int): seq<Mark> {
    if previous == CLOSE then r.marks + [LoopMark(r.fields, Times(1, p))]
    else if r.marks == [] then r.marks
    else
      var n := |r.marks| - 1;
      match r.marks[n]
      case LeafMark(f, a) =>
        r.marks[n := LeafMark(WithNum(f, if previous == HASH && !f.Blob? then Times(f.num, p) else Times(1, p)), a)]
      case LoopMark(span, count) => r.marks[n := LoopMark(span, Times(count, p))]
      case OpenMark => r.marks
      case CloseMark => r.marks
  }

  function ReadChar(r: Reading, c: byte, previous: byte, ptr: nat -> int, pound: nat -> int32): Reading {
    if NumberLetter(c) || c == LETTER_S then
      var f := AtomFor(c);
      if r.inStruct then r.(marks := r.marks + [LeafMark(f, FieldPlace(r, f))], fields := r.fields + 1)
      else r.(marks := r.marks + [LeafMark(f, ptr(r.ptrs))], ptrs := r.ptrs + 1)
    else if c == LETTER_B then r.(marks := r.marks + [LeafMark(Blob, ptr(r.ptrs))], ptrs := r.ptrs + 1)
    else if c == LETTER_A then r.(marks := r.marks + [OpenMark])
    else if c == STRUCT then r.(ptrs := r.ptrs + 1, structAddr := ptr(r.ptrs), fields := 0, inStruct := true)
    else if c == CLOSE then if r.inStruct then r.(inStruct := false) else r.(marks := r.marks + [CloseMark])
    else if c == HASH then r.(marks := Numbered(r, previous, pound(r.pounds)), pounds := r.pounds + 1)
    else r
  }

  function Read(fmt: bytes, ptr: nat -> int, pound: nat -> int32): Reading {
    if fmt == [] then Reading([], 0, 0, 0, 0, false)
    else
      var n := |fmt| - 1;
      ReadChar(Read(fmt[..n], ptr, pound), fmt[n], if n > 0 then fmt[n - 1] else 0, ptr, pound)
  }

  lemma ReadNext(done: bytes, c: byte, ptr: nat -> int, pound: nat -> int32)
    ensures Read(done + [c], ptr, pound)
         == ReadChar(Read(done, ptr, pound), c, if done != [] then done[|done| - 1] else 0, ptr, pound)
  {
    assert (done + [c])[..|done|] == done;
  }

  function Product(ns: seq<nat>): nat {
    if ns == [] then 1 else ProductOf(Product(ns[..|ns| - 1]), ns[|ns| - 1])
  }

  function Hashed(n: nat): (r: bytes)
    ensures |r| == n
  {
    seq(n, _ => HASH)
  }

  // A run of '#' behind something else: one number, the product.
  lemma {:induction false} ReadHashes(done: bytes, ns: seq<nat>, ptr: nat -> int, pound: nat -> int32)
    requires ns != [] && done != [] && done[|done| - 1] != HASH
    requires var r := Read(done, ptr, pound);
      && (forall k :: 0 <= k < |ns| ==> ns[k] == pound(r.pounds + k))
      && (done[|done| - 1] != CLOSE ==> r.marks != [] && var last := r.marks[|r.marks| - 1]; last.LeafMark? && !last.field.Blob?)
    ensures var r := Read(done, ptr, pound);
      var n := |r.marks| - 1;
      Read(done + Hashed(|ns|), ptr, pound) ==
        if done[|done| - 1] == CLOSE then r.(marks := r.marks + [LoopMark(r.fields, Product(ns))], pounds := r.pounds + |ns|)
        else r.(marks := r.marks[n := LeafMark(WithNum(r.marks[n].field, Product(ns)), r.marks[n].addr)], pounds := r.pounds + |ns|)
    decreases |ns|
  {
    hide Read;
    var k := |ns| - 1;
    var before := done + Hashed(k);
    assert before + [HASH] == done + Hashed(|ns|);
    ReadNext(before, HASH, ptr, pound);
    if k == 0 {
      assert before == done;
      assert Product(ns) == ProductOf(1, ns[0]) by {
        assert ns[..0] == [];
      }
    } else {
      ReadHashes(done, ns[..k], ptr, pound);
      assert before[|before| - 1] == HASH;
      assert Product(ns) == ProductOf(Product(ns[..k]), ns[k]);
    }
  }

  // ----- reading the table -----

  datatype Cell = Cell(node: Node, addr: int)
  type Table = seq<seq<Cell>>

  // The first n nodes of row r, nested arrays in full.
  function RowMarks(t: Table, r: nat, n: nat): seq<Mark>
    requires r < |t| && n <= |t[r]|
    decreases |t| - r, n
  {
    if n == 0 then []
    else
      var c := t[r][n - 1];
      RowMarks(t, r, n - 1) +
      match c.node
      case Leaf(f) => [LeafMark(f, c.addr)]
      case Pound(span, count, _) => [LoopMark(span, count)]
      case Ary(id) => if r < id < |t| then [OpenMark] + RowMarks(t, id, |t[id]|) + [CloseMark] else []
  }

  // Rows hang on the rows that name them.
  ghost predicate Hung(t: Table, up: seq<nat>) {
    && |t| == |up| && (forall r :: 0 < r < |up| ==> up[r] < r)
    && (forall r, k :: 0 <= r < |t| && 0 <= k < |t[r]| && t[r][k].node.Ary? ==>
          r < t[r][k].node.id < |t| && up[t[r][k].node.id] == r)
    && (forall r, j, k :: 0 <= r < |t| && 0 <= j < k < |t[r]| && t[r][j].node.Ary? && t[r][k].node.Ary? ==>
          t[r][j].node.id != t[r][k].node.id)
  }

  ghost predicate AtOrAbove(up: seq<nat>, a: nat, p: nat)
    requires p < |up| && forall r :: 0 < r < |up| ==> up[r] < r
  {
    a == p || (p > 0 && AtOrAbove(up, a, up[p]))
  }

  // The open rows, from the root to r, each the last node of the one above.
  ghost predicate OpenPath(t: Table, up: seq<nat>, r: nat)
    requires Hung(t, up) && r < |t|
  {
    r > 0 ==>
      var q := up[r];
      t[q] != [] && t[q][|t[q]| - 1].node == Ary(r) && OpenPath(t, up, q)
  }

  // Everything in front of the open row r.
  ghost function Before(t: Table, up: seq<nat>, r: nat): seq<Mark>
    requires Hung(t, up) && r < |t| && OpenPath(t, up, r)
  {
    if r == 0 then [] else Before(t, up, up[r]) + RowMarks(t, up[r], |t[up[r]]| - 1) + [OpenMark]
  }

  ghost function PathMarks(t: Table, up: seq<nat>, p: nat): seq<Mark>
    requires Hung(t, up) && p < |t| && OpenPath(t, up, p)
  {
    Before(t, up, p) + RowMarks(t, p, |t[p]|)
  }

  // ----- what a change of the open row leaves alone -----

  lemma {:induction false} AboveUp(up: seq<nat>, a: nat, p: nat)
    requires p < |up| && (forall r :: 0 < r < |up| ==> up[r] < r) && AtOrAbove(up, a, p)
    ensures a <= p && a < |up| && (a > 0 ==> AtOrAbove(up, up[a], p))
    decreases p
  {
    if a != p {
      AboveUp(up, a, up[p]);
    } else if p > 0 {
      assert AtOrAbove(up, up[p], up[p]);
    }
  }

  lemma {:induction false} OneChildAbove(up: seq<nat>, a: nat, b: nat, p: nat)
    requires p < |up| && (forall r :: 0 < r < |up| ==> up[r] < r)
    requires 0 < a < |up| && 0 < b < |up| && up[a] == up[b] && AtOrAbove(up, a, p) && AtOrAbove(up, b, p)
    ensures a == b
    decreases p
  {
    if a == p || b == p {
      if a != b {
        AboveUp(up, if a == p then b else a, up[p]);
      }
    } else {
      OneChildAbove(up, a, b, up[p]);
    }
  }

  // t' differs from t in row p and in rows behind the end of t at most.
  ghost predicate SameBut(t: Table, t': Table, p: nat) {
    |t| <= |t'| && forall r :: 0 <= r < |t| && r != p ==> t'[r] == t[r]
  }

  lemma {:induction false} RowSame(t: Table, t': Table, up: seq<nat>, p: nat, q: nat, n: nat)
    requires Hung(t, up) && SameBut(t, t', p) && p < |t| && q < |t| && n <= |t[q]| && n <= |t'[q]|
    requires forall k :: 0 <= k < n ==> t'[q][k] == t[q][k]
    requires forall k :: 0 <= k < n && t[q][k].node.Ary? ==> !AtOrAbove(up, t[q][k].node.id, p)
    ensures RowMarks(t', q, n) == RowMarks(t, q, n)
    decreases |t| - q, n
  {
    if n > 0 {
      RowSame(t, t', up, p, q, n - 1);
      var c := t[q][n - 1];
      if c.node.Ary? {
        var id := c.node.id;
        forall k | 0 <= k < |t[id]| && t[id][k].node.Ary? ensures !AtOrAbove(up, t[id][k].node.id, p) {
          if AtOrAbove(up, t[id][k].node.id, p) {
            AboveUp(up, t[id][k].node.id, p);
          }
        }
        assert id != p;
        RowSame(t, t', up, p, id, |t[id]|);
      }
    }
  }

  // The open row's own nodes before a change at its end.
  lemma OpenRowSame(t: Table, t': Table, up: seq<nat>, p: nat, n: nat)
    requires Hung(t, up) && SameBut(t, t', p) && p < |t| && n <= |t[p]| && n <= |t'[p]|
    requires forall k :: 0 <= k < n ==> t'[p][k] == t[p][k]
    ensures RowMarks(t', p, n) == RowMarks(t, p, n)
  {
    hide RowMarks;
    forall k | 0 <= k < n && t[p][k].node.Ary? ensures !AtOrAbove(up, t[p][k].node.id, p) {
      if AtOrAbove(up, t[p][k].node.id, p) {
        AboveUp(up, t[p][k].node.id, p);
      }
    }
    RowSame(t, t', up, p, p, n);
  }

  lemma {:induction false} BeforeSame(t: Table, t': Table, up: seq<nat>, up': seq<nat>, p: nat, r: nat)
    requires Hung(t, up) && Hung(t', up') && SameBut(t, t', p) && p < |t| && r < |t| && up <= up'
    requires OpenPath(t, up, r) && AtOrAbove(up, r, p)
    ensures OpenPath(t', up', r) && Before(t', up', r) == Before(t, up, r)
    decreases r
  {
    hide RowMarks;
    if r > 0 {
      var q := up[r];
      AboveUp(up, r, p);
      BeforeSame(t, t', up, up', p, q);
      assert q != p;
      forall k | 0 <= k < |t[q]| - 1 && t[q][k].node.Ary? ensures !AtOrAbove(up, t[q][k].node.id, p) {
        if AtOrAbove(up, t[q][k].node.id, p) {
          OneChildAbove(up, t[q][k].node.id, r, p);
        }
      }
      RowSame(t, t', up, p, q, |t[q]| - 1);
    }
  }

  // Row r hangs on node at[r] of the row above it.
  ghost predicate Hooked(t: Table, up: seq<nat>, at: seq<nat>) {
    && |at| == |up| == |t|
    && forall r :: 0 < r < |t| ==> up[r] < r && at[r] < |t[up[r]]| && t[up[r]][at[r]].node == Ary(r)
  }

  // The table with its open row p says what the marks say.
  ghost predicate Says(t: Table, up: seq<nat>, at: seq<nat>, p: nat, marks: seq<Mark>) {
    Hooked(t, up, at) && Hung(t, up) && p < |t| && OpenPath(t, up, p) && PathMarks(t, up, p) == marks
  }

  // ----- the changes -----

  function MarkOf(c: Cell): Mark
    requires !c.node.Ary?
  {
    match c.node
    case Leaf(f) => LeafMark(f, c.addr)
    case Pound(span, count, _) => LoopMark(span, count)
  }

  lemma HungUp(t: Table, up: seq<nat>)
    requires Hung(t, up)
    ensures |t| == |up| && forall r :: 0 < r < |up| ==> up[r] < r
  {
  }

  lemma Reflexive(up: seq<nat>, p: nat)
    requires p < |up| && forall r :: 0 < r < |up| ==> up[r] < r
    ensures AtOrAbove(up, p, p)
  {
  }

  lemma RowStep(t: Table, r: nat, n: nat)
    requires r < |t| && n < |t[r]| && !t[r][n].node.Ary?
    ensures RowMarks(t, r, n + 1) == RowMarks(t, r, n) + [MarkOf(t[r][n])]
  {
  }

  lemma AppendMark(t: Table, up: seq<nat>, at: seq<nat>, p: nat, marks: seq<Mark>, c: Cell)
    requires Says(t, up, at, p, marks) && p < |t| && !c.node.Ary?
    ensures Says(t[p := t[p] + [c]], up, at, p, marks + [MarkOf(c)])
  {
    hide RowMarks, Hung, Hooked, MarkOf, AtOrAbove, OpenPath, Before;
    AppendHooked(t, up, at, p, c);
    var t': Table := t[p := t[p] + [c]];
    HungUp(t, up);
    AppendHung(t, up, p, c);
    Reflexive(up, p);
    BeforeSame(t, t', up, up, p, p);
    OpenRowSame(t, t', up, p, |t[p]|);
    RowStep(t', p, |t[p]|);
    assert Before(t, up, p) + RowMarks(t, p, |t[p]|) + [MarkOf(c)] == Before(t, up, p) + (RowMarks(t, p, |t[p]|) + [MarkOf(c)]);
  }

  lemma AppendHooked(t: Table, up: seq<nat>, at: seq<nat>, p: nat, c: Cell)
    requires Hooked(t, up, at) && p < |t|
    ensures Hooked(t[p := t[p] + [c]], up, at)
  {
  }

  lemma ReplaceHooked(t: Table, up: seq<nat>, at: seq<nat>, p: nat, c: Cell)
    requires Hooked(t, up, at) && p < |t| && t[p] != [] && !t[p][|t[p]| - 1].node.Ary?
    ensures Hooked(t[p := t[p][|t[p]| - 1 := c]], up, at)
  {
  }

  lemma OpenHooked(t: Table, up: seq<nat>, at: seq<nat>, p: nat)
    requires Hooked(t, up, at) && p < |t|
    ensures Hooked(t[p := t[p] + [Cell(Ary(|t|), 0)]] + [[]], up + [p], at + [|t[p]|])
  {
  }

  // The place each row hangs on is the only one that names it.
  lemma OnlyPlace(t: Table, up: seq<nat>, at: seq<nat>, r: nat, k: nat)
    requires Hooked(t, up, at) && Hung(t, up) && r < |t| && k < |t[r]| && t[r][k].node.Ary?
    ensures var id := t[r][k].node.id; r < id < |t| && up[id] == r && at[id] == k
  {
  }

  lemma AppendHung(t: Table, up: seq<nat>, p: nat, c: Cell)
    requires Hung(t, up) && p < |t| && !c.node.Ary?
    ensures Hung(t[p := t[p] + [c]], up)
  {
    var t': Table := t[p := t[p] + [c]];
    forall r, k | 0 <= r < |t'| && 0 <= k < |t'[r]| && t'[r][k].node.Ary?
      ensures r < t'[r][k].node.id < |t'| && up[t'[r][k].node.id] == r
    {
      assert t'[r][k] == t[r][k];
    }
    forall r, j, k | 0 <= r < |t'| && 0 <= j < k < |t'[r]| && t'[r][j].node.Ary? && t'[r][k].node.Ary?
      ensures t'[r][j].node.id != t'[r][k].node.id
    {
      assert t'[r][j] == t[r][j] && t'[r][k] == t[r][k];
    }
  }

  lemma ReplaceMark(t: Table, up: seq<nat>, at: seq<nat>, p: nat, marks: seq<Mark>, c: Cell)
    requires Says(t, up, at, p, marks) && p < |t| && !c.node.Ary?
    requires t[p] != [] && !t[p][|t[p]| - 1].node.Ary?
    ensures marks != [] && marks[|marks| - 1] == MarkOf(t[p][|t[p]| - 1])
    ensures Says(t[p := t[p][|t[p]| - 1 := c]], up, at, p, marks[|marks| - 1 := MarkOf(c)])
  {
    hide RowMarks, Hung, Hooked, MarkOf, AtOrAbove, OpenPath, Before;
    ReplaceHooked(t, up, at, p, c);
    var n := |t[p]| - 1;
    var t': Table := t[p := t[p][n := c]];
    HungUp(t, up);
    Reflexive(up, p);
    ReplaceHung(t, up, p, c);
    BeforeSame(t, t', up, up, p, p);
    OpenRowSame(t, t', up, p, n);
    RowStep(t', p, n);
    RowStep(t, p, n);
    var most := Before(t, up, p) + RowMarks(t, p, n);
    assert marks == most + [MarkOf(t[p][n])];
    assert Before(t, up, p) + (RowMarks(t, p, n) + [MarkOf(c)]) == most + [MarkOf(c)];
  }

  lemma ReplaceHung(t: Table, up: seq<nat>, p: nat, c: Cell)
    requires Hung(t, up) && p < |t| && !c.node.Ary? && t[p] != []
    ensures Hung(t[p := t[p][|t[p]| - 1 := c]], up)
  {
    var t': Table := t[p := t[p][|t[p]| - 1 := c]];
    forall r, k | 0 <= r < |t'| && 0 <= k < |t'[r]| && t'[r][k].node.Ary?
      ensures r < t'[r][k].node.id < |t'| && up[t'[r][k].node.id] == r
    {
      assert t'[r][k] == t[r][k];
    }
    forall r, j, k | 0 <= r < |t'| && 0 <= j < k < |t'[r]| && t'[r][j].node.Ary? && t'[r][k].node.Ary?
      ensures t'[r][j].node.id != t'[r][k].node.id
    {
      assert t'[r][j] == t[r][j] && t'[r][k] == t[r][k];
    }
  }

  lemma OpenMarks(t: Table, up: seq<nat>, at: seq<nat>, p: nat, marks: seq<Mark>)
    requires Says(t, up, at, p, marks) && p < |t|
    ensures Says(t[p := t[p] + [Cell(Ary(|t|), 0)]] + [[]], up + [p], at + [|t[p]|], |t|, marks + [OpenMark])
  {
    hide Hung, Hooked;
    OpenHooked(t, up, at, p);
    HungUp(t, up);
    OpenHung(t, up, p);
    var n := |t|;
    var t': Table, up' := t[p := t[p] + [Cell(Ary(n), 0)]] + [[]], up + [p];
    BeforeSame(t, t', up, up', p, p);
    OpenRowSame(t, t', up, p, |t[p]|);
    assert t'[p][|t'[p]| - 1].node == Ary(n);
    assert RowMarks(t', n, 0) == [];
  }

  lemma OpenHung(t: Table, up: seq<nat>, p: nat)
    requires Hung(t, up) && p < |t|
    ensures Hung(t[p := t[p] + [Cell(Ary(|t|), 0)]] + [[]], up + [p])
  {
    var n := |t|;
    var t': Table, up' := t[p := t[p] + [Cell(Ary(n), 0)]] + [[]], up + [p];
    forall r, k | 0 <= r < |t'| && 0 <= k < |t'[r]| && t'[r][k].node.Ary?
      ensures r < t'[r][k].node.id < |t'| && up'[t'[r][k].node.id] == r
    {
      if k < |t[r]| {
        assert t'[r][k] == t[r][k];
      }
    }
    forall r, j, k | 0 <= r < |t'| && 0 <= j < k < |t'[r]| && t'[r][j].node.Ary? && t'[r][k].node.Ary?
      ensures t'[r][j].node.id != t'[r][k].node.id
    {
      assert t'[r][j] == t[r][j];
      if k < |t[r]| {
        assert t'[r][k] == t[r][k];
      }
    }
  }

  lemma CloseMarks(t: Table, up: seq<nat>, at: seq<nat>, p: nat, marks: seq<Mark>)
    requires Says(t, up, at, p, marks) && 0 < p < |up|
    ensures Says(t, up, at, up[p], marks + [CloseMark])
  {
    var q := up[p];
    var n := |t[q]|;
    assert RowMarks(t, q, n) == RowMarks(t, q, n - 1) + ([OpenMark] + RowMarks(t, p, |t[p]|) + [CloseMark]);
  }
}
