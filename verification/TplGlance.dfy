// tpl_peek and tpl_map_va agree: what a format says at its front is what peek
// finds in an image of that format.
module TplGlance {
  import opened Bytes
  import opened TplSchema
  import opened TplWire
  import opened TplImage
  import opened TplState
  import opened TplReading
  import opened TplFormat
  import opened TplMap
  import opened TplPeek
  import TplCounters

  // ----- the front of a format -----

  // A well-formed format starts with an atom or array, or with "S(".
  lemma LeadIn(fmt: bytes, pound: nat -> int32)
    requires WellFormed(fmt, pound)
    ensures Skipped(fmt, 0) == if fmt[0] == STRUCT then 2 else 0
    ensures Skipped(fmt, 0) <= |fmt| && (fmt[0] == STRUCT ==> fmt[1] == OPEN)
  {
    hide WellFormed;
    FrontOf(fmt, pound);
    if fmt[0] == STRUCT {
      assert Skipped(fmt, 2) == 2;
      assert Skipped(fmt, 1) == 2;
    }
  }

  // What has been read of it: no node yet.
  lemma LeadInReads(fmt: bytes, ptr: nat -> int, pound: nat -> int32)
    requires WellFormed(fmt, pound)
    ensures Skipped(fmt, 0) <= |fmt| && Read(fmt[..Skipped(fmt, 0)], ptr, pound).marks == []
  {
    hide WellFormed;
    FrontOf(fmt, pound);
    LeadIn(fmt, pound);
    if fmt[0] == STRUCT {
      assert fmt[..2] == [] + [STRUCT] + [OPEN];
      ReadNext([], STRUCT, ptr, pound);
      ReadNext([] + [STRUCT], OPEN, ptr, pound);
    }
  }

  ghost predicate ReadsAs(marks: seq<Mark>, f: bytes, n: nat)
    requires n <= |f|
  {
    n <= |marks| && forall k :: 0 <= k < n ==> AtomLetter(f[k]) && marks[k].LeafMark? && marks[k].field == AtomFor(f[k])
  }

  // The letters f add one node each.
  lemma {:induction false} LettersRead(fmt: bytes, first: nat, f: bytes, k: nat, ptr: nat -> int, pound: nat -> int32)
    requires first + |f| <= |fmt| && fmt[first..first + |f|] == f && k <= |f| && Letters(f)
    requires Read(fmt[..first], ptr, pound).marks == []
    ensures var marks := Read(fmt[..first + k], ptr, pound).marks; |marks| == k && ReadsAs(marks, f, k)
    decreases k
  {
    hide Read, FieldPlace;
    if k > 0 {
      LettersRead(fmt, first, f, k - 1, ptr, pound);
      var done := fmt[..first + (k - 1)];
      assert fmt[first..first + |f|][k - 1] == fmt[first + (k - 1)];
      assert fmt[..first + k] == done + [f[k - 1]];
      ReadNext(done, f[k - 1], ptr, pound);
    }
  }

  // What follows can change the number of the last of them and nothing else.
  lemma {:induction false} LaterReads(fmt: bytes, m: nat, n: nat, f: bytes, ptr: nat -> int, pound: nat -> int32)
    requires m <= n <= |fmt| && f != []
    requires var marks := Read(fmt[..m], ptr, pound).marks; |marks| == |f| && ReadsAs(marks, f, |f|)
    ensures var marks := Read(fmt[..n], ptr, pound).marks;
      && ReadsAs(marks, f, |f| - 1) && |f| <= |marks| && AtomLetter(f[|f| - 1])
      && var last := marks[|f| - 1]; last.LeafMark? && !last.field.Blob? && last.field == WithNum(AtomFor(f[|f| - 1]), last.field.num)
    decreases n - m
  {
    hide Read, FieldPlace, Times;
    if n > m {
      LaterReads(fmt, m, n - 1, f, ptr, pound);
      assert fmt[..n] == fmt[..n - 1] + [fmt[n - 1]];
      ReadNext(fmt[..n - 1], fmt[n - 1], ptr, pound);
    }
  }

  // ----- the front of the table -----

  lemma {:induction false} RowPrefix(t: Table, r: nat, j: nat, n: nat)
    requires r < |t| && j <= n <= |t[r]|
    ensures RowMarks(t, r, j) <= RowMarks(t, r, n)
    decreases n
  {
    if j < n {
      RowPrefix(t, r, j, n - 1);
    }
  }

  ghost predicate NamesRows(t: Table) {
    forall r, k :: 0 <= r < |t| && 0 <= k < |t[r]| && t[r][k].node.Ary? ==> r < t[r][k].node.id < |t|
  }

  // As long as the marks are atoms, so are the nodes of the first list.
  lemma {:induction false} RowStarts(t: Table, m: nat, j: nat)
    requires 0 < |t| && NamesRows(t) && m <= |RowMarks(t, 0, |t[0]|)| && j <= m
    requires forall k :: 0 <= k < m ==> RowMarks(t, 0, |t[0]|)[k].LeafMark?
    ensures j <= |t[0]| && |RowMarks(t, 0, j)| == j
    ensures forall k :: 0 <= k < j ==> t[0][k].node == Leaf(RowMarks(t, 0, |t[0]|)[k].field)
    decreases j
  {
    hide RowMarks;
    if j > 0 {
      RowStarts(t, m, j - 1);
      var all := RowMarks(t, 0, |t[0]|);
      if j - 1 == |t[0]| {
        assert false;
      }
      RowUnfold(t, j - 1);
      RowPrefix(t, 0, j, |t[0]|);
      assert RowMarks(t, 0, j)[j - 1] == all[j - 1];
    } else {
      NoRow(t);
    }
  }

  lemma NoRow(t: Table)
    requires 0 < |t|
    ensures RowMarks(t, 0, 0) == []
  {
  }

  lemma RowUnfold(t: Table, n: nat)
    requires 0 < |t| && n < |t[0]| && NamesRows(t)
    ensures var node := t[0][n].node; var before := RowMarks(t, 0, n); var now := RowMarks(t, 0, n + 1);
      && |before| < |now| && now[..|before|] == before
      && (node.Leaf? ==> now == before + [LeafMark(node.field, t[0][n].addr)])
      && (node.Pound? ==> now[|before|].LoopMark?) && (node.Ary? ==> now[|before|].OpenMark?)
  {
  }

  lemma NodesNameRows(s: Schema, addrs: seq<seq<int>>)
    requires SchemaOk(s) && SameSizes(s, addrs)
    ensures NamesRows(TableOf(s, addrs))
  {
    hide Nodes;
    var t: Table := TableOf(s, addrs);
    forall r, k | 0 <= r < |t| && 0 <= k < |t[r]| && t[r][k].node.Ary? ensures r < t[r][k].node.id < |t| {
      assert t[r][k].node == Nodes(s[r])[k];
      TplCounters.AryOfRow(s[r], k);
      var i :| 0 <= i < |s[r]| && s[r][i] == Array(t[r][k].node.id);
    }
  }

  // The walk visits leading atoms one after the other.
  lemma {:induction false} LeavesFirst(nodes: seq<Node>, c: nat, m: nat)
    requires Flat(nodes) && c <= m <= |nodes| && forall k :: c <= k < m ==> nodes[k].Leaf?
    requires 0 < CountAt(nodes, NextPound(nodes, c))
    ensures m - c <= |Walk(nodes, c, 0)|
    ensures forall k :: c <= k < m ==> Walk(nodes, c, 0)[k - c].node == nodes[k]
    decreases m - c
  {
    hide Walk, NextPound;
    if c < m {
      WalkLeaf(nodes, c, 0);
      LeavesFirst(nodes, c + 1, m);
    }
  }

  // ----- together -----

  // Node k of the root is what letter k of f says.
  ghost predicate NodesSpell(nodes: seq<Node>, f: bytes) {
    && |f| <= |nodes|
    && forall k :: 0 <= k < |f| ==>
        && nodes[k].Leaf? && AtomLetter(f[k]) && !nodes[k].field.Blob?
        && nodes[k].field == if k < |f| - 1 then AtomFor(f[k]) else WithNum(AtomFor(f[k]), nodes[k].field.num)
  }

  lemma NodesFromFormat(s: Schema, addrs: seq<seq<int>>, fmt: bytes, ptr: nat -> int, pound: nat -> int32, f: bytes)
    requires SchemaOk(s) && 0 < |s| && SameSizes(s, addrs) && WellFormed(fmt, pound)
    requires RowMarks(TableOf(s, addrs), 0, |addrs[0]|) == Read(fmt, ptr, pound).marks
    requires Spelled(fmt, f) && Letters(f) && f != []
    ensures NodesSpell(Nodes(s[0]), f)
  {
    hide SchemaOk, Nodes, RowMarks, Read, WellFormed, Letters, NamesRows;
    var first := Skipped(fmt, 0);
    LeadInReads(fmt, ptr, pound);
    LettersRead(fmt, first, f, |f|, ptr, pound);
    LaterReads(fmt, first + |f|, |fmt|, f, ptr, pound);
    assert fmt[..|fmt|] == fmt;
    var t: Table := TableOf(s, addrs);
    NodesNameRows(s, addrs);
    RowStarts(t, |f|, |f|);
    forall k | 0 <= k < |f| ensures t[0][k].node == Nodes(s[0])[k] {
    }
  }

  // Letters spelled at the front of a mapped format name the first slots of the
  // root, with the sizes the mapping gives them.
  lemma LeadsFromFormat(s: Schema, addrs: seq<seq<int>>, fmt: bytes, ptr: nat -> int, pound: nat -> int32, f: bytes)
    requires SchemaOk(s) && 0 < |s| && SameSizes(s, addrs) && WellFormed(fmt, pound)
    requires RowMarks(TableOf(s, addrs), 0, |addrs[0]|) == Read(fmt, ptr, pound).marks
    requires Spelled(fmt, f) && Letters(f)
    ensures Leads(RowSlots(s, 0), f)
  {
    hide SchemaOk, Nodes, Slots, RowMarks, Read, WellFormed, Letters, SameSizes, TableOf, Spelled, Leads;
    if f != [] {
      NodesFromFormat(s, addrs, fmt, ptr, pound, f);
      SlotsFromNodes(s, f);
    } else {
      NoLeads(RowSlots(s, 0));
    }
  }

  lemma NoLeads(slots: seq<Slot>)
    ensures Leads(slots, [])
  {
  }

  lemma SlotsFromNodes(s: Schema, f: bytes)
    requires SchemaOk(s) && 0 < |s| && NodesSpell(Nodes(s[0]), f)
    ensures Leads(RowSlots(s, 0), f)
  {
    hide SchemaOk, Nodes, Slots, Walk, NextPound, LetterOf;
    FirstRowOk(s);
    WalkVisitsSlots(s[0]);
    SlotsFit(s[0], 0);
    LeavesFirst(Nodes(s[0]), 0, |f|);
    forall k | 0 <= k < |f| ensures LetterOf(RowSlots(s, 0)[k].node, f[k]) && (k < |f| - 1 ==> Single(RowSlots(s, 0)[k].node)) {
      assert SlotFits(RowSlots(s, 0)[k], s[0], 0, |Nodes(s[0])|);
      LetterNamed(RowSlots(s, 0)[k].node, f[k]);
    }
  }

  lemma FirstRowOk(s: Schema)
    requires SchemaOk(s) && 0 < |s|
    ensures RowOk(s[0])
  {
  }

  lemma LetterNamed(node: Node, letter: byte)
    requires AtomLetter(letter) && node.Leaf? && FieldOk(node.field) && !node.field.Blob?
    requires node.field == WithNum(AtomFor(letter), node.field.num)
    ensures LetterOf(node, letter)
    ensures node.field == AtomFor(letter) ==> Single(node)
  {
  }

  // For any format that is mapped and any letters spelled at its front, peek at
  // the image of any values succeeds and shows the first word or string of each.
  lemma PeekSeesFormat(s: Schema, addrs: seq<seq<int>>, fmt: bytes, fxlens: seq<nat>, ptr: nat -> int, pound: nat -> int32,
                       vals: seq<Val>, big: bool, hostBig: bool, f: bytes)
    requires SchemaOk(s) && FmtOk(s, fmt, fxlens) && 0 < |s| && SameSizes(s, addrs) && WellFormed(fmt, pound)
    requires RowMarks(TableOf(s, addrs), 0, |addrs[0]|) == Read(fmt, ptr, pound).marks
    requires ValsTyped(s, RowSlots(s, 0), vals) && AllFit(vals) && HeaderSize(fmt, fxlens) + ValsSize(vals) < TWO_TO_THE_32
    requires Spelled(fmt, f) && forall k :: 0 <= k < |f| ==> AtomLetter(f[k])
    ensures forall k :: 0 <= k < |fxlens| ==> fxlens[k] < TWO_TO_THE_31
    ensures var image := Image(fmt, fxlens, vals, big);
      && |image| >= 9 && Plausible(image, PeekMode(image, hostBig))
      && image[8..TplPeek.NulAt(image, 8)] == fmt && Letters(f) && Matches(image, f) && |f| <= |vals|
      && PeekAll(image, DataStart(image), f, PeekMode(image, hostBig)) == Some(Firsts(ViewVals(vals, big != hostBig), |f|))
  {
    hide SchemaOk, FmtOk, Slots, RowMarks, Read, WellFormed, ValsTyped, AllFit, ViewVals, Spelled, Letters, Leads, Plausible, PeekAll, Image, Matches, SameSizes, TableOf;
    LensAreInts(s, fmt, fxlens);
    AtomsArePeeked(f);
    LeadsFromFormat(s, addrs, fmt, ptr, pound, f);
    PeekSeesPacked(s, fmt, fxlens, vals, big, hostBig, f);
  }

  // Peek takes every number and string letter, and no other.
  lemma AtomsArePeeked(f: bytes)
    ensures Letters(f) <==> forall k :: 0 <= k < |f| ==> AtomLetter(f[k])
  {
  }
}
