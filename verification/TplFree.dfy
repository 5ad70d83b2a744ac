// The node tree as tpl_map_va grows it, and tpl_free's stackless walk over it.
// Nodes are numbered in the order they are allocated; node 0 is the root.
module TplFree {
  import opened Bytes

  datatype Kind = Root | Array | Atom

  datatype TreeNode = TreeNode(kind: Kind, parent: Option<nat>, next: Option<nat>, children: Option<nat>, last: Option<nat>)

  type Tree = seq<TreeNode>

  // Parents come before their children.
  ghost predicate Rooted(t: Tree) {
    && |t| > 0 && t[0].parent.None?
    && forall k :: 0 <= k < |t| ==>
        && (t[k].kind.Root? <==> k == 0)
        && (k > 0 ==> t[k].parent.Some? && t[k].parent.value < k && !t[t[k].parent.value].kind.Atom?)
  }

  // The node and everything above it.
  ghost function Path(t: Tree, k: nat): (r: set<nat>)
    requires Rooted(t) && k < |t|
    ensures k in r && forall j :: j in r ==> j <= k
    decreases k
  {
    {k} + if k == 0 then {} else Path(t, t[k].parent.value)
  }

  // Where the walk goes on when node k and all below it are done; |t| at the end.
  ghost function End(t: Tree, k: nat): nat
    requires Rooted(t) && k < |t|
    decreases k
  {
    if t[k].next.Some? then t[k].next.value
    else if k == 0 then |t|
    else End(t, t[k].parent.value)
  }

  ghost predicate NextOk(t: Tree, k: nat)
    requires Rooted(t) && k < |t|
  {
    t[k].next.Some? ==> k > 0 && k < t[k].next.value < |t| && t[t[k].next.value].parent == t[k].parent
  }

  ghost predicate ChildrenOk(t: Tree, k: nat)
    requires Rooted(t) && k < |t|
  {
    t[k].children.Some? ==>
      && t[k].children.value == k + 1 < |t| && t[k + 1].parent == Some(k) && !t[k].kind.Atom?
      && t[k].last.Some? && t[k].last.value < |t| && t[t[k].last.value].parent == Some(k) && t[t[k].last.value].next.None?
  }

  ghost predicate ChildlessOk(t: Tree, k: nat)
    requires Rooted(t) && k < |t|
  {
    t[k].children.None? ==> End(t, k) == k + 1
  }

  ghost predicate LastOk(t: Tree, k: nat)
    requires Rooted(t) && k < |t|
  {
    k > 0 && t[k].next.None? ==> t[t[k].parent.value].last == Some(k) && t[t[k].parent.value].children.Some?
  }

  ghost predicate LinksOk(t: Tree, k: nat)
    requires Rooted(t) && k < |t|
  {
    NextOk(t, k) && ChildrenOk(t, k) && ChildlessOk(t, k) && LastOk(t, k)
  }

  ghost predicate WellLinked(t: Tree) {
    Rooted(t) && forall k :: 0 <= k < |t| ==> LinksOk(t, k)
  }

  // The node new ones are added below, and all above it, are still open.
  ghost predicate Open(t: Tree, p: nat) {
    WellLinked(t) && p < |t| && !t[p].kind.Atom? && forall k :: k in Path(t, p) ==> t[k].next.None?
  }

  predicate CanTake(t: Tree, p: nat) {
    p < |t| && (t[p].children.Some? ==> t[p].last.Some? && t[p].last.value < |t|)
  }

  // tpl_node_new(parent) followed by DL_ADD(parent->children, n).
  function Added(t: Tree, p: nat, kind: Kind): (r: Tree)
    requires CanTake(t, p)
    ensures |r| == |t| + 1
  {
    var n := |t|;
    var node := TreeNode(kind, Some(p), None, None, None);
    var linked :=
      if t[p].children.Some? then t[t[p].last.value := t[t[p].last.value].(next := Some(n))]
      else t[p := t[p].(children := Some(n))];
    linked[p := linked[p].(last := Some(n))] + [node]
  }

  // What adding a node changes in one that was there.
  lemma AddedAt(t: Tree, p: nat, kind: Kind, k: nat)
    requires Open(t, p) && !kind.Root? && k < |t|
    ensures LinksOk(t, p) && LinksOk(t, k)
    ensures CanTake(t, p)
    ensures var r := Added(t, p, kind);
      && r[|t|] == TreeNode(kind, Some(p), None, None, None)
      && r[k].kind == t[k].kind && r[k].parent == t[k].parent
      && r[k].next == (if t[p].children.Some? && k == t[p].last.value then Some(|t|) else t[k].next)
      && r[k].children == (if t[p].children.None? && k == p then Some(|t|) else t[k].children)
      && r[k].last == (if k == p then Some(|t|) else t[k].last)
  {
  }

  lemma AddedRooted(t: Tree, p: nat, kind: Kind)
    requires Open(t, p) && !kind.Root?
    ensures CanTake(t, p) && Rooted(Added(t, p, kind))
  {
    hide LinksOk, Path, End, Added;
    AddedAt(t, p, kind, p);
    var r := Added(t, p, kind);
    forall k | 0 <= k < |r|
      ensures r[k].kind.Root? <==> k == 0
      ensures k > 0 ==> r[k].parent.Some? && r[k].parent.value < k && !r[r[k].parent.value].kind.Atom?
    {
      AddedAt(t, p, kind, if k < |t| then k else 0);
      if 0 < k < |t| {
        AddedAt(t, p, kind, t[k].parent.value);
      }
    }
    AddedAt(t, p, kind, 0);
  }

  lemma {:induction false} AddedPath(t: Tree, p: nat, kind: Kind, k: nat)
    requires Open(t, p) && !kind.Root? && k < |t|
    ensures CanTake(t, p) && Rooted(Added(t, p, kind)) && Path(Added(t, p, kind), k) == Path(t, k)
    decreases k
  {
    hide LinksOk, End, Added;
    AddedRooted(t, p, kind);
    AddedAt(t, p, kind, k);
    if k > 0 {
      AddedPath(t, p, kind, t[k].parent.value);
    }
  }

  lemma {:induction false} OpenEnd(t: Tree, p: nat)
    requires Open(t, p)
    ensures End(t, p) == |t|
    decreases p
  {
    hide LinksOk;
    if p > 0 {
      OpenEnd(t, t[p].parent.value);
    }
  }

  lemma {:induction false} PathAbove(t: Tree, j: nat, k: nat)
    requires Rooted(t) && k < |t| && j in Path(t, k)
    ensures j < |t| && (j > 0 ==> t[j].parent.value in Path(t, k))
    decreases k
  {
    if j != k {
      PathAbove(t, j, t[k].parent.value);
    }
  }

  // The end of a node moves exactly for those still open.
  lemma {:induction false} AddedEnd(t: Tree, p: nat, kind: Kind, k: nat)
    requires Open(t, p) && !kind.Root? && k < |t|
    ensures CanTake(t, p) && Rooted(Added(t, p, kind))
    ensures End(Added(t, p, kind), k) == if k in Path(t, p) then |t| + 1 else End(t, k)
    decreases k
  {
    hide LinksOk, Added;
    AddedRooted(t, p, kind);
    AddedAt(t, p, kind, k);
    OpenEnd(t, p);
    if k == 0 {
      RootOnPath(t, p);
      NotLast(t, p, 0);
    } else {
      AddedEnd(t, p, kind, t[k].parent.value);
      if k in Path(t, p) {
        PathAbove(t, k, p);
        NotLast(t, p, k);
      } else if t[k].next.None? {
        ClosedSibling(t, p, k);
      } else {
        NotLast(t, p, k);
      }
    }
  }

  // The last child of the open node p is neither open nor linked on.
  lemma NotLast(t: Tree, p: nat, k: nat)
    requires Open(t, p) && k < |t| && (k == 0 || k in Path(t, p) || t[k].next.Some?)
    ensures LinksOk(t, p) && (t[p].children.Some? ==> t[p].last != Some(k))
  {
    hide End;
    assert LinksOk(t, p);
  }

  // A closed node without a next one is the last child of a closed node, or of p.
  lemma ClosedSibling(t: Tree, p: nat, k: nat)
    requires Open(t, p) && 0 < k < |t| && k !in Path(t, p) && t[k].next.None?
    ensures LinksOk(t, p)
    ensures t[k].parent.value in Path(t, p) ==> t[k].parent.value == p && t[p].children.Some? && t[p].last == Some(k)
    ensures t[p].children.Some? && t[p].last == Some(k) ==> t[k].parent == Some(p)
  {
    hide End;
    assert LinksOk(t, p) && LinksOk(t, k);
    var q := t[k].parent.value;
    if q in Path(t, p) && q != p {
      OpenChild(t, p, q, p);
    }
  }

  lemma {:induction false} OpenChild(t: Tree, p: nat, q: nat, j: nat)
    requires Open(t, p) && j in Path(t, p) && q in Path(t, j) && q != j && j < |t|
    ensures q < |t| && t[q].children.Some? && t[q].last.Some? && t[q].last.value in Path(t, p)
    decreases j
  {
    hide End;
    PathAbove(t, j, p);
    assert LinksOk(t, j);
    if t[j].parent.value != q {
      OpenChild(t, p, q, t[j].parent.value);
    }
  }

  // Adding a node keeps every link in order; the new node, if it can have
  // children, and its parent are open.
  lemma AddedOk(t: Tree, p: nat, kind: Kind)
    requires Open(t, p) && !kind.Root?
    ensures CanTake(t, p) && Open(Added(t, p, kind), p)
    ensures !kind.Atom? ==> Open(Added(t, p, kind), |t|)
  {
    hide LinksOk, Added, End;
    AddedAt(t, p, kind, p);
    var r := Added(t, p, kind);
    AddedRooted(t, p, kind);
    forall k | 0 <= k < |r| ensures LinksOk(r, k) {
      AddedLinks(t, p, kind, k);
    }
    AddedPath(t, p, kind, p);
    forall k | k in Path(r, p) ensures r[k].next.None? {
      AddedAt(t, p, kind, k);
      NotLast(t, p, k);
    }
    assert Path(r, |t|) == {|t|} + Path(r, p);
  }

  lemma AddedLinks(t: Tree, p: nat, kind: Kind, k: nat)
    requires Open(t, p) && !kind.Root? && k <= |t|
    ensures CanTake(t, p) && Rooted(Added(t, p, kind)) && LinksOk(Added(t, p, kind), k)
  {
    hide Added, Path, End, Rooted, LinksOk;
    AddedRooted(t, p, kind);
    if k < |t| {
      AddedNext(t, p, kind, k);
      AddedChildren(t, p, kind, k);
      AddedLast(t, p, kind, k);
    } else {
      AddedNew(t, p, kind);
    }
    JoinLinks(Added(t, p, kind), k);
  }

  lemma JoinLinks(t: Tree, k: nat)
    requires Rooted(t) && k < |t| && NextOk(t, k) && ChildrenOk(t, k) && ChildlessOk(t, k) && LastOk(t, k)
    ensures LinksOk(t, k)
  {
  }

  lemma AddedNew(t: Tree, p: nat, kind: Kind)
    requires Open(t, p) && !kind.Root?
    ensures CanTake(t, p) && Rooted(Added(t, p, kind))
    ensures var r := Added(t, p, kind); NextOk(r, |t|) && ChildrenOk(r, |t|) && ChildlessOk(r, |t|) && LastOk(r, |t|)
  {
    hide Added, Path, Open;
    AddedRooted(t, p, kind);
    AddedAt(t, p, kind, p);
    AddedEnd(t, p, kind, p);
    OnPath(t, p);
    var r := Added(t, p, kind);
    assert End(r, |t|) == End(r, p);
  }

  lemma OnPath(t: Tree, p: nat)
    requires Open(t, p)
    ensures p in Path(t, p) && p < |t|
  {
  }

  lemma AddedNext(t: Tree, p: nat, kind: Kind, k: nat)
    requires Open(t, p) && !kind.Root? && k < |t|
    ensures CanTake(t, p) && Rooted(Added(t, p, kind)) && NextOk(Added(t, p, kind), k)
  {
    hide Added, Path, End;
    AddedRooted(t, p, kind);
    assert LinksOk(t, k) && LinksOk(t, p);
    AddedAt(t, p, kind, k);
    AddedAt(t, p, kind, p);
    if t[k].next.Some? {
      AddedAt(t, p, kind, t[k].next.value);
    }
  }

  lemma AddedChildren(t: Tree, p: nat, kind: Kind, k: nat)
    requires Open(t, p) && !kind.Root? && k < |t|
    ensures CanTake(t, p) && Rooted(Added(t, p, kind)) && ChildrenOk(Added(t, p, kind), k) && ChildlessOk(Added(t, p, kind), k)
  {
    hide Added, Path, End;
    AddedRooted(t, p, kind);
    assert LinksOk(t, k) && LinksOk(t, p);
    AddedAt(t, p, kind, k);
    AddedAt(t, p, kind, p);
    OpenEnd(t, p);
    AddedEnd(t, p, kind, k);
    if t[k].children.Some? {
      AddedAt(t, p, kind, k + 1);
      AddedAt(t, p, kind, t[k].last.value);
    } else if k in Path(t, p) && k != p {
      OpenChild(t, p, k, p);
    }
  }

  lemma AddedLast(t: Tree, p: nat, kind: Kind, k: nat)
    requires Open(t, p) && !kind.Root? && k < |t|
    ensures CanTake(t, p) && Rooted(Added(t, p, kind)) && LastOk(Added(t, p, kind), k)
  {
    hide Added, Path, End;
    AddedRooted(t, p, kind);
    assert LinksOk(t, k) && LinksOk(t, p);
    AddedAt(t, p, kind, k);
    if k > 0 {
      AddedAt(t, p, kind, t[k].parent.value);
    }
  }

  lemma {:induction false} RootOnPath(t: Tree, k: nat)
    requires Rooted(t) && k < |t|
    ensures 0 in Path(t, k)
    decreases k
  {
    if k > 0 {
      RootOnPath(t, t[k].parent.value);
    }
  }

  lemma CloseOk(t: Tree, p: nat)
    requires Open(t, p) && p > 0
    ensures t[p].parent.Some? && Open(t, t[p].parent.value) && CanTake(t, t[p].parent.value)
  {
    hide End;
    assert LinksOk(t, t[p].parent.value);
  }

  lemma OpenLinked(t: Tree, p: nat)
    requires Open(t, p)
    ensures WellLinked(t) && |t| > 0
  {
  }

  // ----- growing and freeing -----

  function Fresh(): Tree { [TreeNode(Root, None, None, None, None)] }

  lemma FreshOpen()
    ensures Open(Fresh(), 0)
  {
    assert LinksOk(Fresh(), 0);
  }

  ghost predicate All(t: Tree, s: set<nat>) {
    forall k: nat :: k in s <==> k < |t|
  }

  // What is allocated while the walk is about to look at node c ...
  ghost predicate Visiting(t: Tree, c: nat, nodes: set<nat>, data: set<nat>)
    requires WellLinked(t) && c < |t|
  {
    && (forall k :: k in nodes <==> k < |t| && (c <= k || k in Path(t, c)))
    && (forall k :: k in data <==> k < |t| && (c <= k || k == 0))
  }

  // ... and while it is leaving c, done with everything below it.
  ghost predicate Leaving(t: Tree, c: nat, nodes: set<nat>, data: set<nat>)
    requires WellLinked(t) && c < |t|
  {
    && c < End(t, c)
    && (forall k :: k in nodes <==> k < |t| && (End(t, c) <= k || k in Path(t, c)))
    && (forall k :: k in data <==> k < |t| && (End(t, c) <= k || k == 0))
  }

  lemma VisitingFacts(t: Tree, c: nat, nodes: set<nat>, data: set<nat>)
    requires WellLinked(t) && 0 < c < |t| && Visiting(t, c, nodes, data)
    ensures c in nodes && c in data && !t[c].kind.Root?
    ensures t[c].kind.Atom? ==> t[c].children.None?
  {
    assert LinksOk(t, c);
  }

  lemma LeavingFacts(t: Tree, c: nat, nodes: set<nat>, data: set<nat>)
    requires WellLinked(t) && c < |t| && Leaving(t, c, nodes, data)
    ensures c in nodes && (t[c].kind.Root? <==> c == 0)
    ensures t[c].parent.Some? ==> t[c].parent.value < c
    ensures Rooted(t) && c < End(t, c)
  {
  }

  lemma StepDown(t: Tree, c: nat, nodes: set<nat>, data: set<nat>)
    requires WellLinked(t) && c < |t| && t[c].children.Some? && Visiting(t, c, nodes, data)
    ensures t[c].children == Some(c + 1) && c + 1 < |t|
    ensures c > 0 ==> Visiting(t, c + 1, nodes, data - {c})
    ensures c == 0 ==> Visiting(t, c + 1, nodes, data)
  {
    assert LinksOk(t, c);
    assert Path(t, c + 1) == {c + 1} + Path(t, c);
  }

  lemma TurnBack(t: Tree, c: nat, nodes: set<nat>, data: set<nat>)
    requires WellLinked(t) && 0 < c < |t| && t[c].children.None? && Visiting(t, c, nodes, data)
    ensures Leaving(t, c, nodes, data - {c})
  {
    assert LinksOk(t, c);
  }

  lemma StepAside(t: Tree, c: nat, nodes: set<nat>, data: set<nat>)
    requires WellLinked(t) && c < |t| && t[c].next.Some? && Leaving(t, c, nodes, data)
    ensures t[c].next.value < |t| && t[c].next.value == End(t, c) && Visiting(t, t[c].next.value, nodes - {c}, data)
  {
    assert LinksOk(t, c);
    assert End(t, c) == t[c].next.value;
  }

  lemma StepUp(t: Tree, c: nat, nodes: set<nat>, data: set<nat>)
    requires WellLinked(t) && 0 < c < |t| && t[c].next.None? && Leaving(t, c, nodes, data)
    ensures t[c].parent.Some? && t[c].parent.value < |t| && Leaving(t, t[c].parent.value, nodes - {c}, data)
    ensures End(t, t[c].parent.value) == End(t, c)
  {
    assert Path(t, c) == {c} + Path(t, t[c].parent.value);
    assert End(t, c) == End(t, t[c].parent.value);
  }

  lemma LeavingRoot(t: Tree, nodes: set<nat>, data: set<nat>)
    requires WellLinked(t) && Leaving(t, 0, nodes, data)
    ensures nodes == {0} && data == {0}
  {
    assert LinksOk(t, 0);
  }

  lemma VisitingRoot(t: Tree, nodes: set<nat>, data: set<nat>)
    requires WellLinked(t)
    requires All(t, nodes) && All(t, data)
    ensures Visiting(t, 0, nodes, data)
    ensures t[0].children.None? ==> |t| == 1
  {
    assert LinksOk(t, 0);
  }

  // The allocations of one tpl. Every field access and every release needs the
  // allocation to be there, so the contracts of the calls below rule out both
  // a second free and a use after free.
  class Mapping {
    var tree: Tree
    var parent: nat                  // where tpl_map_va adds the next node
    var nodes: set<nat>              // tpl_node allocations not freed yet
    var data: set<nat>               // what c->data points to, not freed yet

    ghost predicate Whole()
      reads this
    {
      Open(tree, parent) && CanTake(tree, parent) && All(tree, nodes) && All(tree, data)
    }

    constructor ()
      ensures Whole() && tree == Fresh() && parent == 0
    {
      tree := Fresh();
      parent := 0;
      nodes := {0};
      data := {0};
      new;
      FreshOpen();
    }

    function At(c: nat): TreeNode
      requires c in nodes && c < |tree|
      reads this
    {
      tree[c]
    }

    // An atom or a '#' node at the end of the open list.
    method AddAtom()
      requires Whole()
      modifies this
      ensures Whole() && tree == Added(old(tree), old(parent), Atom) && parent == old(parent)
    {
      AddedOk(tree, parent, Atom);
      nodes, data := nodes + {|tree|}, data + {|tree|};
      tree := Added(tree, parent, Atom);
    }

    // 'A': a new list is opened below the new node.
    method OpenArray()
      requires Whole()
      modifies this
      ensures Whole() && tree == Added(old(tree), old(parent), Array) && parent == |old(tree)|
    {
      AddedOk(tree, parent, Array);
      nodes, data := nodes + {|tree|}, data + {|tree|};
      var n := |tree|;
      tree := Added(tree, parent, Array);
      parent := n;
    }

    // The ')' of an 'A'.
    method CloseArray()
      requires Whole() && tree[parent].kind.Array?
      modifies this`parent
      ensures Whole() && Some(parent) == tree[old(parent)].parent
    {
      CloseOk(tree, parent);
      parent := tree[parent].parent.value;
    }

    method FreeNode(c: nat)
      requires c in nodes
      modifies this`nodes
      ensures nodes == old(nodes) - {c}
    {
      nodes := nodes - {c};
    }

    method FreeData(c: nat)
      requires c in nodes && c in data
      modifies this`data
      ensures data == old(data) - {c}
    {
      data := data - {c};
    }

    // tpl_free, on any tree tpl_map_va has got to, complete or not: nothing is
    // left allocated.
    method Free()
      requires Whole()
      modifies this`nodes, this`data
      ensures nodes == {} && data == {}
    {
      hide WellLinked, LinksOk, Path, End;
      OpenLinked(tree, parent);
      VisitingRoot(tree, nodes, data);
      if At(0).children.Some? {
        StepDown(tree, 0, nodes, data);
        FreeBelow(At(0).children.value);
      }
      FreeData(0);
      FreeNode(0);
    }

    method FreeBelow(first: nat)
      requires WellLinked(tree) && 0 < first < |tree| && Visiting(tree, first, nodes, data)
      modifies this`nodes, this`data
      ensures nodes == {0} && data == {0}
    {
      hide WellLinked, LinksOk, Path, End, Leaving, Visiting;
      var c := first;
      VisitingFacts(tree, c, nodes, data);
      while !At(c).kind.Root?
        invariant WellLinked(tree) && c < |tree| && c in nodes
        invariant tree[c].kind.Root? <==> c == 0
        invariant c > 0 ==> Visiting(tree, c, nodes, data)
        invariant c == 0 ==> Leaving(tree, 0, nodes, data)
        decreases |tree| - if c == 0 then |tree| else c
      {
        VisitingFacts(tree, c, nodes, data);
        if At(c).kind.Array? && At(c).children.Some? {
          StepDown(tree, c, nodes, data);
          FreeData(c);
          c := At(c).children.value;
        } else {
          TurnBack(tree, c, nodes, data);
          FreeData(c);
          c := FindNext(c);
        }
        if c > 0 {
          VisitingFacts(tree, c, nodes, data);
        }
      }
      LeavingRoot(tree, nodes, data);
    }

    // The search for the next node: free nodes up to one with a next node, or
    // to the root.
    method FindNext(leaf: nat) returns (c: nat)
      requires WellLinked(tree) && 0 < leaf < |tree| && Leaving(tree, leaf, nodes, data)
      modifies this`nodes
      ensures WellLinked(tree) && c < |tree| && (tree[c].kind.Root? <==> c == 0) && c in nodes && (c == 0 || leaf < c)
      ensures if c == 0 then Leaving(tree, 0, nodes, data) else Visiting(tree, c, nodes, data)
    {
      hide WellLinked, LinksOk, Path, End, Leaving, Visiting;
      c := leaf;
      LeavingFacts(tree, c, nodes, data);
      var looking := true;
      while looking
        invariant Rooted(tree) && c < |tree| && c in nodes && (tree[c].kind.Root? <==> c == 0)
        invariant looking ==> Leaving(tree, c, nodes, data) && leaf < End(tree, c)
        invariant !looking ==> leaf < c && Visiting(tree, c, nodes, data)
        decreases looking, c
      {
        LeavingFacts(tree, c, nodes, data);
        if At(c).next.Some? {
          StepAside(tree, c, nodes, data);
          var next := At(c).next.value;
          FreeNode(c);
          c := next;
          looking := false;
          VisitingFacts(tree, c, nodes, data);
        } else if At(c).kind.Root? {
          break;
        } else {
          StepUp(tree, c, nodes, data);
          var up := At(c).parent.value;
          FreeNode(c);
          c := up;
          LeavingFacts(tree, c, nodes, data);
        }
      }
    }
  }
}
