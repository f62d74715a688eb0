// Which steps keep the document a tree: an exact, per-step condition that can be
// read off the step itself.
module TreeSteps {
  import opened Wrappers
  import opened Text
  import opened Marks
  import opened Content
  import opened InlineEdit
  import opened Flat
  import opened InlineLaws
  import opened Nodes
  import opened InputMarks
  import opened Mapping
  import opened Steps
  import opened Inverse
  import opened InlineUndo
  import opened Structure
  import opened Tree
  import opened WorkingStore
  import opened Apply
  import opened Undo
  import opened UndoTree
  import opened UndoAtoms
  import opened UndoRun

  lemma OneNodeEdges(store: Store, n: NodeId, node: Node)
    requires n in store
    ensures forall p, c :: Edge(store[n := node], p, c) <==> if p == n then c in References(node) else Edge(store, p, c)
  {
    hide References;
    var post := store[n := node];
    forall p, c
      ensures Edge(post, p, c) <==> if p == n then c in References(node) else Edge(store, p, c)
    {}
  }

  ghost predicate PlacedAsAtom(store: Store, n: NodeId) {
    exists p :: Edge(store, p, n) && store[p].content.Inline?
  }

  // A rewritten node that keeps the node's references keeps the tree.
  lemma {:induction false} RewrittenNode(store: Store, root: NodeId, n: NodeId, node: Node)
    requires IsTree(store, root) && n in store && node.id == n && NodeOk(node)
    requires forall c :: c in References(node) <==> c in References(store[n])
    requires Distinct(References(node)) && node.content.Inline? == store[n].content.Inline?
    requires PlacedAsAtom(store, n) ==> node.kind.InlineAtom?
    ensures IsTree(store[n := node], root)
  {
    hide References, NodeOk, Distinct, IsDepth;
    OneNodeEdges(store, n, node);
    var post := store[n := node];
    assert forall p, c :: Edge(post, p, c) <==> Edge(store, p, c) by { EdgesUnfold(store, n); }
    TreeStays(store, post, root);
  }

  lemma PlacedIsAtom(store: Store, root: NodeId, n: NodeId)
    requires IsTree(store, root) && PlacedAsAtom(store, n)
    ensures n in store && store[n].kind.InlineAtom?
  {
    hide NodeOk, Distinct, IsDepth, Edge;
  }

  lemma TreeDistinct(store: Store, root: NodeId, n: NodeId)
    requires IsTree(store, root) && n in store
    ensures Distinct(References(store[n]))
  {
    hide NodeOk, Distinct, IsDepth, References;
  }

  lemma {:induction false} ChildIsNotPlaced(store: Store, root: NodeId, p: NodeId, n: NodeId)
    requires IsTree(store, root) && ChildEdge(store, p, n)
    ensures !PlacedAsAtom(store, n)
  {
    hide NodeOk, Distinct, IsDepth;
    EdgeIsChildOrAtom(store, p, n);
  }

  lemma DistinctIdentities(c: InlineContent)
    requires WfContent(c)
    ensures Distinct(Identities(c.atoms))
  {
    hide CharsOk, CanonicalRuns;
  }

  // ----- edits of one node

  lemma EditKeepsIdentities(store: Store, c: InlineContent, step: TransactionStep)
    requires EditInline(store, c, step).Ok?
    ensures Identities(EditInline(store, c, step).value.atoms) == Identities(c.atoms)
  {
    hide Chars, RangeCheck, InheritedMarks, Group, SpliceChars, ChangeChars, Inherited, FirstAt, CountAt;
  }

  lemma {:induction false} EditKeepsTree(ctx: Ctx, n: NodeId, step: TransactionStep)
    requires CtxOk(ctx) && WellTyped(step) && EditsNode(step, n) && ApplyStep(ctx, step).Ok?
    ensures CtxOk(ApplyStep(ctx, step).value.ctx)
  {
    hide IsTree, WfContent, EditInline, RunInline, ApplyStep, Validate, ValidUtf8;
    EditApplied(ctx, n, step);
    var c := ctx.store[n].content.inline;
    var next := EditInline(ctx.store, c, step).value;
    EditKeepsIdentities(ctx.store, c, step);
    DistinctIdentities(next);
    ValidateNewInline(ctx.store[n], next);
    if PlacedAsAtom(ctx.store, n) {
      PlacedIsAtom(ctx.store, ctx.root, n);
    }
    RewrittenNode(ctx.store, ctx.root, n, ctx.store[n].(content := Inline(next)));
  }

  lemma {:induction false} SetAttrsKeepsTree(ctx: Ctx, node: NodeId, attrs: NodeAttrs)
    requires CtxOk(ctx) && ApplySetNodeAttrs(ctx, node, attrs).Ok?
    ensures CtxOk(ApplySetNodeAttrs(ctx, node, attrs).value.ctx)
  {
    hide IsTree, Validate, Distinct, WfContent, PlacedAsAtom;
    NodeInTree(ctx.store, ctx.root, node);
    TreeDistinct(ctx.store, ctx.root, node);
    if PlacedAsAtom(ctx.store, node) {
      PlacedIsAtom(ctx.store, ctx.root, node);
    }
    RewrittenNode(ctx.store, ctx.root, node, ctx.store[node].(attrs := attrs));
  }

  lemma {:induction false} SetMarksKeepsTree(ctx: Ctx, atom: NodeId, marks: MarkSet)
    requires CtxOk(ctx) && marks.Valid() && ApplySetInlineAtomMarks(ctx, atom, marks).Ok?
    ensures CtxOk(ApplySetInlineAtomMarks(ctx, atom, marks).value.ctx)
  {
    hide IsTree, Validate, Distinct, WfContent, PlacedAsAtom;
    NodeInTree(ctx.store, ctx.root, atom);
    TreeDistinct(ctx.store, ctx.root, atom);
    if PlacedAsAtom(ctx.store, atom) {
      PlacedIsAtom(ctx.store, ctx.root, atom);
    }
    RewrittenNode(ctx.store, ctx.root, atom, ctx.store[atom].(content := ctx.store[atom].content.(marks := marks)));
  }

  lemma {:induction false} SetKindKeepsTree(ctx: Ctx, node: NodeId, kind: NodeKind)
    requires CtxOk(ctx) && ApplySetNodeKind(ctx, node, kind).Ok?
    ensures CtxOk(ApplySetNodeKind(ctx, node, kind).value.ctx)
  {
    hide IsTree, Validate, Distinct, WfContent, ParentOf, PlacedAsAtom, AllowsChild;
    NodeInTree(ctx.store, ctx.root, node);
    TreeDistinct(ctx.store, ctx.root, node);
    ParentFound(ctx.store, ctx.root, node);
    ChildIsNotPlaced(ctx.store, ctx.root, ParentOf(ctx.store, node).value, node);
    RewrittenNode(ctx.store, ctx.root, node, ctx.store[node].(kind := kind));
  }

  // ----- new leaves

  lemma InsertedDistinct(ids: seq<NodeId>, index: nat, id: NodeId)
    requires Distinct(ids) && index <= |ids| && id !in ids
    ensures Distinct(InsertId(ids, index, id))
  {}

  // A stored leaf and a parent that now also refers to it.
  lemma {:induction false} NewLeaf(store: Store, root: NodeId, at: NodeId, leaf: Node, node: Node)
    requires IsTree(store, root) && at in store && leaf.id !in store && node.id == at
    requires NodeOk(leaf) && NodeOk(node) && References(leaf) == []
    requires forall c :: c in References(node) <==> c in References(store[at]) || c == leaf.id
    requires Distinct(References(node)) && node.content.Inline? == store[at].content.Inline?
    requires node.content.Inline? ==> leaf.kind.InlineAtom?
    requires node.kind == store[at].kind
    ensures IsTree(store[leaf.id := leaf][at := node], root)
  {
    hide References, NodeOk, Distinct, IsDepth;
    var post := store[leaf.id := leaf][at := node];
    assert Distinct(References(leaf)) by { NoneDistinct(References(leaf)); }
    LeafEdges(store, at, leaf, node);
    LeafAtoms(store, root, at, leaf, node);
    TreeGrows(store, post, root, at, leaf.id);
  }

  lemma NoneDistinct(ids: seq<NodeId>)
    requires ids == []
    ensures Distinct(ids)
  {}

  lemma LeafEdges(store: Store, at: NodeId, leaf: Node, node: Node)
    requires at in store && leaf.id !in store && References(leaf) == []
    requires forall c :: c in References(node) <==> c in References(store[at]) || c == leaf.id
    ensures var post := store[leaf.id := leaf][at := node];
      forall p, c :: Edge(post, p, c) <==> Edge(store, p, c) || (p == at && c == leaf.id)
  {
    hide References;
    var post := store[leaf.id := leaf][at := node];
    forall p, c
      ensures Edge(post, p, c) <==> Edge(store, p, c) || (p == at && c == leaf.id)
    {}
  }

  lemma LeafAtoms(store: Store, root: NodeId, at: NodeId, leaf: Node, node: Node)
    requires IsTree(store, root) && at in store && leaf.id !in store && References(leaf) == []
    requires forall c :: c in References(node) <==> c in References(store[at]) || c == leaf.id
    requires node.content.Inline? == store[at].content.Inline? && node.kind == store[at].kind
    requires node.content.Inline? ==> leaf.kind.InlineAtom?
    ensures AtomsPlaced(store[leaf.id := leaf][at := node])
  {
    hide References, NodeOk, Distinct, IsDepth;
    LeafEdges(store, at, leaf, node);
  }

  // A fresh node that refers to anything breaks the tree: what it refers to is
  // missing, has a parent already, or is the root or the node itself.
  lemma {:induction false} FreshReferenceBreaks(store: Store, post: Store, root: NodeId, leaf: Node, c: NodeId)
    requires IsTree(store, root) && IsTree(post, root) && leaf.id !in store
    requires leaf.id in post && post[leaf.id] == leaf && post.Keys == store.Keys + {leaf.id}
    requires forall p, d :: Edge(store, p, d) ==> Edge(post, p, d)
    ensures c !in References(leaf)
  {
    hide References, NodeOk, Distinct, IsDepth;
    NoSelfEdge(post, root, leaf.id);
    HasParent(store, root, c);
    assert Edge(post, leaf.id, c) <==> c in References(leaf);
  }

  lemma {:induction false} NoSelfEdge(store: Store, root: NodeId, x: NodeId)
    requires IsTree(store, root)
    ensures !Edge(store, x, x)
  {
    hide NodeOk, Distinct;
    EdgeParentStored(store);
    var depth :| IsDepth(store, root, depth);
  }

  lemma {:induction false} HasParent(store: Store, root: NodeId, c: NodeId)
    requires IsTree(store, root)
    ensures c in store && c != root ==> exists q :: q in store && Edge(store, q, c)
  {
    hide Edge, NodeOk, Distinct;
    EdgeParentStored(store);
    var depth :| IsDepth(store, root, depth);
  }

  lemma InsertedNodeOk(ctx: Ctx, parent: NodeId, index: nat, kind: NodeKind, attrs: NodeAttrs, content: NodeContent)
    requires CtxOk(ctx) && ContentOk(content) && ApplyInsertNode(ctx, parent, index, kind, attrs, content).Ok?
    ensures NodeOk(Node(ctx.nextId, kind, attrs, content))
  {
    hide IsTree, Validate, WfContent, RewriteContent, InsertId;
  }

  lemma {:induction false} InsertNodeKeepsTree(ctx: Ctx, parent: NodeId, index: nat, kind: NodeKind, attrs: NodeAttrs,
                                               content: NodeContent)
    requires CtxOk(ctx) && ContentOk(content) && ApplyInsertNode(ctx, parent, index, kind, attrs, content).Ok?
    ensures CtxOk(ApplyInsertNode(ctx, parent, index, kind, attrs, content).value.ctx)
      <==> References(Node(ctx.nextId, kind, attrs, content)) == []
  {
    hide IsTree, Validate, InsertId, NodeOk, ApplyInsertNode, WfContent, Distinct, ContentOk;
    InsertedNodeFacts(ctx, parent, index, kind, attrs, content);
    InsertedNodeOk(ctx, parent, index, kind, attrs, content);
    var leaf := Node(ctx.nextId, kind, attrs, content);
    var post := ApplyInsertNode(ctx, parent, index, kind, attrs, content).value.ctx;
    var children := ctx.store[parent].content.children;
    if References(leaf) == [] {
      NodeInTree(ctx.store, ctx.root, parent);
      ChildrenDistinct(ctx.store, ctx.root, parent);
      InsertedIsMember(children, index, leaf.id);
      InsertedDistinct(children, index, leaf.id);
      ValidateNewChildren(ctx.store[parent], children);
      var node := ctx.store[parent].(content := Children(InsertId(children, index, leaf.id)));
      assert NodeOk(node) by { ChildrenNodeOk(node); }
      NewLeaf(ctx.store, ctx.root, parent, leaf, node);
      StepKeepsIds(ctx, InsertNodeStep(parent, index, kind, attrs, content));
      InsertedCtxOk(ctx, post);
    } else if CtxOk(post) {
      InsertedKeepsEdges(ctx.store, parent, index, leaf);
      RootStored(post.store, post.root);
      FreshReferenceBreaks(ctx.store, post.store, ctx.root, leaf, References(leaf)[0]);
    }
  }

  lemma ChildrenNodeOk(node: Node)
    requires Validate(node).Pass? && node.content.Children?
    ensures NodeOk(node)
  {}

  lemma InsertedCtxOk(ctx: Ctx, post: Ctx)
    requires CtxOk(ctx) && IsTree(post.store, post.root) && post.store.Keys == ctx.store.Keys + {ctx.nextId}
    requires ctx.nextId < post.nextId < U64_LIMIT
    ensures CtxOk(post)
  {
    hide IsTree;
  }

  // ----- new atoms

  lemma AttachedIdentities(c: InlineContent, p: Caret, atom: NodeId)
    requires AtomAttached(c, p, atom).Ok?
    ensures forall x :: x in Identities(AtomAttached(c, p, atom).value.atoms) <==> x in Identities(c.atoms) || x == atom
  {
    hide Chars, CountAt, FirstAt, DistinctAtoms;
    var cut := CaretCut(c.atoms, p);
    var r := AtomAttached(c, p, atom).value;
    assert Identities(r.atoms) == Identities(c.atoms[..cut]) + [atom] + Identities(c.atoms[cut..]);
    assert Identities(c.atoms) == Identities(c.atoms[..cut]) + Identities(c.atoms[cut..]);
  }

  lemma {:induction false} AttachedKeepsTree(ctx: Ctx, at: InlinePoint, payload: Node)
    requires CtxOk(ctx) && payload.id !in ctx.store && payload.kind.InlineAtom? && payload.content.AtomPayload?
      && NodeOk(payload)
    requires at.node in ctx.store && ctx.store[at.node].content.Inline?
    requires AtomAttached(ctx.store[at.node].content.inline, CaretOf(at), payload.id).Ok?
    ensures IsTree(ctx.store[payload.id := payload][at.node := ctx.store[at.node].(content :=
      Inline(AtomAttached(ctx.store[at.node].content.inline, CaretOf(at), payload.id).value))], ctx.root)
  {
    hide IsTree, Validate, AtomAttached, WfContent, Distinct, Identities;
    var c := ctx.store[at.node].content.inline;
    var next := AtomAttached(c, CaretOf(at), payload.id).value;
    NodeInTree(ctx.store, ctx.root, at.node);
    AttachedWf(c, CaretOf(at), payload.id);
    AttachedIdentities(c, CaretOf(at), payload.id);
    DistinctIdentities(next);
    ValidateNewInline(ctx.store[at.node], next);
    NewLeaf(ctx.store, ctx.root, at.node, payload, ctx.store[at.node].(content := Inline(next)));
  }

  lemma {:induction false} InsertAtomKeepsTree(ctx: Ctx, at: InlinePoint, atomKind: AtomKind, attrs: NodeAttrs,
                                               fallback: seq<byte>, marks: MarkSet)
    requires CtxOk(ctx) && marks.Valid() && ApplyInsertInlineAtom(ctx, at, atomKind, attrs, fallback, marks).Ok?
    ensures CtxOk(ApplyInsertInlineAtom(ctx, at, atomKind, attrs, fallback, marks).value.ctx)
  {
    hide IsTree, Validate, AtomAttached, WfContent, ApplyInsertInlineAtom;
    InsertedAtomFacts(ctx, at, atomKind, attrs, fallback, marks);
    StepKeepsIds(ctx, InsertInlineAtomStep(at, atomKind, attrs, fallback, marks));
    var payload := Node(ctx.nextId, InlineAtom(atomKind), attrs, AtomPayload(fallback, marks));
    AttachedKeepsTree(ctx, at, payload);
  }

  lemma {:induction false} RestoreAtomKeepsTree(ctx: Ctx, at: InlinePoint, payload: Node)
    requires CtxOk(ctx) && NodeOk(payload) && ApplyRestoreInlineAtom(ctx, at, payload).Ok?
    ensures CtxOk(ApplyRestoreInlineAtom(ctx, at, payload).value.ctx)
  {
    hide IsTree, NodeOk, AtomAttached, ApplyRestoreInlineAtom;
    RestoredAtomFacts(ctx, at, payload);
    AttachedKeepsTree(ctx, at, payload);
  }

  // ----- what leaves

  lemma {:induction false} WithoutMembers(ids: seq<NodeId>, id: NodeId)
    ensures forall x :: x in WithoutId(ids, id) <==> x in ids && x != id
    ensures Distinct(ids) ==> Distinct(WithoutId(ids, id))
  {
    if ids != [] {
      WithoutMembers(ids[1..], id);
      assert ids == [ids[0]] + ids[1..];
      if Distinct(ids) {
        DistinctTail(ids);
        DistinctJoin(if ids[0] == id then [] else [ids[0]], WithoutId(ids[1..], id));
      }
    }
  }

  lemma DistinctTail(ids: seq<NodeId>)
    requires Distinct(ids) && ids != []
    ensures Distinct(ids[1..]) && ids[0] !in ids[1..]
  {}

  lemma DistinctJoin(head: seq<NodeId>, tail: seq<NodeId>)
    requires |head| <= 1 && Distinct(tail) && (head == [] || head[0] !in tail)
    ensures Distinct(head + tail)
  {}

  // A set of nodes leaves together with the one reference into it.
  lemma {:induction false} Pruned(store: Store, root: NodeId, at: NodeId, x: NodeId, node: Node, gone: set<NodeId>)
    requires IsTree(store, root) && Edge(store, at, x) && at !in gone && root !in gone && x in gone
      && gone <= store.Keys
    requires forall p, c :: p in gone && Edge(store, p, c) ==> c in gone
    requires forall p, c :: p !in gone && c in gone && Edge(store, p, c) ==> c == x
    requires NodeOk(node) && node.id == at && node.content.Inline? == store[at].content.Inline?
      && node.kind == store[at].kind
    requires Distinct(References(node)) && forall c :: c in References(node) <==> c in References(store[at]) && c != x
    ensures IsTree(store[at := node] - gone, root)
  {
    hide References, NodeOk, Distinct, IsDepth;
    var post := store[at := node] - gone;
    PrunedEdges(store, root, at, x, node, gone);
    TreeShrinks(store, post, root, gone);
  }

  lemma PrunedEdges(store: Store, root: NodeId, at: NodeId, x: NodeId, node: Node, gone: set<NodeId>)
    requires IsTree(store, root) && Edge(store, at, x) && at !in gone && x in gone
    requires forall p, c :: p !in gone && c in gone && Edge(store, p, c) ==> c == x
    requires forall c :: c in References(node) <==> c in References(store[at]) && c != x
    ensures var post := store[at := node] - gone;
      forall p, c :: Edge(post, p, c) <==> Edge(store, p, c) && p !in gone && c !in gone
  {
    hide References, NodeOk, Distinct, IsDepth;
    var post := store[at := node] - gone;
    forall p, c
      ensures Edge(post, p, c) <==> Edge(store, p, c) && p !in gone && c !in gone
    {
      assert p in post <==> p in store && p !in gone;
      if p in post && p != at {
        assert post[p] == store[p];
        assert Edge(post, p, c) <==> Edge(store, p, c);
      } else if p == at {
        assert Edge(post, p, c) <==> c in References(node);
        assert Edge(store, p, c) && c in gone ==> c == x;
      }
    }
  }

  lemma {:induction false} RemoveNodeKeepsTree(ctx: Ctx, node: NodeId)
    requires CtxOk(ctx) && ApplyRemoveNode(ctx, node).Ok?
    ensures CtxOk(ApplyRemoveNode(ctx, node).value.ctx)
  {
    hide IsTree, NodeOk, Validate, WithoutId, Subtree, ParentOf, ApplyRemoveNode, Distinct;
    RemovedNodeFacts(ctx, node);
    var parent := ParentOf(ctx.store, node).value;
    var gone := Subtree(ctx.store, node);
    var children := ctx.store[parent].content.children;
    var next := ctx.store[parent].(content := Children(WithoutId(children, node)));
    SubtreeInStore(ctx.store, ctx.root, node);
    SubtreeIsClosed(ctx.store, ctx.root, node);
    forall p, c | p !in gone && c in gone && Edge(ctx.store, p, c)
      ensures c == node
    {
      EdgeIntoSubtree(ctx.store, ctx.root, node, p, c);
    }
    ChildrenDistinct(ctx.store, ctx.root, parent);
    WithoutMembers(children, node);
    ValidateNewChildren(ctx.store[parent], children);
    ChildrenNodeOk(next);
    Pruned(ctx.store, ctx.root, parent, node, next, gone);
  }

  lemma SubtreeIsClosed(store: Store, root: NodeId, x: NodeId)
    requires IsTree(store, root) && x in store
    ensures forall p, c :: p in Subtree(store, x) && Edge(store, p, c) ==> c in Subtree(store, x)
  {
    hide Edge, NodeOk, Distinct, IsDepth, Subtree;
    SubtreeClosed(store, x);
  }

  lemma DetachedIdentities(c: InlineContent, j: nat)
    requires WfContent(c) && j < |c.atoms|
    ensures forall x :: x in Identities(AtomDetached(c, j).atoms) <==> x in Identities(c.atoms) && x != c.atoms[j].atom
  {
    hide CharsOk, CanonicalRuns, Boundary;
    assert Identities(AtomDetached(c, j).atoms) == Identities(c.atoms[..j]) + Identities(c.atoms[j + 1..]);
    assert Identities(c.atoms) == Identities(c.atoms[..j]) + [c.atoms[j].atom] + Identities(c.atoms[j + 1..]);
  }

  lemma {:induction false} RemoveAtomKeepsTree(ctx: Ctx, atom: NodeId)
    requires CtxOk(ctx) && ApplyRemoveInlineAtom(ctx, atom).Ok?
    ensures CtxOk(ApplyRemoveInlineAtom(ctx, atom).value.ctx)
  {
    hide IsTree, Validate, PositionOf, AtomParentOf, ApplyRemoveInlineAtom, Distinct, Identities, WfContent;
    hide GapBefore, AtomDetached;
    RemovedAtomFacts(ctx, atom);
    var n := AtomParentOf(ctx.store, atom).value;
    var c := ctx.store[n].content.inline;
    var j := PositionOf(Identities(c.atoms), atom).value;
    var detached := AtomDetached(c, j);
    DetachedWf(c, j);
    DetachedIdentities(c, j);
    DistinctIdentities(detached);
    ValidateNewInline(ctx.store[n], detached);
    Pruned(ctx.store, ctx.root, n, atom, ctx.store[n].(content := Inline(detached)), {atom});
  }

  // ----- splits and joins

  lemma SplitIdentities(c: InlineContent, p: Caret)
    requires WfContent(c) && SplitAt(c, p).Ok?
    ensures var halves := SplitAt(c, p).value;
      && Identities(c.atoms) == Identities(halves.0.atoms) + Identities(halves.1.atoms)
      && WfContent(halves.0) && WfContent(halves.1)
  {
    hide Chars, CountAt, FirstAt, WfContent;
    HalvesWf(c, p);
  }

  lemma {:induction false} SplitShape(store: Store, post: Store, parent: NodeId, node: NodeId, tail: Node,
                                      head: InlineContent, index: nat)
    requires parent in store && store[parent].content.Children? && index <= |store[parent].content.children|
    requires node in store && node != parent && tail.id !in store
    requires store[node].content.Inline? && tail.content.Inline?
    requires SplitStore(store, post, parent, node, tail, head, index)
    requires Identities(store[node].content.inline.atoms)
      == Identities(head.atoms) + Identities(tail.content.inline.atoms)
    requires Distinct(References(store[node]))
    ensures var moved := set c | c in References(tail);
      SplitEdges(store, post, parent, node, tail.id, moved) && post.Keys == store.Keys + {tail.id}
  {
    hide Identities, InsertId, Distinct;
    InsertedIsMember(store[parent].content.children, index, tail.id);
    var head', tail' := Identities(head.atoms), Identities(tail.content.inline.atoms);
    DistinctHalves(head', tail');
  }

  lemma DistinctHalves(a: seq<NodeId>, b: seq<NodeId>)
    requires Distinct(a + b)
    ensures Distinct(a) && Distinct(b) && forall x :: x in a ==> x !in b
  {
    var s := a + b;
    assert forall i :: 0 <= i < |a| ==> s[i] == a[i];
    assert forall i :: 0 <= i < |b| ==> s[|a| + i] == b[i];
  }

  // The nodes a split leaves are sound, distinct and place atoms only.
  lemma {:induction false} SplitNodesOk(store: Store, root: NodeId, post: Store, parent: NodeId, node: NodeId,
                                        tail: Node, head: InlineContent, index: nat)
    requires IsTree(store, root) && ChildEdge(store, parent, node) && index <= |store[parent].content.children|
    requires node in store && node != parent && tail.id !in store
    requires store[node].content.Inline? && tail.content.Inline? && NodeOk(tail) && WfContent(head)
    requires SplitStore(store, post, parent, node, tail, head, index)
    requires Identities(store[node].content.inline.atoms)
      == Identities(head.atoms) + Identities(tail.content.inline.atoms)
    ensures NodesOk(post) && NodesDistinct(post)
  {
    hide Identities, InsertId, Distinct, IsDepth, Validate, WfContent, EdgesClosed;
    ChildrenDistinct(store, root, parent);
    TreeDistinct(store, root, node);
    NodeInTree(store, root, parent);
    NodeInTree(store, root, node);
    DistinctHalves(Identities(head.atoms), Identities(tail.content.inline.atoms));
    InsertedDistinct(store[parent].content.children, index, tail.id);
    ValidateNewChildren(store[parent], []);
    ValidateNewInline(store[node], head);
    forall id | id in post
      ensures Distinct(References(post[id]))
    {
      if id in store {
        TreeDistinct(store, root, id);
      }
    }
  }

  lemma {:induction false} SplitAtomsPlaced(store: Store, root: NodeId, post: Store, parent: NodeId, node: NodeId,
                                            tail: Node, head: InlineContent, index: nat)
    requires IsTree(store, root) && ChildEdge(store, parent, node) && index <= |store[parent].content.children|
    requires node in store && node != parent && tail.id !in store
    requires store[node].content.Inline? && tail.content.Inline?
    requires SplitStore(store, post, parent, node, tail, head, index)
    requires Identities(store[node].content.inline.atoms)
      == Identities(head.atoms) + Identities(tail.content.inline.atoms)
    ensures AtomsPlaced(post)
  {
    hide Identities, InsertId, Distinct, IsDepth, NodeOk;
    forall p, c | Edge(post, p, c) && post[p].content.Inline? && c in post
      ensures post[c].kind.InlineAtom?
    {
      var q := if p == tail.id then node else p;
      assert Edge(store, q, c) && store[q].content.Inline?;
    }
  }

  lemma {:induction false} SplitKeepsTree(ctx: Ctx, at: InlinePoint, restored: Option<Node>, mixed: bool)
    requires CtxOk(ctx) && SplitInline(ctx, at, restored, mixed).Ok? && (restored.Some? ==> NodeOk(restored.value))
    ensures CtxOk(SplitInline(ctx, at, restored, mixed).value.ctx)
  {
    hide IsTree, NodeOk, Validate, PositionOf, ParentOf, SplitAt, WfContent, SplitStore, SplitInline, InsertId;
    hide Identities, Distinct, References, Edge;
    hide Joined;
    SplitFacts(ctx, at, restored, mixed);
    var applied := SplitInline(ctx, at, restored, mixed).value;
    var id := if restored.Some? then restored.value.id else ctx.nextId;
    var parent := ParentOf(ctx.store, at.node).value;
    var c := ctx.store[at.node].content.inline;
    var halves := SplitAt(c, CaretOf(at)).value;
    var index := PositionOf(ctx.store[parent].content.children, at.node).value + 1;
    var tail := applied.ctx.store[id];
    SplitIdentities(c, CaretOf(at));
    assert NodeOk(tail) by { InlineNodeOk(tail); }
    EdgeIsChildOrAtom(ctx.store, parent, at.node);
    TreeDistinct(ctx.store, ctx.root, at.node);
    SplitShape(ctx.store, applied.ctx.store, parent, at.node, tail, halves.0, index);
    SplitNodesOk(ctx.store, ctx.root, applied.ctx.store, parent, at.node, tail, halves.0, index);
    SplitAtomsPlaced(ctx.store, ctx.root, applied.ctx.store, parent, at.node, tail, halves.0, index);
    TreeSplits(ctx.store, applied.ctx.store, ctx.root, parent, at.node, id, set x | x in References(tail));
    KeysBelow(ctx, applied.ctx, id);
  }

  lemma InlineNodeOk(node: Node)
    requires node.content.Inline? && WfContent(node.content.inline)
    ensures Validate(node).Pass? ==> NodeOk(node)
  {
    hide WfContent;
  }

  lemma KeysBelow(ctx: Ctx, post: Ctx, id: NodeId)
    requires CtxOk(ctx) && IsTree(post.store, post.root) && post.store.Keys == ctx.store.Keys + {id}
    requires ctx.nextId <= post.nextId < U64_LIMIT && id < post.nextId
    ensures CtxOk(post)
  {
    hide IsTree;
  }

  lemma JoinedIdentities(a: InlineContent, b: InlineContent)
    requires Joined(a, b).Ok?
    ensures Identities(Joined(a, b).value.atoms) == Identities(a.atoms) + Identities(b.atoms)
  {
    hide Chars, DistinctAtoms;
  }

  lemma {:induction false} JoinKeepsTree(ctx: Ctx, first: NodeId, second: NodeId)
    requires CtxOk(ctx) && ApplyJoinNodes(ctx, first, second).Ok?
    ensures CtxOk(ApplyJoinNodes(ctx, first, second).value.ctx)
  {
    hide IsTree, NodeOk, Validate, PositionOf, ParentOf, Joined, WfContent, JoinGap, InsertId, ApplyJoinNodes;
    hide Identities, Distinct;
    hide References, Edge;
    JoinFacts(ctx, first, second);
    JoinResult(ctx, first, second);
    var parent := ParentOf(ctx.store, first).value;
    var children := ctx.store[parent].content.children;
    var i := PositionOf(children, first).value;
    var rest := children[..i + 1] + children[i + 2..];
    var a, b := ctx.store[first].content.inline, ctx.store[second].content.inline;
    var merged := Joined(a, b).value;
    JoinedChildren(children, first, second, i);
    DistinctCut(children, i);
    EdgeIsChildOrAtom(ctx.store, parent, first);
    EdgeIsChildOrAtom(ctx.store, parent, second);
    JoinedShape(ctx.store, ctx.root, parent, first, second, merged, rest);
    JoinedNodes(ctx.store, ctx.root, parent, first, second, merged, rest);
    TreeJoins(ctx.store, ApplyJoinNodes(ctx, first, second).value.ctx.store, ctx.root, parent, first, second);
  }

  lemma DistinctCut(ids: seq<NodeId>, i: nat)
    requires Distinct(ids) && i + 1 < |ids|
    ensures Distinct(ids[..i + 1] + ids[i + 2..])
  {}

  function JoinStore(store: Store, parent: NodeId, first: NodeId, second: NodeId, merged: InlineContent,
                     rest: seq<NodeId>): Store
    requires parent in store && first in store
  {
    var headed := store[first := store[first].(content := Inline(merged))];
    headed[parent := store[parent].(content := Children(rest))] - {second}
  }

  ghost predicate JoinsSiblings(store: Store, root: NodeId, parent: NodeId, first: NodeId, second: NodeId,
                                merged: InlineContent, rest: seq<NodeId>) {
    && IsTree(store, root) && ChildEdge(store, parent, first) && ChildEdge(store, parent, second)
    && first in store && second in store && store[first].content.Inline? && store[second].content.Inline?
    && first != second && parent != first && parent != second
    && Joined(store[first].content.inline, store[second].content.inline) == Ok(merged)
    && (forall c :: c in rest <==> c in store[parent].content.children && c != second)
  }

  lemma {:induction false} JoinedShape(store: Store, root: NodeId, parent: NodeId, first: NodeId, second: NodeId,
                                       merged: InlineContent, rest: seq<NodeId>)
    requires JoinsSiblings(store, root, parent, first, second, merged, rest)
    ensures JoinEdges(store, JoinStore(store, parent, first, second, merged, rest), first, second)
  {
    hide IsTree, Joined, References, ChildEdge;
    JoinedReferences(store, root, parent, first, second, merged, rest);
    var post := JoinStore(store, parent, first, second, merged, rest);
    OnlyReferredByParent(store, root, parent, second);
    forall p, c
      ensures Edge(post, p, c) <==>
        (Edge(store, p, c) && p != second && c != second) || (p == first && Edge(store, second, c))
    {
      assert p in post <==> p in store && p != second;
      if p in store {
        assert Edge(store, p, c) <==> c in References(store[p]);
      }
      assert Edge(store, p, second) <==> p == parent;
    }
  }

  // References after a join, node by node.
  lemma {:induction false} JoinedReferences(store: Store, root: NodeId, parent: NodeId, first: NodeId, second: NodeId,
                                            merged: InlineContent, rest: seq<NodeId>)
    requires JoinsSiblings(store, root, parent, first, second, merged, rest)
    ensures var post := JoinStore(store, parent, first, second, merged, rest);
      && post.Keys == store.Keys - {second} && parent in store
      && (forall c :: c in References(post[first]) <==> c in References(store[first]) || c in References(store[second]))
      && (forall c :: c in References(post[parent]) <==> c in References(store[parent]) && c != second)
      && (forall p :: p in post && p != first && p != parent ==> post[p] == store[p])
  {
    hide IsTree, Joined, Identities;
    JoinedIdentities(store[first].content.inline, store[second].content.inline);
  }

  lemma {:induction false} OnlyReferredByParent(store: Store, root: NodeId, parent: NodeId, x: NodeId)
    requires IsTree(store, root) && ChildEdge(store, parent, x)
    ensures forall p :: Edge(store, p, x) <==> p == parent
  {
    hide NodeOk, IsDepth, Distinct;
    EdgeIsChildOrAtom(store, parent, x);
  }

  lemma {:induction false} JoinedNodes(store: Store, root: NodeId, parent: NodeId, first: NodeId, second: NodeId,
                                       merged: InlineContent, rest: seq<NodeId>)
    requires JoinsSiblings(store, root, parent, first, second, merged, rest) && Distinct(rest)
    ensures var post := JoinStore(store, parent, first, second, merged, rest);
      NodesOk(post) && NodesDistinct(post) && AtomsPlaced(post)
  {
    hide IsDepth, Distinct, Joined, Identities, Validate, WfContent;
    var a, b := store[first].content.inline, store[second].content.inline;
    var post := JoinStore(store, parent, first, second, merged, rest);
    TreeKnowsAtoms(store, root, first);
    TreeKnowsAtoms(store, root, second);
    NodeInTree(store, root, parent);
    JoinedWf(a, b);
    DistinctIdentities(merged);
    ValidateNewInline(store[first], merged);
    ValidateNewChildren(store[parent], rest);
    JoinedIdentities(a, b);
    forall id | id in post
      ensures Distinct(References(post[id]))
    {
      TreeDistinct(store, root, id);
    }
    forall p, c | Edge(post, p, c) && post[p].content.Inline? && c in post
      ensures post[c].kind.InlineAtom?
    {
      assert Edge(store, p, c) || (p == first && Edge(store, second, c));
    }
  }

  // ----- grafted payloads

  // The payload's own nodes.
  function PayloadStore(nodes: seq<Node>): Store {
    PutNodes(map[], nodes)
  }

  // The edges after a graft: the old ones, the payload's, and the new one to its top.
  ghost predicate GraftEdges(store: Store, payload: Store, post: Store, parent: NodeId, top: NodeId) {
    forall p, c :: Edge(post, p, c) <==> Edge(store, p, c) || Edge(payload, p, c) || (p == parent && c == top)
  }

  function GraftDepth(store: Store, payload: Store, parent: NodeId, top: NodeId, a: map<NodeId, nat>, b: map<NodeId,
                      nat>): map<NodeId, nat>
    requires store.Keys <= a.Keys && payload.Keys <= b.Keys && parent in a && top in b
  {
    map x | x in store.Keys + payload.Keys :: if x in store then a[x] + b[top] else b[x] + a[parent] + 1
  }

  lemma {:induction false} DepthGrafts(store: Store, payload: Store, post: Store, root: NodeId, parent: NodeId,
                                       top: NodeId, a: map<NodeId, nat>, b: map<NodeId, nat>)
    requires IsDepth(store, root, a) && IsDepth(payload, top, b) && EdgesClosed(store) && EdgesClosed(payload)
    requires payload.Keys !! store.Keys && post.Keys == store.Keys + payload.Keys && parent in store && top in payload
    requires GraftEdges(store, payload, post, parent, top)
    ensures store.Keys <= a.Keys && payload.Keys <= b.Keys && top in b && parent in a
    ensures IsDepth(post, root, GraftDepth(store, payload, parent, top, a, b))
  {
    hide Edge, Distinct;
    EdgeParentStored(store);
    EdgeParentStored(payload);
    forall id | id in post && id != root
      ensures exists p :: Edge(post, p, id)
    {
      if id == top {
        assert Edge(post, parent, top);
      } else if id in store {
        var p :| Edge(store, p, id);
        assert Edge(post, p, id);
      } else {
        var p :| Edge(payload, p, id);
        assert Edge(post, p, id);
      }
    }
  }

  // A tree of new nodes hung below `parent` leaves a tree.
  lemma {:induction false} TreeGrafts(store: Store, payload: Store, post: Store, root: NodeId, parent: NodeId,
                                      top: NodeId)
    requires IsTree(store, root) && IsTree(payload, top)
    requires payload.Keys !! store.Keys && post.Keys == store.Keys + payload.Keys && parent in store
    requires GraftEdges(store, payload, post, parent, top)
    requires NodesOk(post) && NodesDistinct(post) && AtomsPlaced(post)
    ensures IsTree(post, root)
  {
    hide Edge, NodeOk, Distinct, IsDepth;
    EdgeParentStored(store);
    EdgeParentStored(payload);
    var a :| IsDepth(store, root, a);
    var b :| IsDepth(payload, top, b);
    GraftKeys(store, root, payload, top, a, b);
    DepthGrafts(store, payload, post, root, parent, top, a, b);
    GraftParents(store, payload, post, root, parent, top);
  }

  lemma GraftKeys(store: Store, root: NodeId, payload: Store, top: NodeId, a: map<NodeId, nat>, b: map<NodeId, nat>)
    requires IsDepth(store, root, a) && IsDepth(payload, top, b)
    ensures store.Keys <= a.Keys && payload.Keys <= b.Keys
  {
    hide Edge;
  }

  lemma {:induction false} GraftParents(store: Store, payload: Store, post: Store, root: NodeId, parent: NodeId,
                                        top: NodeId)
    requires IsTree(store, root) && IsTree(payload, top)
    requires payload.Keys !! store.Keys && post.Keys == store.Keys + payload.Keys && parent in store
    requires GraftEdges(store, payload, post, parent, top)
    ensures OneParent(post) && (forall p, c :: Edge(post, p, c) ==> c in post) && (forall p :: !Edge(post, p, root))
  {
    hide Edge, NodeOk, Distinct, IsDepth;
    forall p, c | Edge(post, p, c)
      ensures c in post
    {
      assert Edge(store, p, c) || Edge(payload, p, c) || c == top;
    }
    forall p, q, c | Edge(post, p, c) && Edge(post, q, c)
      ensures p == q
    {
      assert Edge(store, p, c) || Edge(payload, p, c) || (p == parent && c == top);
      assert Edge(store, q, c) || Edge(payload, q, c) || (q == parent && c == top);
      assert c in store ==> c !in payload;
    }
    forall p
      ensures !Edge(post, p, root)
    {
      assert root in store;
      assert !Edge(store, p, root);
    }
  }

  // Conversely the grafted nodes are themselves a tree.
  lemma {:induction false} GraftIsTree(store: Store, payload: Store, post: Store, root: NodeId, parent: NodeId,
                                       top: NodeId)
    requires IsTree(store, root) && IsTree(post, root) && Grafted(store, post, parent, top, payload.Keys)
    requires GraftEdges(store, payload, post, parent, top) && parent in store
    requires NodesOk(payload) && NodesDistinct(payload) && AtomsPlaced(payload)
    ensures IsTree(payload, top)
  {
    hide Edge, NodeOk, Distinct;
    GraftClosed(store, post, root, parent, top, payload.Keys);
    EdgeParentStored(store);
    EdgeParentStored(payload);
    assert Edge(post, parent, top);
    var depth :| IsDepth(post, root, depth);
    forall id | id in payload && id != top
      ensures exists p :: Edge(payload, p, id)
    {
      var p :| Edge(post, p, id);
      if Edge(store, p, id) {
        EdgeChildStored(store, p, id);
      }
    }
    assert IsDepth(payload, top, depth);
  }

  lemma {:induction false} PayloadFacts(nodes: seq<Node>)
    requires DistinctIds(nodes) && forall i :: 0 <= i < |nodes| ==> NodeOk(nodes[i])
    ensures PayloadStore(nodes).Keys == Ids(nodes) && NodesOk(PayloadStore(nodes))
      && AllPresent(PayloadStore(nodes), nodes)
  {
    hide NodeOk, PutNodes, DistinctIds;
    PutNodesMeans(map[], nodes);
    var payload := PayloadStore(nodes);
    forall id | id in payload
      ensures payload[id].id == id && NodeOk(payload[id])
    {
      var i :| 0 <= i < |nodes| && nodes[i].id == id;
      assert payload[nodes[i].id] == nodes[i];
    }
  }

  // What the restored store holds: the payload, and the old nodes with one new child.
  lemma {:induction false} RestoredStore(ctx: Ctx, parent: NodeId, index: nat, top: NodeId, nodes: seq<Node>)
    requires CtxOk(ctx) && ApplyRestoreSubtree(ctx, parent, index, top, nodes).Ok?
    requires forall i :: 0 <= i < |nodes| ==> NodeOk(nodes[i])
    ensures var post := ApplyRestoreSubtree(ctx, parent, index, top, nodes).value.ctx;
      var payload := PayloadStore(nodes);
      && payload.Keys !! ctx.store.Keys && post.store.Keys == ctx.store.Keys + payload.Keys && top in payload
      && parent in ctx.store && ctx.store[parent].content.Children? && index <= |ctx.store[parent].content.children|
      && (forall id :: id in payload ==> post.store[id] == payload[id])
      && (forall id :: id in ctx.store && id != parent ==> post.store[id] == ctx.store[id])
      && post.store[parent]
        == ctx.store[parent].(content := Children(InsertId(ctx.store[parent].content.children, index, top)))
      && NodesOk(payload)
  {
    hide IsTree, NodeOk, Validate, InsertId, CheckRestored, PutNodes, DistinctIds, ApplyRestoreSubtree;
    RestoredFacts(ctx, parent, index, top, nodes);
    PayloadFacts(nodes);
    PutNodesMeans(ctx.store, nodes);
    var payload := PayloadStore(nodes);
    var post := ApplyRestoreSubtree(ctx, parent, index, top, nodes).value.ctx;
    forall id | id in payload
      ensures post.store[id] == payload[id]
    {
      var i :| 0 <= i < |nodes| && nodes[i].id == id;
      assert payload[nodes[i].id] == nodes[i] && PutNodes(ctx.store, nodes)[nodes[i].id] == nodes[i];
    }
  }

  lemma {:induction false} GraftedEdges(store: Store, payload: Store, post: Store, parent: NodeId, index: nat,
                                        top: NodeId)
    requires payload.Keys !! store.Keys && post.Keys == store.Keys + payload.Keys && parent in store
    requires store[parent].content.Children? && index <= |store[parent].content.children|
    requires forall id :: id in payload ==> post[id] == payload[id]
    requires forall id :: id in store && id != parent ==> post[id] == store[id]
    requires post[parent] == store[parent].(content := Children(InsertId(store[parent].content.children, index, top)))
    ensures GraftEdges(store, payload, post, parent, top)
  {
    hide Identities, InsertId;
    InsertedIsMember(store[parent].content.children, index, top);
    forall p, c
      ensures Edge(post, p, c) <==> Edge(store, p, c) || Edge(payload, p, c) || (p == parent && c == top)
    {
      assert p in post <==> p in store || p in payload;
      if p == parent {
        assert Edge(post, p, c) <==> c in InsertId(store[parent].content.children, index, top);
      }
    }
  }

  lemma {:induction false} GraftNodesOk(store: Store, payload: Store, post: Store, root: NodeId, parent: NodeId,
                                        index: nat, top: NodeId)
    requires IsTree(store, root) && IsTree(payload, top)
    requires payload.Keys !! store.Keys && post.Keys == store.Keys + payload.Keys && parent in store
    requires store[parent].content.Children? && index <= |store[parent].content.children|
    requires forall id :: id in payload ==> post[id] == payload[id]
    requires forall id :: id in store && id != parent ==> post[id] == store[id]
    requires post[parent] == store[parent].(content := Children(InsertId(store[parent].content.children, index, top)))
    ensures NodesOk(post) && NodesDistinct(post) && AtomsPlaced(post)
  {
    hide InsertId, Distinct, IsDepth, Validate, NodeOk;
    NodeInTree(store, root, parent);
    ChildrenDistinct(store, root, parent);
    ValidateNewChildren(store[parent], []);
    ChildrenNodeOk(post[parent]);
    var children := store[parent].content.children;
    assert top !in children;
    InsertedDistinct(children, index, top);
    InsertedIsMember(children, index, top);
    forall id | id in post
      ensures Distinct(References(post[id])) && post[id].id == id && NodeOk(post[id])
    {
      if id in payload {
        TreeDistinct(payload, top, id);
        NodeInTree(payload, top, id);
      } else if id != parent {
        TreeDistinct(store, root, id);
        NodeInTree(store, root, id);
      }
    }
    forall p, c | Edge(post, p, c) && post[p].content.Inline? && c in post
      ensures post[c].kind.InlineAtom?
    {
      assert Edge(if p in store then store else payload, p, c);
    }
  }

  lemma {:induction false} PayloadPlaces(payload: Store, post: Store, root: NodeId)
    requires IsTree(post, root) && payload.Keys <= post.Keys && forall id :: id in payload ==> post[id] == payload[id]
    ensures NodesDistinct(payload) && AtomsPlaced(payload)
  {
    hide Distinct, IsDepth, NodeOk, References;
    forall id | id in payload
      ensures Distinct(References(payload[id]))
    {
      TreeDistinct(post, root, id);
    }
    forall p, c | Edge(payload, p, c) && payload[p].content.Inline? && c in payload
      ensures payload[c].kind.InlineAtom?
    {
      assert Edge(post, p, c);
    }
  }

  // Restoring a subtree keeps the tree exactly when the payload is itself a
  // tree below the named root.
  lemma {:induction false} RestoreKeepsTree(ctx: Ctx, parent: NodeId, index: nat, top: NodeId, nodes: seq<Node>)
    requires CtxOk(ctx) && ApplyRestoreSubtree(ctx, parent, index, top, nodes).Ok?
    requires forall i :: 0 <= i < |nodes| ==> NodeOk(nodes[i])
    ensures CtxOk(ApplyRestoreSubtree(ctx, parent, index, top, nodes).value.ctx) <==> IsTree(PayloadStore(nodes), top)
  {
    hide IsTree, NodeOk, ApplyRestoreSubtree, PayloadStore, Grafted, GraftEdges, InsertId, CtxOk, NodesDistinct;
    hide AtomsPlaced, NodesOk;
    RestoredStore(ctx, parent, index, top, nodes);
    var post := ApplyRestoreSubtree(ctx, parent, index, top, nodes).value.ctx;
    var payload := PayloadStore(nodes);
    CtxIsTree(ctx);
    GraftedEdges(ctx.store, payload, post.store, parent, index, top);
    assert post.root == ctx.root by { RestoredFacts(ctx, parent, index, top, nodes); }
    if IsTree(payload, top) {
      GraftNodesOk(ctx.store, payload, post.store, ctx.root, parent, index, top);
      TreeGrafts(ctx.store, payload, post.store, ctx.root, parent, top);
      RestoredBelow(ctx, parent, index, top, nodes);
    } else if CtxOk(post) {
      CtxIsTree(post);
      PayloadPlaces(payload, post.store, ctx.root);
      assert Grafted(ctx.store, post.store, parent, top,
          payload.Keys) by { GraftEdgesAreGraft(ctx.store, payload, post.store, parent, top); }
      GraftIsTree(ctx.store, payload, post.store, ctx.root, parent, top);
    }
  }

  lemma GraftEdgesAreGraft(store: Store, payload: Store, post: Store, parent: NodeId, top: NodeId)
    requires GraftEdges(store, payload, post, parent, top) && payload.Keys !! store.Keys
      && post.Keys == store.Keys + payload.Keys
    requires top in payload
    ensures Grafted(store, post, parent, top, payload.Keys)
  {
    hide References;
  }

  lemma CtxIsTree(ctx: Ctx)
    requires CtxOk(ctx)
    ensures IsTree(ctx.store, ctx.root)
  {
    hide IsTree;
  }

  lemma {:induction false} RestoredBelow(ctx: Ctx, parent: NodeId, index: nat, top: NodeId, nodes: seq<Node>)
    requires CtxOk(ctx) && ApplyRestoreSubtree(ctx, parent, index, top, nodes).Ok?
    requires IsTree(ApplyRestoreSubtree(ctx, parent, index, top, nodes).value.ctx.store, ctx.root)
    ensures CtxOk(ApplyRestoreSubtree(ctx, parent, index, top, nodes).value.ctx)
  {
    hide IsTree, NodeOk, Validate, InsertId, CheckRestored, PutNodes, DistinctIds, ApplyRestoreSubtree;
    RestoredFacts(ctx, parent, index, top, nodes);
    PutNodesMeans(ctx.store, nodes);
    var post := ApplyRestoreSubtree(ctx, parent, index, top, nodes).value.ctx;
    forall id | id in post.store
      ensures id < post.nextId
    {
      if id in Ids(nodes) {
        var i :| 0 <= i < |nodes| && nodes[i].id == id;
      }
    }
  }

  // ----- one step, and runs

  // An inserted node refers to nothing; a restored payload is a tree.
  ghost predicate SelfContained(step: TransactionStep) {
    match step
    case InsertNodeStep(_, _, kind, attrs, content) => References(Node(0, kind, attrs, content)) == []
    case RestoreSubtreeStep(_, _, root, nodes) => IsTree(PayloadStore(nodes), root)
    case _ => true
  }

  lemma {:induction false} SplitNodeKeepsTree(ctx: Ctx, node: NodeId, offset: nat)
    requires CtxOk(ctx) && ApplySplitNode(ctx, node, offset).Ok?
    ensures CtxOk(ApplySplitNode(ctx, node, offset).value.ctx)
  {
    hide CtxOk, SplitInline, OffsetCheck;
    SplitKeepsTree(ctx, InlinePoint(node, offset, 0, BeforeGlyph), None, false);
  }

  lemma {:induction false} RestoreJoinedKeepsTree(ctx: Ctx, at: InlinePoint, payload: Node)
    requires CtxOk(ctx) && NodeOk(payload) && ApplyRestoreJoinedNode(ctx, at, payload).Ok?
    ensures CtxOk(ApplyRestoreJoinedNode(ctx, at, payload).value.ctx)
  {
    hide CtxOk, SplitInline, NodeOk;
    SplitKeepsTree(ctx, at, Some(payload), ctx.store[at.node].content.inline.atoms != []);
  }

  // A step keeps the tree if and only if it is self-contained.
  lemma {:induction false} StepKeepsTree(ctx: Ctx, step: TransactionStep)
    requires CtxOk(ctx) && WellTyped(step) && ApplyStep(ctx, step).Ok?
    ensures CtxOk(ApplyStep(ctx, step).value.ctx) <==> SelfContained(step)
  {
    hide CtxOk, ContentOk, NodeOk, ApplyReplaceText, ApplyReplaceInlineText, ApplyMarkChange, ApplyInsertInlineAtom;
    hide ApplyRemoveInlineAtom, ApplySetInlineAtomMarks, ApplyRestoreInlineAtom, ApplyInsertNode, ApplyRestoreSubtree;
    hide ApplyRemoveNode, ApplySetNodeAttrs, ApplySetNodeKind, ApplySplitNode, SplitInline, ApplyRestoreJoinedNode;
    hide ApplyJoinNodes;
    hide IsTree, PayloadStore, ValidUtf8;
    match step {
      case ReplaceTextStep(node, _, _, _) => EditKeepsTree(ctx, node, step);
      case ReplaceInlineTextStep(at, _, _) => EditKeepsTree(ctx, at.node, step);
      case AddMarkStep(node, _, _, _) => EditKeepsTree(ctx, node, step);
      case RemoveMarkStep(node, _, _, _) => EditKeepsTree(ctx, node, step);
      case InsertInlineAtomStep(at, kind, attrs, fallback, marks) => InsertAtomKeepsTree(ctx, at, kind, attrs,
          fallback, marks);
      case RemoveInlineAtomStep(atom) => RemoveAtomKeepsTree(ctx, atom);
      case SetInlineAtomMarksStep(atom, marks) => SetMarksKeepsTree(ctx, atom, marks);
      case RestoreInlineAtomStep(at, payload) => RestoreAtomKeepsTree(ctx, at, payload);
      case InsertNodeStep(parent, index, kind, attrs, content) => InsertNodeKeepsTree(ctx, parent, index, kind,
          attrs, content);
      case RestoreSubtreeStep(parent, index, root, nodes) => RestoreKeepsTree(ctx, parent, index, root, nodes);
      case RemoveNodeStep(node) => RemoveNodeKeepsTree(ctx, node);
      case SetNodeAttrsStep(node, attrs) => SetAttrsKeepsTree(ctx, node, attrs);
      case SetNodeKindStep(node, kind) => SetKindKeepsTree(ctx, node, kind);
      case SplitNodeStep(node, offset) => SplitNodeKeepsTree(ctx, node, offset);
      case SplitInlineNodeStep(at) => SplitKeepsTree(ctx, at, None, true);
      case RestoreJoinedNodeStep(at, payload) => RestoreJoinedKeepsTree(ctx, at, payload);
      case JoinNodesStep(first, second) => JoinKeepsTree(ctx, first, second);
    }
  }

  // A run that applies visits trees only if and only if each step is self-contained.
  lemma {:induction false} RunKeepsTree(ctx: Ctx, steps: seq<TransactionStep>)
    requires CtxOk(ctx) && Run(ctx, steps).Ok? && forall k :: 0 <= k < |steps| ==> WellTyped(steps[k])
    ensures TreeRun(ctx, steps) <==> forall k :: 0 <= k < |steps| ==> SelfContained(steps[k])
    decreases |steps|
  {
    hide CtxOk, WellTyped, ApplyStep, SelfContained;
    if steps != [] {
      var next := ApplyStep(ctx, steps[0]).value.ctx;
      StepKeepsTree(ctx, steps[0]);
      assert forall k :: 0 < k < |steps| ==> steps[k] == steps[1..][k - 1];
      if CtxOk(next) {
        RunKeepsTree(next, steps[1..]);
        assert forall k :: 0 <= k < |steps[1..]| ==> steps[1..][k] == steps[k + 1];
      } else {
        assert !TreeRun(next, steps[1..]);
      }
    }
  }
}
