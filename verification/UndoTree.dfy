// Undo of the steps that change payloads, kinds and the shape of the tree.
module UndoTree {
  import opened Wrappers
  import opened Text
  import opened Marks
  import opened Content
  import opened InlineEdit
  import opened Flat
  import opened Nodes
  import opened Mapping
  import opened Steps
  import opened Tree
  import opened WorkingStore
  import opened Apply
  import opened Undo

  // A one-step inverse undoes when its step succeeds back to the old store.
  lemma {:induction false} UndoneByOne(before: Ctx, from: Ctx, step: TransactionStep)
    requires ApplyStep(from, step).Ok?
    requires ApplyStep(from, step).value.ctx == Ctx(before.root, before.store, from.nextId)
    ensures UndoneFrom(before, from, [step])
  {
    hide ApplyStep, Run;
    RunOne(from, step);
  }

  lemma RewriteBack(store: Store, id: NodeId, attrs: NodeAttrs, content: NodeContent)
    requires id in store && store[id].id == id && Validate(store[id]).Pass?
    requires Rewrite(store, id, attrs, content).Ok?
    ensures var next := Rewrite(store, id, attrs, content).value;
      && next.Keys == store.Keys && next[id] == Node(id, store[id].kind, attrs, content)
      && Rewrite(next, id, store[id].attrs, store[id].content) == Ok(store)
  {
    hide Validate;
    var next := Rewrite(store, id, attrs, content).value;
    assert next[id := store[id]] == store;
  }

  lemma NodeInTree(store: Store, root: NodeId, id: NodeId)
    requires IsTree(store, root) && id in store
    ensures store[id].id == id && NodeOk(store[id]) && Validate(store[id]).Pass?
  {
    hide IsDepth;
  }

  lemma {:induction false} UndoSetAttrs(ctx: Ctx, node: NodeId, attrs: NodeAttrs)
    requires CtxOk(ctx) && ApplySetNodeAttrs(ctx, node, attrs).Ok?
    ensures var applied := ApplySetNodeAttrs(ctx, node, attrs).value; Undoes(ctx, applied.ctx, applied.inverse)
  {
    hide IsTree, Rewrite, Validate, NodeOk, Run;
    NodeInTree(ctx.store, ctx.root, node);
    RewriteBack(ctx.store, node, attrs, ctx.store[node].content);
    var applied := ApplySetNodeAttrs(ctx, node, attrs).value;
    forall nextId | applied.ctx.nextId <= nextId < U64_LIMIT
      ensures UndoneFrom(ctx, applied.ctx.(nextId := nextId), applied.inverse)
    {
      UndoneByOne(ctx, applied.ctx.(nextId := nextId), SetNodeAttrsStep(node, ctx.store[node].attrs));
    }
  }

  lemma {:induction false} UndoSetMarks(ctx: Ctx, atom: NodeId, marks: MarkSet)
    requires CtxOk(ctx) && ApplySetInlineAtomMarks(ctx, atom, marks).Ok?
    ensures var applied := ApplySetInlineAtomMarks(ctx, atom, marks).value; Undoes(ctx, applied.ctx, applied.inverse)
  {
    hide IsTree, Rewrite, Validate, NodeOk, Run;
    NodeInTree(ctx.store, ctx.root, atom);
    var content := ctx.store[atom].content;
    RewriteBack(ctx.store, atom, ctx.store[atom].attrs, content.(marks := marks));
    var applied := ApplySetInlineAtomMarks(ctx, atom, marks).value;
    forall nextId | applied.ctx.nextId <= nextId < U64_LIMIT
      ensures UndoneFrom(ctx, applied.ctx.(nextId := nextId), applied.inverse)
    {
      UndoneByOne(ctx, applied.ctx.(nextId := nextId), SetInlineAtomMarksStep(atom, content.marks));
    }
  }

  // ----- parents in a tree

  lemma {:induction false} ParentIs(store: Store, root: NodeId, p: NodeId, c: NodeId)
    requires IsTree(store, root) && ChildEdge(store, p, c)
    ensures ParentOf(store, c) == Ok(p) && Edge(store, p, c) && c in store && c != root && p != c
  {
    hide NodeOk, Distinct;
    EdgeIsChildOrAtom(store, p, c);
    forall q | ChildEdge(store, q, c)
      ensures q == p
    {
      EdgeIsChildOrAtom(store, q, c);
    }
    var depth :| IsDepth(store, root, depth);
  }

  lemma {:induction false} ParentFound(store: Store, root: NodeId, c: NodeId)
    requires IsTree(store, root) && ParentOf(store, c).Ok?
    ensures var p := ParentOf(store, c).value;
      ChildEdge(store, p, c) && Edge(store, p, c) && c in store && c != root && p != c
  {
    hide IsTree;
    var p := ParentOf(store, c).value;
    ParentIs(store, root, p, c);
  }

  lemma {:induction false} AtomParentIs(store: Store, root: NodeId, p: NodeId, c: NodeId)
    requires IsTree(store, root) && PlacesAtom(store, p, c)
    ensures AtomParentOf(store, c) == Ok(p) && Edge(store, p, c) && c in store && c != root && p != c
    ensures store[c].kind.InlineAtom?
  {
    hide NodeOk, Distinct;
    var depth :| IsDepth(store, root, depth);
  }

  lemma ChildrenDistinct(store: Store, root: NodeId, p: NodeId)
    requires IsTree(store, root) && p in store && store[p].content.Children?
    ensures Distinct(store[p].content.children)
    ensures forall c :: c in store[p].content.children ==> c in store
  {
    hide NodeOk, IsDepth, Distinct;
    assert References(store[p]) == store[p].content.children;
    forall c | c in store[p].content.children
      ensures c in store
    {
      assert Edge(store, p, c);
    }
  }

  // ----- kinds

  // The kind a `SetNodeKind` replaces is one its parent allows.
  ghost predicate KindWasAllowed(ctx: Ctx, node: NodeId) {
    var parent := ParentOf(ctx.store, node);
    parent.Ok? && parent.value in ctx.store && node in ctx.store
    && AllowsChild(ctx.store[parent.value].kind, ctx.store[node].kind)
  }

  lemma {:induction false} KindParentStays(ctx: Ctx, node: NodeId, kind: NodeKind)
    requires CtxOk(ctx) && ApplySetNodeKind(ctx, node, kind).Ok? && CtxOk(ApplySetNodeKind(ctx, node, kind).value.ctx)
    ensures var post := ApplySetNodeKind(ctx, node, kind).value.ctx;
      && ParentOf(ctx.store, node).Ok? && ParentOf(post.store, node) == ParentOf(ctx.store, node)
      && ParentOf(ctx.store, node).value in ctx.store && ParentOf(ctx.store, node).value != node
      && ctx.store[node].id == node && Validate(ctx.store[node]).Pass?
      && post.store == ctx.store[node := ctx.store[node].(kind := kind)]
  {
    hide IsTree, Validate, ParentOf, NodeOk;
    NodeInTree(ctx.store, ctx.root, node);
    ParentFound(ctx.store, ctx.root, node);
    var p := ParentOf(ctx.store, node).value;
    var post := ApplySetNodeKind(ctx, node, kind).value.ctx;
    assert ChildEdge(post.store, p, node);
    ParentIs(post.store, post.root, p, node);
  }

  // Undo of a kind change succeeds exactly when the old kind was allowed.
  lemma {:induction false} UndoSetKind(ctx: Ctx, node: NodeId, kind: NodeKind)
    requires CtxOk(ctx) && ApplySetNodeKind(ctx, node, kind).Ok? && CtxOk(ApplySetNodeKind(ctx, node, kind).value.ctx)
    ensures var applied := ApplySetNodeKind(ctx, node, kind).value;
      && (KindWasAllowed(ctx, node) ==> Undoes(ctx, applied.ctx, applied.inverse))
      && (!KindWasAllowed(ctx, node) ==>
            forall nextId :: Run(applied.ctx.(nextId := nextId), applied.inverse).Err?)
  {
    hide IsTree, Validate, ParentOf, NodeOk, Run;
    KindParentStays(ctx, node, kind);
    var applied := ApplySetNodeKind(ctx, node, kind).value;
    var back := SetNodeKindStep(node, ctx.store[node].kind);
    assert ctx.store[node].(kind := kind).(kind := ctx.store[node].kind) == ctx.store[node];
    assert applied.ctx.store[node := ctx.store[node]] == ctx.store;
    forall nextId: nat
      ensures KindWasAllowed(ctx, node) ==> UndoneFrom(ctx, applied.ctx.(nextId := nextId), applied.inverse)
      ensures !KindWasAllowed(ctx, node) ==> Run(applied.ctx.(nextId := nextId), applied.inverse).Err?
    {
      var from := applied.ctx.(nextId := nextId);
      RunOne(from, back);
      if KindWasAllowed(ctx, node) {
        UndoneByOne(ctx, from, back);
      }
    }
  }

  // ----- child lists

  lemma WithoutStep(ids: seq<NodeId>, id: NodeId)
    requires ids != []
    ensures WithoutId(ids, id) == (if ids[0] == id then [] else [ids[0]]) + WithoutId(ids[1..], id)
  {}

  lemma {:induction false} WithoutAbsent(ids: seq<NodeId>, id: NodeId)
    requires id !in ids
    ensures WithoutId(ids, id) == ids
  {
    if ids != [] {
      assert ids == [ids[0]] + ids[1..];
      WithoutAbsent(ids[1..], id);
    }
  }

  lemma {:induction false} WithoutConcat(a: seq<NodeId>, b: seq<NodeId>, id: NodeId)
    ensures WithoutId(a + b, id) == WithoutId(a, id) + WithoutId(b, id)
  {
    hide WithoutId;
    if a == [] {
      assert a + b == b;
      WithoutAbsent(a, id);
    } else {
      WithoutConcat(a[1..], b, id);
      WithoutStep(a, id);
      WithoutStep(a + b, id);
      assert (a + b)[1..] == a[1..] + b;
    }
  }

  // Dropping the one occurrence of `id` between two lists without it.
  lemma {:induction false} WithoutMiddle(a: seq<NodeId>, id: NodeId, b: seq<NodeId>)
    requires id !in a && id !in b
    ensures WithoutId(a + [id] + b, id) == a + b
  {
    hide WithoutId;
    WithoutConcat(a + [id], b, id);
    WithoutConcat(a, [id], id);
    WithoutStep([id], id);
    WithoutAbsent([], id);
    WithoutAbsent(a, id);
    WithoutAbsent(b, id);
    assert [id][1..] == [];
  }

  lemma {:induction false} WithoutInserted(ids: seq<NodeId>, index: nat, id: NodeId)
    requires index <= |ids| && id !in ids
    ensures WithoutId(InsertId(ids, index, id), id) == ids
  {
    hide WithoutId;
    WithoutMiddle(ids[..index], id, ids[index..]);
    assert ids[..index] + ids[index..] == ids;
  }

  lemma {:induction false} PositionIs(ids: seq<NodeId>, id: NodeId, k: nat)
    requires k < |ids| && ids[k] == id && id !in ids[..k]
    ensures PositionOf(ids, id) == Some(k)
  {
    if k > 0 {
      assert ids[..k][0] == ids[0];
      assert ids[..k] == [ids[0]] + ids[1..][..k - 1];
      PositionIs(ids[1..], id, k - 1);
    }
  }

  lemma {:induction false} InsertRemoved(ids: seq<NodeId>, id: NodeId)
    requires Distinct(ids) && id in ids
    ensures var index := PositionOf(ids, id).value;
      && WithoutId(ids, id) == ids[..index] + ids[index + 1..]
      && index <= |WithoutId(ids, id)| && InsertId(WithoutId(ids, id), index, id) == ids
  {
    hide WithoutId;
    var k := PositionOf(ids, id).value;
    var a, b := ids[..k], ids[k + 1..];
    assert ids == a + [id] + b;
    WithoutMiddle(a, id, b);
    assert (a + b)[..k] == a && (a + b)[k..] == b;
  }

  // ----- subtrees removed and restored

  lemma {:induction false} PayloadIds(store: Store, ids: seq<NodeId>)
    requires (forall id :: id in ids ==> id in store && store[id].id == id) && forall i, j :: 0 <= i < j < |ids| ==>
      ids[i] < ids[j]
    ensures |PayloadsOf(store, ids)| == |ids|
    ensures forall i :: 0 <= i < |ids| ==> PayloadsOf(store, ids)[i] == store[ids[i]]
  {
    if ids != [] {
      var n := |ids| - 1;
      assert ids == ids[..n] + [ids[n]];
      PayloadIds(store, ids[..n]);
      assert ids[n] in ids;
    }
  }

  // The restoring checks pass on ascending stored identities below the allocator.
  lemma {:induction false} RestoredIdsPass(nodes: seq<Node>, nextId: nat)
    requires nextId < U64_LIMIT
    requires forall i :: 0 <= i < |nodes| ==> nodes[i].id < nextId
    requires forall i, j :: 0 <= i < j < |nodes| ==> nodes[i].id < nodes[j].id
    ensures CheckRestored(nodes, nextId) == Ok(nextId)
  {
    if nodes != [] {
      RestoredIdsPass(nodes[..|nodes| - 1], nextId);
    }
  }

  lemma {:induction false} PutNodesMeans(store: Store, nodes: seq<Node>)
    requires DistinctIds(nodes)
    ensures PutNodes(store, nodes).Keys == store.Keys + Ids(nodes)
    ensures AllPresent(PutNodes(store, nodes), nodes)
    ensures forall id :: id in store && id !in Ids(nodes) ==> PutNodes(store, nodes)[id] == store[id]
  {
    if nodes != [] {
      var n := |nodes| - 1;
      PutNodesMeans(store, nodes[..n]);
      IdsPush(nodes, n);
      assert nodes[..n + 1] == nodes;
      forall i | 0 <= i < |nodes|
        ensures nodes[i].id in PutNodes(store, nodes) && PutNodes(store, nodes)[nodes[i].id] == nodes[i]
      {
        if i < n {
          assert nodes[..n][i] == nodes[i];
        }
      }
    }
  }

  lemma {:induction false} SubtreeInStore(store: Store, root: NodeId, x: NodeId)
    requires IsTree(store, root) && x in store
    ensures Subtree(store, x) <= store.Keys && x in Subtree(store, x)
    ensures forall id :: id in Subtree(store, x) ==> store[id].id == id
  {
    hide IsDepth, NodeOk, Distinct, Edge;
    SubtreeClosed(store, x);
  }

  // The payloads a removal records.
  lemma {:induction false} RecordedPayloads(store: Store, root: NodeId, x: NodeId)
    requires IsTree(store, root) && x in store
    ensures var nodes := PayloadsOf(store, SortedIds(Subtree(store, x)));
      && AllPresent(store, nodes)
      && (forall id :: id in Ids(nodes) <==> id in Subtree(store, x)) && x in Subtree(store, x)
      && (forall i :: 0 <= i < |nodes| ==> nodes[i].id in Subtree(store, x))
      && (forall i, j :: 0 <= i < j < |nodes| ==> nodes[i].id < nodes[j].id)
  {
    hide IsTree, Subtree, PayloadsOf, Ids;
    SubtreeInStore(store, root, x);
    var ids := SortedIds(Subtree(store, x));
    PayloadIds(store, ids);
    var nodes := PayloadsOf(store, ids);
    forall i | 0 <= i < |nodes|
      ensures nodes[i].id == ids[i] && nodes[i].id in Subtree(store, x)
    {
      assert ids[i] in ids;
    }
    IdsAre(nodes, ids);
  }

  // Put back over the pruned store, they give the old store.
  lemma {:induction false} PayloadsRestore(store: Store, nodes: seq<Node>, parent: NodeId, pruned: Store)
    requires DistinctIds(nodes) && AllPresent(store, nodes) && Ids(nodes) <= store.Keys
    requires parent in store && parent !in Ids(nodes)
    requires pruned.Keys == store.Keys - Ids(nodes)
    requires forall id :: id in pruned && id != parent ==> pruned[id] == store[id]
    ensures PutNodes(pruned, nodes)[parent := store[parent]] == store
  {
    hide PutNodes, DistinctIds;
    PutNodesMeans(pruned, nodes);
    var back := PutNodes(pruned, nodes)[parent := store[parent]];
    forall id | id in store
      ensures back[id] == store[id]
    {
      if id in Ids(nodes) {
        var i :| 0 <= i < |nodes| && nodes[i].id == id;
      }
    }
    assert back.Keys == store.Keys;
  }

  lemma IdsAre(nodes: seq<Node>, ids: seq<NodeId>)
    requires |nodes| == |ids| && forall i :: 0 <= i < |ids| ==> nodes[i].id == ids[i]
    ensures forall id :: id in Ids(nodes) <==> id in ids
  {
    forall id
      ensures id in Ids(nodes) <==> id in ids
    {
      if id in ids {
        var i :| 0 <= i < |ids| && ids[i] == id;
        assert nodes[i].id == id;
      }
    }
  }

  // ----- inserting and removing blocks

  lemma InsertedNodeFacts(ctx: Ctx, parent: NodeId, index: nat, kind: NodeKind, attrs: NodeAttrs, content: NodeContent)
    requires CtxOk(ctx) && ApplyInsertNode(ctx, parent, index, kind, attrs, content).Ok?
    ensures var post := ApplyInsertNode(ctx, parent, index, kind, attrs, content).value.ctx; var id := ctx.nextId;
      && parent in ctx.store && ctx.store[parent].content.Children? && parent != id && id !in ctx.store
        && id != ctx.root
      && index <= |ctx.store[parent].content.children|
      && ctx.store[parent].id == parent && Validate(ctx.store[parent]).Pass?
      && post.root == ctx.root && post.nextId == id + 1
      && post.store == ctx.store[id := Node(id, kind, attrs, content)]
           [parent := ctx.store[parent].(content := Children(InsertId(ctx.store[parent].content.children, index, id)))]
  {
    hide NodeOk, IsDepth, Validate, InsertId, Distinct;
    NodeInTree(ctx.store, ctx.root, parent);
  }

  // A node without parent cycles that only refers to itself and fresh nodes is a leaf.
  lemma {:induction false} FreshLeafSubtree(store: Store, post: Store, root: NodeId, parent: NodeId, id: NodeId)
    requires IsTree(store, root) && IsTree(post, root) && id !in store && id in post && post.Keys == store.Keys + {id}
    requires parent in store && id != root
    requires forall p, c :: Edge(store, p, c) ==> Edge(post, p, c)
    ensures Subtree(post, id) == {id}
  {
    hide Edge, NodeOk, Distinct;
    var depth :| IsDepth(post, root, depth);
    var before :| IsDepth(store, root, before);
    EdgeParentStored(store);
    forall c | c in store && c != root
      ensures exists p :: Edge(post, p, c) && p in store
    {
      var p :| Edge(store, p, c);
      assert Edge(post, p, c);
    }
    assert forall c :: !Edge(post, id, c);
    SubtreeSmallest(post, id, {id});
    SubtreeClosed(post, id);
  }

  lemma {:induction false} RemoveInserted(ctx: Ctx, parent: NodeId, index: nat, leaf: Node, from: Ctx)
    requires CtxOk(ctx) && leaf.id !in ctx.store
    requires parent in ctx.store && ctx.store[parent].content.Children? && index <= |ctx.store[parent].content.children|
    requires from.root == ctx.root && IsTree(from.store, from.root)
    requires from.store == ctx.store[leaf.id := leaf]
      [parent := ctx.store[parent].(content := Children(InsertId(ctx.store[parent].content.children, index, leaf.id)))]
    ensures ApplyRemoveNode(from, leaf.id).Ok?
    ensures ApplyRemoveNode(from, leaf.id).value.ctx == Ctx(ctx.root, ctx.store, from.nextId)
  {
    hide IsTree, NodeOk, Validate, WithoutId, PositionOf, Subtree, PayloadsOf, ParentOf;
    var id := leaf.id;
    var children := ctx.store[parent].content.children;
    RootStored(ctx.store, ctx.root);
    NodeInTree(ctx.store, ctx.root, parent);
    ChildrenDistinct(ctx.store, ctx.root, parent);
    InsertedIsMember(children, index, id);
    assert ChildEdge(from.store, parent, id);
    ParentIs(from.store, from.root, parent, id);
    InsertedKeepsEdges(ctx.store, parent, index, leaf);
    FreshLeafSubtree(ctx.store, from.store, ctx.root, parent, id);
    WithoutInserted(children, index, id);
    ValidateNewChildren(ctx.store[parent], children);
    assert ctx.store[parent].(content := Children(children)) == ctx.store[parent];
    var rewritten := from.store[parent := ctx.store[parent]];
    assert rewritten - {id} == ctx.store;
  }

  lemma ValidateNewChildren(node: Node, children: seq<NodeId>)
    requires node.content.Children? && Validate(node).Pass?
    ensures Validate(node.(content := Children(children))).Pass?
    ensures forall other :: Validate(node.(content := Children(other))).Pass?
  {}

  lemma RootStored(store: Store, root: NodeId)
    requires IsTree(store, root)
    ensures root in store
  {}

  lemma InsertedIsMember(ids: seq<NodeId>, index: nat, id: NodeId)
    requires index <= |ids|
    ensures forall x :: x in InsertId(ids, index, id) <==> x == id || x in ids
  {
    assert ids == ids[..index] + ids[index..];
  }

  lemma {:induction false} InsertedKeepsEdges(store: Store, parent: NodeId, index: nat, leaf: Node)
    requires parent in store && store[parent].content.Children? && index <= |store[parent].content.children|
    requires leaf.id !in store
    ensures var post := store[leaf.id := leaf]
        [parent := store[parent].(content := Children(InsertId(store[parent].content.children, index, leaf.id)))];
      && (forall p, c :: Edge(store, p, c) ==> Edge(post, p, c))
      && (forall p, c :: Edge(post, p, c) <==>
            Edge(store, p, c) || (p == parent && c == leaf.id) || (p == leaf.id && c in References(leaf)))
  {
    hide InsertId;
    InsertedIsMember(store[parent].content.children, index, leaf.id);
  }

  lemma {:induction false} UndoInsertNode(ctx: Ctx, parent: NodeId, index: nat, kind: NodeKind, attrs: NodeAttrs,
                                          content: NodeContent)
    requires CtxOk(ctx) && ApplyInsertNode(ctx, parent, index, kind, attrs, content).Ok?
    requires CtxOk(ApplyInsertNode(ctx, parent, index, kind, attrs, content).value.ctx)
    ensures var applied := ApplyInsertNode(ctx, parent, index, kind, attrs, content).value;
      Undoes(ctx, applied.ctx, applied.inverse)
  {
    hide IsTree, NodeOk, Run, InsertId, Validate, ApplyRemoveNode;
    InsertedNodeFacts(ctx, parent, index, kind, attrs, content);
    var applied := ApplyInsertNode(ctx, parent, index, kind, attrs, content).value;
    var leaf := Node(ctx.nextId, kind, attrs, content);
    forall nextId | applied.ctx.nextId <= nextId < U64_LIMIT
      ensures UndoneFrom(ctx, applied.ctx.(nextId := nextId), applied.inverse)
    {
      var from := applied.ctx.(nextId := nextId);
      RemoveInserted(ctx, parent, index, leaf, from);
      UndoneByOne(ctx, from, RemoveNodeStep(ctx.nextId));
    }
  }

  lemma {:induction false} RemovedNodeFacts(ctx: Ctx, node: NodeId)
    requires CtxOk(ctx) && ApplyRemoveNode(ctx, node).Ok?
    ensures ParentOf(ctx.store, node).Ok?
    ensures var parent := ParentOf(ctx.store, node).value; var post := ApplyRemoveNode(ctx, node).value.ctx;
      && parent in ctx.store && ctx.store[parent].content.Children? && node in ctx.store[parent].content.children
      && node in ctx.store && Edge(ctx.store, parent, node) && parent !in Subtree(ctx.store, node)
      && ctx.root !in Subtree(ctx.store, node) && Subtree(ctx.store, node) <= ctx.store.Keys
      && ctx.store[parent].id == parent && Validate(ctx.store[parent]).Pass?
      && post.root == ctx.root && post.nextId == ctx.nextId
      && var left := Children(WithoutId(ctx.store[parent].content.children, node));
         post.store == ctx.store[parent := ctx.store[parent].(content := left)] - Subtree(ctx.store, node)
  {
    hide IsTree, NodeOk, Validate, WithoutId, Subtree, PositionOf, PayloadsOf, ParentOf;
    ParentFound(ctx.store, ctx.root, node);
    var parent := ParentOf(ctx.store, node).value;
    NodeInTree(ctx.store, ctx.root, parent);
    ParentOutsideSubtree(ctx.store, ctx.root, parent, node);
    SubtreeInStore(ctx.store, ctx.root, node);
  }

  lemma {:induction false} UndoRemoveNode(ctx: Ctx, node: NodeId)
    requires CtxOk(ctx) && ApplyRemoveNode(ctx, node).Ok?
    ensures var applied := ApplyRemoveNode(ctx, node).value; Undoes(ctx, applied.ctx, applied.inverse)
  {
    hide IsTree, NodeOk, Run, Validate, WithoutId, InsertId, Subtree, PositionOf, PayloadsOf, ParentOf, PutNodes;
    hide CheckRestored, Ids;
    RemovedNodeFacts(ctx, node);
    var applied := ApplyRemoveNode(ctx, node).value;
    var parent := ParentOf(ctx.store, node).value;
    var original := ctx.store[parent];
    var children := original.content.children;
    var nodes := PayloadsOf(ctx.store, SortedIds(Subtree(ctx.store, node)));
    RecordedPayloads(ctx.store, ctx.root, node);
    ChildrenDistinct(ctx.store, ctx.root, parent);
    InsertRemoved(children, node);
    var index := PositionOf(children, node).value;
    var post := applied.ctx;
    PayloadsRestore(ctx.store, nodes, parent, post.store);
    ValidateNewChildren(original, children);
    assert original.(content := Children(children)) == original;
    forall nextId | post.nextId <= nextId < U64_LIMIT
      ensures UndoneFrom(ctx, post.(nextId := nextId), applied.inverse)
    {
      var from := post.(nextId := nextId);
      RestoredIdsPass(nodes, nextId);
      var back := RestoreSubtreeStep(parent, index, node, nodes);
      assert ApplyStep(from, back) == ApplyRestoreSubtree(from, parent, index, node, nodes);
      UndoneByOne(ctx, from, back);
    }
  }
}
