// The working node store (crates/xiaomu-core/src/document/store.rs).
module WorkingStore {
  import opened Wrappers
  import opened Content
  import opened Nodes

  function Ids(nodes: seq<Node>): set<NodeId> {
    set i | 0 <= i < |nodes| :: nodes[i].id
  }

  ghost predicate DistinctIds(nodes: seq<Node>) {
    forall i, j :: 0 <= i < j < |nodes| ==> nodes[i].id != nodes[j].id
  }

  // The payload a list holds under an identity.
  ghost predicate Holds(nodes: seq<Node>, id: NodeId, node: Node) {
    exists i :: 0 <= i < |nodes| && nodes[i].id == id && nodes[i] == node
  }

  ghost predicate AllPresent(store: Store, nodes: seq<Node>) {
    forall i :: 0 <= i < |nodes| ==> nodes[i].id in store && store[nodes[i].id] == nodes[i]
  }

  // Preflight of `exchange_mut`.
  ghost predicate CanExchange(store: Store, expected: seq<Node>, replacement: seq<Node>) {
    && DistinctIds(expected) && DistinctIds(replacement)
    && AllPresent(store, expected)
    && forall id :: id in Ids(replacement) && id !in Ids(expected) ==> id !in store
  }

  // What the exchange leaves: replacements under their identities, expected
  // identities without a replacement gone, everything else as before.
  ghost predicate Exchanged(store: Store, expected: seq<Node>, replacement: seq<Node>, next: Store) {
    && next.Keys == (store.Keys - Ids(expected)) + Ids(replacement)
    && AllPresent(next, replacement)
    && forall id :: id in store && id !in Ids(expected) && id !in Ids(replacement) ==>
      id in next && next[id] == store[id]
  }

  // An exchange has one outcome.
  lemma ExchangeUnique(store: Store, expected: seq<Node>, replacement: seq<Node>, a: Store, b: Store)
    requires Exchanged(store, expected, replacement, a) && Exchanged(store, expected, replacement, b)
    ensures a == b
  {
    forall id | id in a
      ensures a[id] == b[id]
    {
      if id in Ids(replacement) {
        var i :| 0 <= i < |replacement| && replacement[i].id == id;
      }
    }
  }

  // A successful exchange can be exchanged back, restoring the store.
  lemma ExchangeBack(store: Store, expected: seq<Node>, replacement: seq<Node>, next: Store)
    requires CanExchange(store, expected, replacement) && Exchanged(store, expected, replacement, next)
    ensures CanExchange(next, replacement, expected)
    ensures Exchanged(next, replacement, expected, store)
  {
    forall id | id in Ids(expected)
      ensures id in store
    {
      var i :| 0 <= i < |expected| && expected[i].id == id;
    }
  }

  class NodeStore {
    var nodes: Store

    constructor (initial: Store)
      ensures nodes == initial
    {
      nodes := initial;
    }

    method ReplaceNodeMut(node: Node) returns (r: Outcome)
      modifies this
      ensures r == if node.id in old(nodes) then Pass else Fail(UnknownNode)
      ensures nodes == if r.Pass? then old(nodes)[node.id := node] else old(nodes)
    {
      if node.id !in nodes {
        return Fail(UnknownNode);
      }
      nodes := nodes[node.id := node];
      return Pass;
    }

    method InsertNodeMut(node: Node) returns (r: Outcome)
      modifies this
      ensures r == if node.id in old(nodes) then Fail(DuplicateChildReference) else Pass
      ensures nodes == if r.Pass? then old(nodes)[node.id := node] else old(nodes)
    {
      if node.id in nodes {
        return Fail(DuplicateChildReference);
      }
      nodes := nodes[node.id := node];
      return Pass;
    }

    // Missing identities are ignored.
    method RemoveNodesMut(removed: set<NodeId>)
      modifies this
      ensures nodes == old(nodes) - removed
    {
      nodes := nodes - removed;
    }

    method ExchangeMut(expected: seq<Node>, replacement: seq<Node>) returns (r: Outcome)
      modifies this
      ensures r == if CanExchange(old(nodes), expected, replacement) then Pass else Fail(InvalidTransaction)
      ensures r.Pass? ==> Exchanged(old(nodes), expected, replacement, nodes)
      ensures r.Fail? ==> nodes == old(nodes)
    {
      hide CanExchange, DistinctIds, AllPresent;
      var possible := Preflight(nodes, expected, replacement);
      if !possible {
        return Fail(InvalidTransaction);
      }
      CanExchangeFacts(nodes, expected, replacement);
      var expectedIds := CollectIds(expected);
      var replacementIds := CollectIds(replacement);
      nodes := nodes - (expectedIds - replacementIds);
      PutAll(replacement);
      return Pass;
    }

    // The insertion loop of the exchange.
    method PutAll(replacement: seq<Node>)
      requires DistinctIds(replacement)
      modifies this
      ensures nodes.Keys == old(nodes.Keys) + Ids(replacement)
      ensures AllPresent(nodes, replacement)
      ensures forall id :: id in old(nodes) && id !in Ids(replacement) ==> nodes[id] == old(nodes)[id]
    {
      ghost var kept := nodes;
      for i := 0 to |replacement|
        invariant nodes.Keys == kept.Keys + Ids(replacement[..i])
        invariant forall j :: 0 <= j < i ==> replacement[j].id in nodes && nodes[replacement[j].id] == replacement[j]
        invariant forall id :: id in kept && id !in Ids(replacement) ==> id in nodes && nodes[id] == kept[id]
      {
        IdsPush(replacement, i);
        nodes := nodes[replacement[i].id := replacement[i]];
      }
      assert replacement[..|replacement|] == replacement;
    }
  }

  lemma CanExchangeFacts(store: Store, expected: seq<Node>, replacement: seq<Node>)
    requires CanExchange(store, expected, replacement)
    ensures DistinctIds(replacement)
  {}

  method Preflight(store: Store, expected: seq<Node>, replacement: seq<Node>) returns (r: bool)
    ensures r <==> CanExchange(store, expected, replacement)
  {
    hide Ids, DistinctIds, AllPresent;
    var expectedIds := CollectIds(expected);
    var replacementIds := CollectIds(replacement);
    IdCount(expected);
    IdCount(replacement);
    var matches := AllMatch(store, expected);
    return |expectedIds| == |expected| && |replacementIds| == |replacement| && matches
      && forall id :: id in replacementIds && id !in expectedIds ==> id !in store;
  }

  method AllMatch(store: Store, expected: seq<Node>) returns (r: bool)
    ensures r <==> AllPresent(store, expected)
  {
    for i := 0 to |expected|
      invariant forall j :: 0 <= j < i ==> expected[j].id in store && store[expected[j].id] == expected[j]
    {
      if expected[i].id !in store || store[expected[i].id] != expected[i] {
        return false;
      }
    }
    return true;
  }

  method CollectIds(nodes: seq<Node>) returns (ids: set<NodeId>)
    ensures ids == Ids(nodes)
  {
    ids := {};
    for i := 0 to |nodes|
      invariant ids == Ids(nodes[..i])
    {
      IdsPush(nodes, i);
      ids := ids + {nodes[i].id};
    }
    assert nodes[..|nodes|] == nodes;
  }

  lemma IdsPush(nodes: seq<Node>, i: nat)
    requires i < |nodes|
    ensures Ids(nodes[..i + 1]) == Ids(nodes[..i]) + {nodes[i].id}
    ensures nodes[i].id in Ids(nodes)
  {
    var longer := nodes[..i + 1];
    assert longer[i] == nodes[i];
    forall id | id in Ids(nodes[..i])
      ensures id in Ids(longer)
    {
      var j :| 0 <= j < |nodes[..i]| && nodes[..i][j].id == id;
      assert longer[j].id == id;
    }
  }

  // Counting identities detects repeats.
  lemma {:induction false} IdCount(nodes: seq<Node>)
    ensures |Ids(nodes)| <= |nodes|
    ensures |Ids(nodes)| == |nodes| <==> DistinctIds(nodes)
  {
    if nodes != [] {
      var n := |nodes| - 1;
      IdCount(nodes[..n]);
      IdsPush(nodes, n);
      assert nodes[..n + 1] == nodes;
      if nodes[n].id in Ids(nodes[..n]) {
        var j :| 0 <= j < |nodes[..n]| && nodes[..n][j].id == nodes[n].id;
        assert nodes[j].id == nodes[n].id;
      }
    }
  }
}
