/** `addNextAgent`: registering the nodes of one agent chain and wiring its
    static edges, with duplicate registrations and errors from deeper links
    swallowed. */
module ChainWiring {
  import opened Wrappers
  import opened MessageGraphs

  /** An agent executor as the builder sees it: an optional node id and an
      optional next agent, so a chain is a singly linked list. */
  datatype Agent = Agent(nodeId: Option<string>, nextAgent: Option<Agent>)

  /** `!agent.nodeId` is true for an absent id and for the empty string. */
  predicate HasId(a: Agent) {
    a.nodeId.Some? && a.nodeId.value != ""
  }

  /** The error `addNextAgent` throws: "Agent must have a nodeId". */
  datatype WiringError = MissingNodeId

  /** The two tables `addNextAgent` changes. */
  datatype Tables = Tables(nodes: map<string, NodeKind>, edges: seq<Edge>)

  /** `u` keeps every registration made in `t` and has `t`'s edges as a prefix. */
  ghost predicate Extends(t: Tables, u: Tables) {
    && (forall x :: x in t.nodes ==> x in u.nodes && u.nodes[x] == t.nodes[x])
    && t.edges <= u.edges
  }

  /** The throws of `addNextAgent` that reach its caller: a missing id on the
      agent itself or on its immediate successor. */
  predicate WiresWithoutError(a: Agent) {
    HasId(a) && (a.nextAgent.Some? ==> HasId(a.nextAgent.value))
  }

  /** The tables after `addNextAgent(graph, agent, agent.nextAgent)`, and
      whether the call threw. Edges and nodes added before a throw stay. */
  function Wire(t: Tables, agent: Agent): (r: (Tables, Outcome<WiringError>))
    ensures r.1 == Pass <==> WiresWithoutError(agent)
    ensures r.1 != Pass ==> r.1 == Fail(MissingNodeId)
    ensures Extends(t, r.0)
    decreases agent
  {
    if !HasId(agent) then (t, Fail(MissingNodeId))
    else
      var id := agent.nodeId.value;
      var t1 := t.(nodes := Register(t.nodes, id, ChainHead));
      match agent.nextAgent
      case None => (t1.(edges := t1.edges + [Edge(id, END)]), Pass)
      case Some(next) =>
        if !HasId(next) then (t1, Fail(MissingNodeId))
        else
          var nextId := next.nodeId.value;
          var t2 := Tables(Register(t1.nodes, nextId, ChainLink), t1.edges + [Edge(id, nextId)]);
          // the recursive call sits inside the `try`: its throw is swallowed
          (Wire(t2, next).0, Pass)
  }

  // ---------------------------------------------------------------------
  // What a chain contributes

  /** The ids of the chain's links up to (not including) the first link
      without an id. */
  function IdPrefix(a: Agent): (ids: seq<string>)
    ensures HasId(a) <==> |ids| > 0
    ensures |ids| > 0 ==> ids[0] == a.nodeId.value
    ensures forall k :: 0 <= k < |ids| ==> ids[k] != ""
    decreases a
  {
    if !HasId(a) then []
    else [a.nodeId.value] + (match a.nextAgent case None => [] case Some(n) => IdPrefix(n))
  }

  /** The ids of `IdPrefix` as a set. */
  function ChainIds(a: Agent): set<string> {
    set x | x in IdPrefix(a)
  }

  /** Every link of the chain has an id. */
  predicate Complete(a: Agent)
    decreases a
  {
    HasId(a) && (a.nextAgent.None? || Complete(a.nextAgent.value))
  }

  /** One static edge from each id to the one after it. */
  function LinkEdges(ids: seq<string>): (es: seq<Edge>)
    ensures |es| == if |ids| < 2 then 0 else |ids| - 1
    ensures forall k :: 0 <= k < |es| ==> es[k] == Edge(ids[k], ids[k + 1])
  {
    if |ids| < 2 then [] else [Edge(ids[0], ids[1])] + LinkEdges(ids[1..])
  }

  /** The edges one chain adds: link to link, and the last link to `END` when
      every link has an id. */
  function ChainEdges(a: Agent): seq<Edge>
    requires HasId(a)
  {
    var ids := IdPrefix(a);
    LinkEdges(ids) + if Complete(a) then [Edge(ids[|ids| - 1], END)] else []
  }

  /** The edges added are exactly the chain's edges, in chain order; a link
      without an id cuts the chain there, silently, when it is not among the
      first two. */
  lemma {:induction false} WireEdges(t: Tables, a: Agent)
    requires HasId(a)
    ensures Wire(t, a).0.edges == t.edges + ChainEdges(a)
    decreases a
  {
    var id := a.nodeId.value;
    var t1 := t.(nodes := Register(t.nodes, id, ChainHead));
    match a.nextAgent
    case None =>
      assert IdPrefix(a) == [id] && LinkEdges([id]) == [];
      assert Wire(t, a).0.edges == t.edges + [Edge(id, END)];
    case Some(n) =>
      if !HasId(n) {
        assert IdPrefix(a) == [id] && LinkEdges([id]) == [] && !Complete(a);
        assert Wire(t, a).0.edges == t.edges;
      } else {
        var t2 := Tables(Register(t1.nodes, n.nodeId.value, ChainLink), t1.edges + [Edge(id, n.nodeId.value)]);
        WireEdges(t2, n);
        var ids := IdPrefix(n);
        assert IdPrefix(a) == [id] + ids;
        assert LinkEdges([id] + ids) == [Edge(id, ids[0])] + LinkEdges(ids) by {
          assert ([id] + ids)[1..] == ids;
        }
        assert Complete(a) == Complete(n);
        var tail := if Complete(n) then [Edge(ids[|ids| - 1], END)] else [];
        AppendAssoc(t.edges, [Edge(id, ids[0])], LinkEdges(ids) + tail);
        AppendAssoc([Edge(id, ids[0])], LinkEdges(ids), tail);
      }
  }

  /** Every id of the chain is registered, and nothing else. */
  lemma {:induction false} WireKeys(t: Tables, a: Agent)
    requires HasId(a)
    ensures Wire(t, a).0.nodes.Keys == t.nodes.Keys + ChainIds(a)
    decreases a
  {
    var id := a.nodeId.value;
    var t1 := t.(nodes := Register(t.nodes, id, ChainHead));
    match a.nextAgent
    case None =>
      assert IdPrefix(a) == [id];
    case Some(n) =>
      if !HasId(n) {
        assert IdPrefix(a) == [id];
      } else {
        var nid := n.nodeId.value;
        var t2 := Tables(Register(t1.nodes, nid, ChainLink), t1.edges + [Edge(id, nid)]);
        assert Wire(t, a).0 == Wire(t2, n).0;
        WireKeys(t2, n);
        assert IdPrefix(a) == [id] + IdPrefix(n);
        assert ChainIds(a) == {id} + ChainIds(n);
      }
  }

  /** An agent not registered before is registered as a chain head. */
  lemma WireHead(t: Tables, a: Agent)
    requires HasId(a) && a.nodeId.value !in t.nodes
    ensures a.nodeId.value in Wire(t, a).0.nodes && Wire(t, a).0.nodes[a.nodeId.value] == ChainHead
  {
    var id := a.nodeId.value;
    var t1 := t.(nodes := Register(t.nodes, id, ChainHead));
    match a.nextAgent
    case None =>
    case Some(n) =>
      if HasId(n) {
        var t2 := Tables(Register(t1.nodes, n.nodeId.value, ChainLink), t1.edges + [Edge(id, n.nodeId.value)]);
        assert t2.nodes[id] == ChainHead;
        assert Wire(t, a).0 == Wire(t2, n).0;
      }
  }

  /** A later link registered neither before nor as the agent itself is
      registered as a chain link. */
  lemma {:induction false} WireLinks(t: Tables, a: Agent)
    requires HasId(a)
    ensures forall k :: 1 <= k < |IdPrefix(a)| && IdPrefix(a)[k] !in t.nodes && IdPrefix(a)[k] != a.nodeId.value ==>
              IdPrefix(a)[k] in Wire(t, a).0.nodes && Wire(t, a).0.nodes[IdPrefix(a)[k]] == ChainLink
    decreases a
  {
    var id := a.nodeId.value;
    var t1 := t.(nodes := Register(t.nodes, id, ChainHead));
    match a.nextAgent
    case None =>
    case Some(n) =>
      if HasId(n) {
        var nid := n.nodeId.value;
        var t2 := Tables(Register(t1.nodes, nid, ChainLink), t1.edges + [Edge(id, nid)]);
        var r := Wire(t2, n).0;
        assert r == Wire(t, a).0;
        WireLinks(t2, n);
        var ids := IdPrefix(a);
        var rest := IdPrefix(n);
        assert ids == [id] + rest;
        forall k | 1 <= k < |ids| && ids[k] !in t.nodes && ids[k] != id
          ensures ids[k] in r.nodes && r.nodes[ids[k]] == ChainLink
        {
          assert ids[k] == rest[k - 1];
          if ids[k] == nid {
            assert t2.nodes[nid] == ChainLink;
            assert Extends(t2, Wire(t2, n).0);
          }
        }
      }
  }

  /** Every id of the chain is registered. A pre-existing registration is kept;
      otherwise the agent itself is registered as a chain head and every later
      link that is not the agent again as a chain link. */
  lemma WireNodes(t: Tables, a: Agent)
    requires HasId(a)
    ensures Wire(t, a).0.nodes.Keys == t.nodes.Keys + ChainIds(a)
    ensures a.nodeId.value !in t.nodes ==> Wire(t, a).0.nodes[a.nodeId.value] == ChainHead
    ensures forall k :: 1 <= k < |IdPrefix(a)| && IdPrefix(a)[k] !in t.nodes && IdPrefix(a)[k] != a.nodeId.value ==>
              Wire(t, a).0.nodes[IdPrefix(a)[k]] == ChainLink
  {
    WireKeys(t, a);
    if a.nodeId.value !in t.nodes {
      WireHead(t, a);
    }
    WireLinks(t, a);
  }

  // ---------------------------------------------------------------------
  // The imperative builder

  /** `addNextAgent(graph, agent, agent.nextAgent)` on a live graph. */
  method AddNextAgent(graph: MessageGraph, agent: Agent) returns (o: Outcome<WiringError>)
    modifies graph
    ensures (Tables(graph.nodes, graph.edges), o) == Wire(old(Tables(graph.nodes, graph.edges)), agent)
    ensures graph.branches == old(graph.branches) && graph.entryPoint == old(graph.entryPoint)
    decreases agent
  {
    if !HasId(agent) {
      return Fail(MissingNodeId);
    }
    var id := agent.nodeId.value;
    var _ := graph.AddNode(id, ChainHead);  // an id already present is ignored
    match agent.nextAgent {
      case None =>
        graph.AddEdge(id, END);
        o := Pass;
      case Some(next) =>
        if !HasId(next) {
          return Fail(MissingNodeId);
        }
        var _ := graph.AddNode(next.nodeId.value, ChainLink);  // an id already present is ignored
        graph.AddEdge(id, next.nodeId.value);
        var _ := AddNextAgent(graph, next);  // a throw from deeper links is swallowed
        o := Pass;
    }
  }
}
