/** The `GraphAgentExecutor` constructor: register the supervisor, wire every
    configured chain, attach the router to the supervisor and make it the
    entry point. */
module Executor {
  import opened Wrappers
  import opened MessageGraphs
  import opened ChainWiring

  const SupervisorId: string := "supervisor"

  /** A constructed executor: its agents, its session id (passed to every
      agent call) and its compiled graph. */
  datatype GraphAgentExecutor = GraphAgentExecutor(agents: seq<Agent>, sessionId: Option<string>, graph: CompiledGraph)

  /** The tables right after the supervisor node is added. */
  function InitialTables(): Tables {
    Tables(map[SupervisorId := SupervisorNode], [])
  }

  /** The tables after `agents.forEach(addNextAgent)`; a throw leaves the loop. */
  function WireAll(t: Tables, agents: seq<Agent>): (r: (Tables, Outcome<WiringError>))
    ensures r.1 == Pass || r.1 == Fail(MissingNodeId)
    ensures Extends(t, r.0)
    decreases |agents|
  {
    if |agents| == 0 then (t, Pass)
    else
      var before := WireAll(t, agents[..|agents| - 1]);
      if before.1 != Pass then before else Wire(before.0, agents[|agents| - 1])
  }

  /** The loop runs to the end exactly when no chain throws. */
  lemma {:induction false} WireAllPasses(t: Tables, agents: seq<Agent>)
    ensures WireAll(t, agents).1 == Pass <==> forall k :: 0 <= k < |agents| ==> WiresWithoutError(agents[k])
    decreases |agents|
  {
    if |agents| > 0 {
      var init := agents[..|agents| - 1];
      assert forall k :: 0 <= k < |init| ==> init[k] == agents[k];
      WireAllPasses(t, init);
    }
  }

  /** The tables the constructor hands to `compile()` (a snapshot here),
      or the error its wiring throws. The wiring fails exactly when some
      chain's own agent or its immediate successor has no id; otherwise the
      entry point is
      `supervisor`, the supervisor node is registered as such, and it
      carries the only conditional edge. */
  function BuiltGraph(agents: seq<Agent>): (r: Result<CompiledGraph, WiringError>)
    ensures r.Success? <==> forall k :: 0 <= k < |agents| ==> WiresWithoutError(agents[k])
    ensures r.Failure? ==> r.error == MissingNodeId
    ensures r.Success? ==>
              && r.value.entryPoint == Some(SupervisorId)
              && r.value.branches == [SupervisorId]
              && SupervisorId in r.value.nodes && r.value.nodes[SupervisorId] == SupervisorNode
  {
    var wired := WireAll(InitialTables(), agents);
    WireAllPasses(InitialTables(), agents);
    assert Extends(InitialTables(), wired.0);
    if wired.1.Fail? then Failure(wired.1.error)
    else Success(CompiledGraph(wired.0.nodes, wired.0.edges, [SupervisorId], Some(SupervisorId)))
  }

  /** `new GraphAgentExecutor({ supervisor, agents, sessionId })`. */
  method New(agents: Option<seq<Agent>>, sessionId: Option<string>) returns (r: Result<GraphAgentExecutor, WiringError>)
    ensures var list := if agents.Some? then agents.value else [];
            match BuiltGraph(list)
            case Success(g) => r == Success(GraphAgentExecutor(list, sessionId, g))
            case Failure(e) => r == Failure(e)
  {
    var list: seq<Agent> := [];
    if agents.Some? {
      list := agents.value;
    }
    var graph := new MessageGraph();
    var _ := graph.AddNode(SupervisorId, SupervisorNode);
    var i := 0;
    while i < |list|
      invariant 0 <= i <= |list|
      invariant (Tables(graph.nodes, graph.edges), Pass) == WireAll(InitialTables(), list[..i])
      invariant graph.branches == [] && graph.entryPoint == None
    {
      assert list[..i + 1][..i] == list[..i];
      var o := AddNextAgent(graph, list[i]);
      if o.Fail? {
        WireAllPasses(InitialTables(), list);
        assert !WiresWithoutError(list[i]);
        return Failure(o.error);
      }
      i := i + 1;
    }
    assert list[..i] == list;
    graph.AddConditionalEdges(SupervisorId);
    graph.SetEntryPoint(SupervisorId);
    var g := graph.Compile();
    assert WireAll(InitialTables(), list) == (Tables(g.nodes, g.edges), Pass);
    assert g == CompiledGraph(g.nodes, g.edges, [SupervisorId], Some(SupervisorId));
    assert BuiltGraph(list) == Success(g);
    r := Success(GraphAgentExecutor(list, sessionId, g));
  }

  // ---------------------------------------------------------------------
  // Constructed graphs

  /** With no agents configured, `supervisor` is the only node and there are
      no static edges. */
  lemma NoAgentsOnlySupervisor()
    ensures BuiltGraph([]) == Success(CompiledGraph(map[SupervisorId := SupervisorNode], [], [SupervisorId], Some(SupervisorId)))
  {
  }

  /** Scenario: a missing id on the second link of a chain makes the
      constructor throw. */
  lemma SecondLinkMissingIdThrows(x: string)
    ensures BuiltGraph([Agent(Some(x), Some(Agent(None, None)))]) == Failure(MissingNodeId)
  {
    var short := Agent(Some(x), Some(Agent(None, None)));
    assert !WiresWithoutError([short][0]);
  }

  /** A chain `x -> y -> (no id)` contributes the one edge `x -> y`. */
  lemma CutChainEdges(x: string, y: string)
    requires x != "" && y != ""
    ensures var chain := Agent(Some(x), Some(Agent(Some(y), Some(Agent(None, None)))));
            ChainEdges(chain) == [Edge(x, y)]
  {
    var chain := Agent(Some(x), Some(Agent(Some(y), Some(Agent(None, None)))));
    assert IdPrefix(chain.nextAgent.value) == [y];
    assert IdPrefix(chain) == [x, y];
    assert !Complete(chain.nextAgent.value);
    assert LinkEdges([x, y]) == [Edge(x, y)];
  }

  /** Scenario: on the third link, the same missing id is swallowed by the
      `try` around the recursive call: the wiring succeeds, and the second
      link is left without any static edge. */
  lemma DeepMissingIdIsSwallowed(x: string, y: string)
    requires x != "" && y != ""
    ensures var chain := Agent(Some(x), Some(Agent(Some(y), Some(Agent(None, None)))));
            && BuiltGraph([chain]).Success?
            && BuiltGraph([chain]).value.edges == [Edge(x, y)]
  {
    var chain := Agent(Some(x), Some(Agent(Some(y), Some(Agent(None, None)))));
    assert WiresWithoutError([chain][0]);
    BuiltGraphTables([chain]);
    assert [chain][..0] == [];
    CutChainEdges(x, y);
    assert AllChainEdges([chain]) == [] + ChainEdges(chain);
  }

  /** All static edges of all chains, in configuration order. */
  function AllChainEdges(agents: seq<Agent>): seq<Edge>
    requires forall k :: 0 <= k < |agents| ==> WiresWithoutError(agents[k])
  {
    if |agents| == 0 then []
    else
      assert WiresWithoutError(agents[|agents| - 1]);
      AllChainEdges(agents[..|agents| - 1]) + ChainEdges(agents[|agents| - 1])
  }

  /** All ids a constructed graph registers besides the supervisor's. */
  function AllChainIds(agents: seq<Agent>): set<string> {
    set k, x | 0 <= k < |agents| && x in IdPrefix(agents[k]) :: x
  }

  /** A constructed graph registers exactly the supervisor and the ids of
      every chain up to its first link without an id, and its static edges
      are the chains' edges, chain after chain. */
  lemma {:induction false} BuiltGraphTables(agents: seq<Agent>)
    requires BuiltGraph(agents).Success?
    ensures forall k :: 0 <= k < |agents| ==> WiresWithoutError(agents[k])
    ensures BuiltGraph(agents).value.nodes.Keys == {SupervisorId} + AllChainIds(agents)
    ensures BuiltGraph(agents).value.edges == AllChainEdges(agents)
  {
    WireAllNodes(InitialTables(), agents);
    WireAllEdges(InitialTables(), agents);
  }

  lemma ChainIdsSnoc(agents: seq<Agent>)
    requires |agents| > 0
    ensures AllChainIds(agents) == AllChainIds(agents[..|agents| - 1]) + ChainIds(agents[|agents| - 1])
  {
    var init := agents[..|agents| - 1];
    forall x | x in AllChainIds(agents) ensures x in AllChainIds(init) || x in ChainIds(agents[|agents| - 1]) {
      var k :| 0 <= k < |agents| && x in IdPrefix(agents[k]);
      if k < |agents| - 1 {
        assert init[k] == agents[k];
      }
    }
    forall x | x in AllChainIds(init) ensures x in AllChainIds(agents) {
      var k :| 0 <= k < |init| && x in IdPrefix(init[k]);
      assert agents[k] == init[k];
    }
  }

  lemma {:induction false} WireAllNodes(t: Tables, agents: seq<Agent>)
    requires forall k :: 0 <= k < |agents| ==> WiresWithoutError(agents[k])
    ensures WireAll(t, agents).1 == Pass
    ensures WireAll(t, agents).0.nodes.Keys == t.nodes.Keys + AllChainIds(agents)
    decreases |agents|
  {
    if |agents| > 0 {
      var init := agents[..|agents| - 1];
      var a := agents[|agents| - 1];
      assert forall k :: 0 <= k < |init| ==> init[k] == agents[k];
      WireAllNodes(t, init);
      var mid := WireAll(t, init);
      assert WireAll(t, agents) == Wire(mid.0, a);
      WireNodes(mid.0, a);
      ChainIdsSnoc(agents);
    }
  }

  /** One more agent: the loop's tables after it are those of `Wire` on the
      tables before it, and its chain's edges follow the earlier ones. */
  lemma WireAllSnoc(t: Tables, agents: seq<Agent>)
    requires |agents| > 0 && WireAll(t, agents[..|agents| - 1]).1 == Pass
    requires WiresWithoutError(agents[|agents| - 1])
    ensures WireAll(t, agents) == Wire(WireAll(t, agents[..|agents| - 1]).0, agents[|agents| - 1])
  {
  }

  lemma {:induction false} WireAllEdges(t: Tables, agents: seq<Agent>)
    requires forall k :: 0 <= k < |agents| ==> WiresWithoutError(agents[k])
    ensures WireAll(t, agents).1 == Pass
    ensures WireAll(t, agents).0.edges == t.edges + AllChainEdges(agents)
    decreases |agents|
  {
    if |agents| == 0 {
      assert t.edges + [] == t.edges;
    } else {
      var init := agents[..|agents| - 1];
      var a := agents[|agents| - 1];
      var mid := WireAll(t, init);
      assert mid.1 == Pass && mid.0.edges == t.edges + AllChainEdges(init) by {
        assert forall k :: 0 <= k < |init| ==> init[k] == agents[k];
        WireAllEdges(t, init);
      }
      WireAllSnoc(t, agents);
      WireEdges(mid.0, a);
      assert AllChainEdges(agents) == AllChainEdges(init) + ChainEdges(a);
      AppendAssoc(t.edges, AllChainEdges(init), ChainEdges(a));
    }
  }
}
