/** An abstract run of a compiled graph, standing in for LangGraph's
    execution loop: starting at the entry point, each hop invokes the
    current node's closure, appends the record it returns to the state, and
    follows the node's static edge or the supervisor's router. The executors
    behind the closures are a parameter (`invoke`), and `fuel` bounds the hops. */
module GraphRun {
  import opened Wrappers
  import opened MessageGraphs
  import opened Router
  import opened NodeClosures
  import opened ChainWiring
  import opened Executor

  /** The targets of the static edges leaving `from`, one per edge. */
  function StaticTargets(edges: seq<Edge>, from: string): (ts: seq<string>)
    ensures |ts| <= |edges|
  {
    if edges == [] then []
    else
      var last := edges[|edges| - 1];
      StaticTargets(edges[..|edges| - 1], from) + if last.from == from then [last.to] else []
  }

  /** How a run ends: with the final state, with the router's TypeError, at a
      point where LangGraph's own behaviour decides (an unregistered node, or
      a node whose outgoing edges are not one single target), or out of fuel. */
  datatype RunOutcome =
    | Finished(state: seq<Record>)
    | RouteFailed(error: RouteError)
    | Unmodelled(node: string)
    | OutOfFuel

  /** Every static edge leaving `node` goes to `to`. */
  predicate LeadsTo(g: CompiledGraph, node: string, to: string) {
    var ts := StaticTargets(g.edges, node);
    ts != [] && forall k :: 0 <= k < |ts| ==> ts[k] == to
  }

  /** The run from `current` on: every finished run extends the state it was
      given by one record per hop and never rewrites earlier records. */
  function Run(g: CompiledGraph, invoke: Call -> Record, sessionId: Option<string>,
               state: seq<Record>, current: string, fuel: nat): (r: RunOutcome)
    requires |state| > 0
    ensures r.Finished? ==> |state| < |r.state| <= |state| + fuel && r.state[..|state|] == state
    decreases fuel
  {
    if fuel == 0 then OutOfFuel
    else if current !in g.nodes then Unmodelled(current)
    else
      var next := state + [invoke(NodeCall(g.nodes[current], current, state, sessionId))];
      var targets := StaticTargets(g.edges, current);
      if current in g.branches && targets == [] then
        match Route(next)
        case Failure(e) => RouteFailed(e)
        case Success(to) =>
          if to == END then Finished(next)
          else
            var r := Run(g, invoke, sessionId, next, to, fuel - 1);
            assert r.Finished? ==> r.state[..|state|] == r.state[..|next|][..|state|];
            r
      else if current !in g.branches && targets != [] && LeadsTo(g, current, targets[0]) then
        if targets[0] == END then Finished(next)
        else
          var r := Run(g, invoke, sessionId, next, targets[0], fuel - 1);
          assert r.Finished? ==> r.state[..|state|] == r.state[..|next|][..|state|];
          r
      else Unmodelled(current)
  }

  /** `graph.invoke(values)`: the state starts as the caller's values alone. */
  function InvokeGraph(exec: GraphAgentExecutor, invoke: Call -> Record, values: Record, fuel: nat): RunOutcome
    requires exec.graph.entryPoint.Some?
  {
    Run(exec.graph, invoke, exec.sessionId, [values], exec.graph.entryPoint.value, fuel)
  }

  /** `_call(values)`: the graph's result with an array replaced by its last
      element; a run that does not finish rejects with its outcome. A
      finished run always holds a record some node appended after the
      caller's values, and `_call` resolves to the last of them: never to the
      caller's own values and never to `undefined`. */
  function CallGraph(exec: GraphAgentExecutor, invoke: Call -> Record, values: Record, fuel: nat): (r: Result<Value, RunOutcome>)
    requires exec.graph.entryPoint.Some?
    ensures r.Failure? <==> !InvokeGraph(exec, invoke, values, fuel).Finished?
    ensures r.Failure? ==> r.error == InvokeGraph(exec, invoke, values, fuel)
    ensures r.Success? ==>
              var s := InvokeGraph(exec, invoke, values, fuel).state;
              && |s| >= 2 && s[0] == values
              && r.value == RecordValue(s[|s| - 1])
  {
    match InvokeGraph(exec, invoke, values, fuel)
    case Finished(state) =>
      CallResultPicksLast(state, values);
      Success(CallResult(ArrayValue(AsValues(state))))
    case other => Failure(other)
  }

  // ---------------------------------------------------------------------
  // Static targets

  lemma {:induction false} StaticTargetsConcat(a: seq<Edge>, b: seq<Edge>, from: string)
    ensures StaticTargets(a + b, from) == StaticTargets(a, from) + StaticTargets(b, from)
    decreases |b|
  {
    if b != [] {
      var init := b[..|b| - 1];
      assert (a + b)[..|a + b| - 1] == a + init;
      assert (a + b)[|a + b| - 1] == b[|b| - 1];
      StaticTargetsConcat(a, init, from);
    } else {
      assert a + b == a;
    }
  }

  /** The targets are exactly the ends of the edges leaving `from`. */
  lemma {:induction false} StaticTargetsMembers(edges: seq<Edge>, from: string)
    ensures forall to :: to in StaticTargets(edges, from) <==> Edge(from, to) in edges
    decreases |edges|
  {
    if edges != [] {
      var init := edges[..|edges| - 1];
      StaticTargetsMembers(init, from);
      assert edges == init + [edges[|edges| - 1]];
    }
  }

  /** No edge leaves `from`. */
  lemma {:induction false} NoStaticTarget(edges: seq<Edge>, from: string)
    requires forall k :: 0 <= k < |edges| ==> edges[k].from != from
    ensures StaticTargets(edges, from) == []
    decreases |edges|
  {
    if edges != [] {
      NoStaticTarget(edges[..|edges| - 1], from);
    }
  }

  /** When exactly one edge leaves `from`, its target is the only one. */
  lemma {:induction false} SingleStaticTarget(edges: seq<Edge>, from: string, j: nat)
    requires j < |edges| && edges[j].from == from
    requires forall k :: 0 <= k < |edges| && edges[k].from == from ==> k == j
    ensures StaticTargets(edges, from) == [edges[j].to]
    decreases |edges|
  {
    var init := edges[..|edges| - 1];
    if j < |edges| - 1 {
      SingleStaticTarget(init, from, j);
    } else {
      NoStaticTarget(init, from);
    }
  }

  // ---------------------------------------------------------------------
  // Running a wired chain

  /** The records an agent chain appends: the first agent gets `input`, every
      later one the `output` of the record before it. */
  function Pipeline(invoke: Call -> Record, sessionId: Option<string>, input: Option<string>, ids: seq<string>): (rs: seq<Record>)
    ensures |rs| == |ids|
    decreases |ids|
  {
    if ids == [] then []
    else
      var r := invoke(AgentCall(ids[0], input, sessionId));
      [r] + Pipeline(invoke, sessionId, r.output, ids[1..])
  }

  /** `ids` is a chain in `g`: registered, without conditional edges, each
      leading to the next and the last to `END`; after the first, all are
      chain links. */
  ghost predicate WiredChain(g: CompiledGraph, ids: seq<string>) {
    && |ids| > 0
    && (forall k :: 0 <= k < |ids| ==> ids[k] in g.nodes && ids[k] !in g.branches && ids[k] != END)
    && (forall k :: 1 <= k < |ids| ==> g.nodes[ids[k]] == ChainLink)
    && (forall k :: 0 <= k < |ids| - 1 ==> LeadsTo(g, ids[k], ids[k + 1]))
    && LeadsTo(g, ids[|ids| - 1], END)
  }

  /** One hop through a node with a static edge: the node's closure appends
      its record, and the run follows the edge. */
  lemma Hop(g: CompiledGraph, invoke: Call -> Record, sessionId: Option<string>,
            state: seq<Record>, node: string, to: string, fuel: nat)
    requires |state| > 0 && fuel > 0
    requires node in g.nodes && node !in g.branches && LeadsTo(g, node, to)
    ensures var next := state + [invoke(NodeCall(g.nodes[node], node, state, sessionId))];
            Run(g, invoke, sessionId, state, node, fuel)
            == if to == END then Finished(next) else Run(g, invoke, sessionId, next, to, fuel - 1)
  {
    assert StaticTargets(g.edges, node)[0] == to;
  }

  /** The chain after its first node is still a wired chain. */
  lemma WiredChainTail(g: CompiledGraph, ids: seq<string>)
    requires WiredChain(g, ids) && |ids| > 1
    ensures WiredChain(g, ids[1..])
  {
    var rest := ids[1..];
    forall k | 0 <= k < |rest| - 1 ensures LeadsTo(g, rest[k], rest[k + 1]) {
      assert rest[k] == ids[k + 1] && rest[k + 1] == ids[k + 2];
    }
  }

  /** The first agent's record, then the rest of the chain fed its output. */
  lemma PipelineStep(invoke: Call -> Record, sessionId: Option<string>, input: Option<string>,
                     ids: seq<string>, state: seq<Record>)
    requires |ids| > 0
    ensures var r := invoke(AgentCall(ids[0], input, sessionId));
            state + Pipeline(invoke, sessionId, input, ids) == (state + [r]) + Pipeline(invoke, sessionId, r.output, ids[1..])
  {
  }

  /** A run entering a wired chain visits its nodes in order and appends one
      record per node, each agent consuming the output of the one before. */
  lemma {:induction false} ChainRun(g: CompiledGraph, invoke: Call -> Record, sessionId: Option<string>,
                                    state: seq<Record>, ids: seq<string>, input: Option<string>, fuel: nat)
    requires |state| > 0 && WiredChain(g, ids) && fuel >= |ids|
    requires NodeCall(g.nodes[ids[0]], ids[0], state, sessionId) == AgentCall(ids[0], input, sessionId)
    ensures Run(g, invoke, sessionId, state, ids[0], fuel) == Finished(state + Pipeline(invoke, sessionId, input, ids))
    decreases |ids|
  {
    var r := invoke(AgentCall(ids[0], input, sessionId));
    var next := state + [r];
    PipelineStep(invoke, sessionId, input, ids, state);
    if |ids| == 1 {
      Hop(g, invoke, sessionId, state, ids[0], END, fuel);
      assert Pipeline(invoke, sessionId, r.output, ids[1..]) == [];
    } else {
      Hop(g, invoke, sessionId, state, ids[0], ids[1], fuel);
      WiredChainTail(g, ids);
      assert next[|next| - 1] == r;
      ChainRun(g, invoke, sessionId, next, ids[1..], r.output, fuel - 1);
    }
  }

  // ---------------------------------------------------------------------
  // Every run

  /** Every record of `s` from position `from` on is what the closure of
      some registered node returns on the records before it. */
  ghost predicate Replayed(g: CompiledGraph, invoke: Call -> Record, sessionId: Option<string>,
                           s: seq<Record>, from: nat) {
    forall k :: 0 < from <= k < |s| ==>
      exists v :: v in g.nodes && s[k] == invoke(NodeCall(g.nodes[v], v, s[..k], sessionId))
  }

  /** One more replayed record in front of replayed ones. */
  lemma ReplayedStep(g: CompiledGraph, invoke: Call -> Record, sessionId: Option<string>,
                     state: seq<Record>, v: string, s: seq<Record>)
    requires |state| > 0 && v in g.nodes
    requires |state| < |s| && s[..|state| + 1] == state + [invoke(NodeCall(g.nodes[v], v, state, sessionId))]
    requires |s| == |state| + 1 || Replayed(g, invoke, sessionId, s, |state| + 1)
    ensures Replayed(g, invoke, sessionId, s, |state|)
  {
    assert s[..|state|] == s[..|state| + 1][..|state|];
    assert s[|state|] == s[..|state| + 1][|state|];
  }

  /** The first hop of a finished run: the current node is registered, its
      closure's record is appended, and the run ends or goes on at `to`. */
  lemma FinishedStep(g: CompiledGraph, invoke: Call -> Record, sessionId: Option<string>,
                     state: seq<Record>, current: string, fuel: nat) returns (to: string)
    requires |state| > 0 && Run(g, invoke, sessionId, state, current, fuel).Finished?
    ensures fuel > 0 && current in g.nodes
    ensures var next := state + [invoke(NodeCall(g.nodes[current], current, state, sessionId))];
            Run(g, invoke, sessionId, state, current, fuel)
            == if to == END then Finished(next) else Run(g, invoke, sessionId, next, to, fuel - 1)
  {
    var next := state + [invoke(NodeCall(g.nodes[current], current, state, sessionId))];
    var targets := StaticTargets(g.edges, current);
    to := if current in g.branches && targets == [] then Route(next).value else targets[0];
  }

  /** Replay: every record a finished run appends is what the closure of
      some registered node returns on the state before that record. */
  lemma {:induction false} RunReplays(g: CompiledGraph, invoke: Call -> Record, sessionId: Option<string>,
                                      state: seq<Record>, current: string, fuel: nat)
    requires |state| > 0 && Run(g, invoke, sessionId, state, current, fuel).Finished?
    ensures Replayed(g, invoke, sessionId, Run(g, invoke, sessionId, state, current, fuel).state, |state|)
    decreases fuel
  {
    var to := FinishedStep(g, invoke, sessionId, state, current, fuel);
    var next := state + [invoke(NodeCall(g.nodes[current], current, state, sessionId))];
    if to == END {
      assert next[..|state| + 1] == next;
      ReplayedStep(g, invoke, sessionId, state, current, next);
    } else {
      var r := Run(g, invoke, sessionId, next, to, fuel - 1);
      assert r.Finished?;
      RunReplays(g, invoke, sessionId, next, to, fuel - 1);
      assert |next| == |state| + 1 && |next| < |r.state| && r.state[..|next|] == next;
      ReplayedStep(g, invoke, sessionId, state, current, r.state);
    }
  }

  /** The three sources of one replayed record, read off `NodeCall`. */
  lemma RecordSource(g: CompiledGraph, invoke: Call -> Record, sessionId: Option<string>,
                     first: Record, s: seq<Record>, k: nat, v: string)
    requires 0 < k < |s| && s[0] == first
    requires v in g.nodes && s[k] == invoke(NodeCall(g.nodes[v], v, s[..k], sessionId))
    ensures || s[k] == invoke(SupervisorCall(first))
            || (g.nodes[v] == ChainHead && s[k] == invoke(AgentCall(v, first.input, sessionId)))
            || (g.nodes[v] == ChainLink &&
                  s[k] == invoke(AgentCall(v, if k > 1 then s[k - 1].output else first.input, sessionId)))
  {
    assert s[..k][0] == first;
    assert k > 1 ==> s[..k][k - 1] == s[k - 1];
  }

  /** Where the records of a run come from: each is the supervisor's answer
      to the caller's first record, a chain head's answer to that record's
      `input`, or a chain link's answer to the `output` of the record just
      before it (to the first record's `input` when it is the first record). */
  lemma RunInputSources(g: CompiledGraph, invoke: Call -> Record, sessionId: Option<string>,
                        state: seq<Record>, current: string, fuel: nat)
    requires |state| > 0 && Run(g, invoke, sessionId, state, current, fuel).Finished?
    ensures var s := Run(g, invoke, sessionId, state, current, fuel).state;
            forall k :: |state| <= k < |s| ==>
              || s[k] == invoke(SupervisorCall(state[0]))
              || (exists v :: v in g.nodes && g.nodes[v] == ChainHead && s[k] == invoke(AgentCall(v, state[0].input, sessionId)))
              || (exists v :: v in g.nodes && g.nodes[v] == ChainLink &&
                    s[k] == invoke(AgentCall(v, if k > 1 then s[k - 1].output else state[0].input, sessionId)))
  {
    RunReplays(g, invoke, sessionId, state, current, fuel);
    var s := Run(g, invoke, sessionId, state, current, fuel).state;
    assert s[0] == state[0] by {
      assert s[..|state|][0] == s[0];
    }
    forall k | |state| <= k < |s|
      ensures || s[k] == invoke(SupervisorCall(state[0]))
              || (exists v :: v in g.nodes && g.nodes[v] == ChainHead && s[k] == invoke(AgentCall(v, state[0].input, sessionId)))
              || (exists v :: v in g.nodes && g.nodes[v] == ChainLink &&
                    s[k] == invoke(AgentCall(v, if k > 1 then s[k - 1].output else state[0].input, sessionId)))
    {
      assert 0 < |state| <= k < |s|;
      var v :| v in g.nodes && s[k] == invoke(NodeCall(g.nodes[v], v, s[..k], sessionId));
      RecordSource(g, invoke, sessionId, state[0], s, k, v);
    }
  }

  // ---------------------------------------------------------------------
  // Runs of constructed executors

  /** Every edge a chain adds leaves one of the chain's nodes. */
  lemma OneChainEdgeSources(a: Agent)
    requires HasId(a)
    ensures forall e :: e in ChainEdges(a) ==> e.from in ChainIds(a)
  {
    var ids := IdPrefix(a);
    var links := LinkEdges(ids);
    forall e | e in ChainEdges(a) ensures e.from in ChainIds(a) {
      if e in links {
        var k :| 0 <= k < |links| && links[k] == e;
        assert links[k] == Edge(ids[k], ids[k + 1]);
        assert ids[k] in ids;
      } else {
        assert e == Edge(ids[|ids| - 1], END);
      }
    }
  }

  /** Every static edge of a constructed graph leaves a chain node. */
  lemma {:induction false} ChainEdgeSources(agents: seq<Agent>)
    requires forall k :: 0 <= k < |agents| ==> WiresWithoutError(agents[k])
    ensures forall e :: e in AllChainEdges(agents) ==> e.from in AllChainIds(agents)
    decreases |agents|
  {
    if |agents| > 0 {
      var init := agents[..|agents| - 1];
      var a := agents[|agents| - 1];
      assert forall k :: 0 <= k < |init| ==> init[k] == agents[k];
      ChainEdgeSources(init);
      ChainIdsSnoc(agents);
      assert AllChainEdges(agents) == AllChainEdges(init) + ChainEdges(a);
      OneChainEdgeSources(a);
    }
  }

  /** The executor `New` builds from `agents`. */
  function Built(agents: seq<Agent>, sessionId: Option<string>): GraphAgentExecutor
    requires BuiltGraph(agents).Success?
  {
    GraphAgentExecutor(agents, sessionId, BuiltGraph(agents).value)
  }

  /** Unless a chain registers a node called `supervisor`, no static edge
      leaves the supervisor: only its router decides where a run goes. */
  lemma SupervisorOnlyRoutes(agents: seq<Agent>)
    requires BuiltGraph(agents).Success? && SupervisorId !in AllChainIds(agents)
    ensures var g := BuiltGraph(agents).value;
            && SupervisorId in g.nodes && g.nodes[SupervisorId] == SupervisorNode
            && SupervisorId in g.branches && g.entryPoint == Some(SupervisorId)
            && StaticTargets(g.edges, SupervisorId) == []
  {
    var g := BuiltGraph(agents).value;
    BuiltGraphTables(agents);
    ChainEdgeSources(agents);
    forall k | 0 <= k < |g.edges| ensures g.edges[k].from != SupervisorId {
      assert g.edges[k] in AllChainEdges(agents);
    }
    NoStaticTarget(g.edges, SupervisorId);
  }

  /** Scenario: when the supervisor's output carries no marker, the run ends
      right after the supervisor and `_call` returns the supervisor's record
      (unless some chain registered a node called `supervisor`). */
  lemma DirectAnswerEndsRun(agents: seq<Agent>, sessionId: Option<string>, invoke: Call -> Record, values: Record, fuel: nat)
    requires BuiltGraph(agents).Success? && SupervisorId !in AllChainIds(agents) && fuel > 0
    requires var answer := invoke(SupervisorCall(values)).output;
             answer.Some? && !JsText.Includes(answer.value, Marker)
    ensures InvokeGraph(Built(agents, sessionId), invoke, values, fuel) == Finished([values, invoke(SupervisorCall(values))])
    ensures CallGraph(Built(agents, sessionId), invoke, values, fuel) == Success(RecordValue(invoke(SupervisorCall(values))))
  {
    SupervisorOnlyRoutes(agents);
    var state := [values, invoke(SupervisorCall(values))];
    assert Route(state) == Success(END);
    CallResultPicksLast(state, values);
  }

  /** The constructor's tables for one chain are those `Wire` gives. */
  lemma SingleChainTables(a: Agent)
    requires Complete(a)
    ensures BuiltGraph([a]).Success?
    ensures BuiltGraph([a]).value.nodes == Wire(InitialTables(), a).0.nodes
    ensures BuiltGraph([a]).value.edges == Wire(InitialTables(), a).0.edges
    ensures BuiltGraph([a]).value.branches == [SupervisorId]
  {
    assert WiresWithoutError(a);
    assert [a][..0] == [];
    assert WireAll(InitialTables(), [a]) == Wire(InitialTables(), a);
  }

  /** Distinct ids, as a predicate on the chain's id sequence. */
  ghost predicate DistinctIds(ids: seq<string>) {
    forall i, j :: 0 <= i < j < |ids| ==> ids[i] != ids[j]
  }

  /** In a complete chain with distinct ids, each link's only static edge goes
      to the next link, and the last link's to `END`. */
  lemma ChainTargets(ids: seq<string>, edges: seq<Edge>)
    requires |ids| > 0 && DistinctIds(ids)
    requires edges == LinkEdges(ids) + [Edge(ids[|ids| - 1], END)]
    ensures forall k :: 0 <= k < |ids| - 1 ==> StaticTargets(edges, ids[k]) == [ids[k + 1]]
    ensures StaticTargets(edges, ids[|ids| - 1]) == [END]
    ensures forall x :: x !in ids ==> StaticTargets(edges, x) == []
  {
    var n := |ids|;
    var links := LinkEdges(ids);
    forall m | 0 <= m < |edges| ensures edges[m].from == ids[m] {
      if m < n - 1 {
        assert edges[m] == links[m] == Edge(ids[m], ids[m + 1]);
      } else {
        assert edges[m] == Edge(ids[n - 1], END);
      }
    }
    forall k | 0 <= k < n - 1 ensures StaticTargets(edges, ids[k]) == [ids[k + 1]] {
      SingleStaticTarget(edges, ids[k], k);
      assert edges[k] == links[k];
    }
    SingleStaticTarget(edges, ids[n - 1], n - 1);
    forall x | x !in ids ensures StaticTargets(edges, x) == [] {
      NoStaticTarget(edges, x);
    }
  }

  /** A single static edge leaving `from` leads to its target. */
  lemma OneTargetLeads(g: CompiledGraph, from: string, to: string)
    requires StaticTargets(g.edges, from) == [to]
    ensures LeadsTo(g, from, to)
  {
  }

  /** In edges holding exactly one chain's edges, each link leads to the next
      and the last to `END`, and no edge leaves an id outside the chain. */
  lemma ChainLeads(g: CompiledGraph, ids: seq<string>)
    requires |ids| > 0 && DistinctIds(ids)
    requires g.edges == LinkEdges(ids) + [Edge(ids[|ids| - 1], END)]
    ensures forall k :: 0 <= k < |ids| - 1 ==> LeadsTo(g, ids[k], ids[k + 1])
    ensures LeadsTo(g, ids[|ids| - 1], END)
    ensures forall x :: x !in ids ==> StaticTargets(g.edges, x) == []
  {
    ChainTargets(ids, g.edges);
    forall k | 0 <= k < |ids| - 1 ensures LeadsTo(g, ids[k], ids[k + 1]) {
      OneTargetLeads(g, ids[k], ids[k + 1]);
    }
    OneTargetLeads(g, ids[|ids| - 1], END);
  }

  /** Graph tables holding exactly one chain's edges, with its later ids
      registered as chain links, make that chain a wired chain; and no static
      edge leaves the supervisor. */
  lemma ChainGraphWired(g: CompiledGraph, ids: seq<string>)
    requires |ids| > 0 && DistinctIds(ids) && SupervisorId !in ids && END !in ids
    requires g.edges == LinkEdges(ids) + [Edge(ids[|ids| - 1], END)]
    requires g.branches == [SupervisorId]
    requires forall k :: 0 <= k < |ids| ==> ids[k] in g.nodes
    requires forall k :: 1 <= k < |ids| ==> g.nodes[ids[k]] == ChainLink
    ensures WiredChain(g, ids) && StaticTargets(g.edges, SupervisorId) == []
  {
    forall k | 0 <= k < |ids| ensures ids[k] !in g.branches && ids[k] != END {
      assert ids[k] in ids;
    }
    ChainLeads(g, ids);
  }

  /** Wiring one complete chain with distinct ids into the initial tables
      registers its head as a chain head and every later link as a chain
      link, and adds exactly the chain's edges. */
  lemma SingleChainNodes(a: Agent)
    requires Complete(a) && DistinctIds(IdPrefix(a)) && SupervisorId !in IdPrefix(a)
    ensures var w := Wire(InitialTables(), a).0; var ids := IdPrefix(a);
            && w.edges == LinkEdges(ids) + [Edge(ids[|ids| - 1], END)]
            && (forall k :: 0 <= k < |ids| ==> ids[k] in w.nodes)
            && w.nodes[ids[0]] == ChainHead
            && (forall k :: 1 <= k < |ids| ==> w.nodes[ids[k]] == ChainLink)
  {
    var ids := IdPrefix(a);
    var t := InitialTables();
    var w := Wire(t, a).0;
    assert w.edges == ChainEdges(a) by {
      WireEdges(t, a);
      assert [] + ChainEdges(a) == ChainEdges(a);
    }
    assert ids[0] in w.nodes && w.nodes[ids[0]] == ChainHead by {
      WireHead(t, a);
    }
    forall k | 1 <= k < |ids| ensures ids[k] in w.nodes && w.nodes[ids[k]] == ChainLink {
      WireLinks(t, a);
      assert ids[k] != ids[0] && ids[k] != SupervisorId;
    }
  }

  /** A single chain whose links all have distinct ids: the tables the
      constructor builds make it a wired chain entered at a chain head. */
  lemma SingleChainWired(a: Agent)
    requires Complete(a) && DistinctIds(IdPrefix(a))
    requires SupervisorId !in IdPrefix(a) && END !in IdPrefix(a)
    ensures BuiltGraph([a]).Success?
    ensures var g := BuiltGraph([a]).value;
            && WiredChain(g, IdPrefix(a))
            && g.nodes[IdPrefix(a)[0]] == ChainHead
            && StaticTargets(g.edges, SupervisorId) == []
  {
    SingleChainTables(a);
    SingleChainNodes(a);
    ChainGraphWired(BuiltGraph([a]).value, IdPrefix(a));
  }

  /** The first hop of a run entered at the supervisor: its closure consumes
      the caller's values, and where the run goes next is the router's
      verdict on the two records. */
  lemma SupervisorHop(g: CompiledGraph, invoke: Call -> Record, sessionId: Option<string>, values: Record, fuel: nat)
    requires fuel > 0
    requires SupervisorId in g.nodes && g.nodes[SupervisorId] == SupervisorNode && SupervisorId in g.branches
    requires StaticTargets(g.edges, SupervisorId) == []
    ensures var state := [values, invoke(SupervisorCall(values))];
            Run(g, invoke, sessionId, [values], SupervisorId, fuel)
            == match Route(state)
               case Failure(e) => RouteFailed(e)
               case Success(to) => if to == END then Finished(state) else Run(g, invoke, sessionId, state, to, fuel - 1)
  {
    assert NodeCall(SupervisorNode, SupervisorId, [values], sessionId) == SupervisorCall(values);
    assert [values] + [invoke(SupervisorCall(values))] == [values, invoke(SupervisorCall(values))];
  }

  /** A run entered at the supervisor whose router names the head of a wired
      chain visits the whole chain, the head consuming the caller's input. */
  lemma SupervisorThenChain(g: CompiledGraph, invoke: Call -> Record, sessionId: Option<string>,
                            values: Record, ids: seq<string>, fuel: nat)
    requires WiredChain(g, ids) && g.nodes[ids[0]] == ChainHead
    requires SupervisorId in g.nodes && g.nodes[SupervisorId] == SupervisorNode && SupervisorId in g.branches
    requires StaticTargets(g.edges, SupervisorId) == []
    requires Route([values, invoke(SupervisorCall(values))]) == Success(ids[0])
    requires fuel > |ids|
    ensures Run(g, invoke, sessionId, [values], SupervisorId, fuel)
            == Finished([values, invoke(SupervisorCall(values))] + Pipeline(invoke, sessionId, values.input, ids))
  {
    var state := [values, invoke(SupervisorCall(values))];
    SupervisorHop(g, invoke, sessionId, values, fuel);
    ChainRun(g, invoke, sessionId, state, ids, values.input, fuel - 1);
  }

  /** Chain sequencing: with one configured chain of distinct ids, a
      supervisor that routes to the chain's head makes the run visit every
      link in order; the head consumes the caller's input, each later link
      the output of the record before it, and `_call` returns the last
      link's record. */
  lemma SingleChainRun(a: Agent, sessionId: Option<string>, invoke: Call -> Record, values: Record, fuel: nat)
    requires Complete(a) && DistinctIds(IdPrefix(a))
    requires SupervisorId !in IdPrefix(a) && END !in IdPrefix(a)
    requires Route([values, invoke(SupervisorCall(values))]) == Success(IdPrefix(a)[0])
    requires fuel > |IdPrefix(a)|
    ensures BuiltGraph([a]).Success?
    ensures var records := Pipeline(invoke, sessionId, values.input, IdPrefix(a));
            && InvokeGraph(Built([a], sessionId), invoke, values, fuel)
               == Finished([values, invoke(SupervisorCall(values))] + records)
            && CallGraph(Built([a], sessionId), invoke, values, fuel)
               == Success(RecordValue(records[|records| - 1]))
  {
    SingleChainWired(a);
    var g := BuiltGraph([a]).value;
    var ids := IdPrefix(a);
    SupervisorThenChain(g, invoke, sessionId, values, ids, fuel);
    var state := [values, invoke(SupervisorCall(values))];
    var records := Pipeline(invoke, sessionId, values.input, ids);
    CallResultPicksLast(state + records, values);
    assert (state + records)[|state + records| - 1] == records[|records| - 1];
  }

  /** The tables the constructor builds from a lone agent `b` followed by a
      chain `a -> b`: the second registration of `b` is ignored, so both `a`
      and `b` are chain heads, and `b -> END` is wired twice. */
  lemma EarlierHeadTables(a: string, b: string)
    requires a != b && a != "" && b != "" && a != SupervisorId && b != SupervisorId
    ensures var agents := [Agent(Some(b), None), Agent(Some(a), Some(Agent(Some(b), None)))];
            && BuiltGraph(agents).Success?
            && BuiltGraph(agents).value.nodes[a] == ChainHead
            && BuiltGraph(agents).value.nodes[b] == ChainHead
            && BuiltGraph(agents).value.edges == [Edge(b, END), Edge(a, b), Edge(b, END)]
  {
    var lone := Agent(Some(b), None);
    var chain := Agent(Some(a), Some(lone));
    var agents := [lone, chain];
    var t0 := InitialTables();
    var w1 := Wire(t0, lone);
    assert HasId(lone) && lone.nextAgent.None? && t0.edges + [Edge(b, END)] == [Edge(b, END)];
    assert w1 == (Tables(Register(t0.nodes, b, ChainHead), [Edge(b, END)]), Pass);
    assert WireAll(t0, [lone]) == w1 by {
      assert [lone][..0] == [];
    }
    var t1 := w1.0;
    assert t1.nodes.Keys == {SupervisorId, b};
    var w2 := Wire(t1, chain);
    assert WireAll(t0, agents) == w2 by {
      assert agents[..1] == [lone];
    }
    assert IdPrefix(chain) == [a, b];
    assert LinkEdges([a, b]) == [Edge(a, b)];
    WireEdges(t1, chain);
    WireNodes(t1, chain);
  }

  /** The static targets of the edges `b -> END`, `a -> b`, `b -> END`. */
  lemma EarlierHeadEdgeTargets(a: string, b: string)
    requires a != b && a != SupervisorId && b != SupervisorId
    ensures var es := [Edge(b, END), Edge(a, b), Edge(b, END)];
            && StaticTargets(es, SupervisorId) == []
            && StaticTargets(es, a) == [b]
            && StaticTargets(es, b) == [END, END]
  {
    var es := [Edge(b, END), Edge(a, b), Edge(b, END)];
    var e1, e2 := [Edge(b, END)], [Edge(b, END), Edge(a, b)];
    assert es[..2] == e2 && e2[..1] == e1 && e1[..0] == [];
    assert StaticTargets(e1, SupervisorId) == [] && StaticTargets(e1, a) == [] && StaticTargets(e1, b) == [END];
    assert StaticTargets(e2, SupervisorId) == [] && StaticTargets(e2, a) == [b] && StaticTargets(e2, b) == [END];
  }

  /** In a graph with those edges, `a` leads to `b`, `b` to `END`, and nothing
      leaves the supervisor. */
  lemma EarlierHeadTargets(g: CompiledGraph, a: string, b: string)
    requires a != b && a != SupervisorId && b != SupervisorId
    requires g.edges == [Edge(b, END), Edge(a, b), Edge(b, END)]
    ensures LeadsTo(g, a, b) && LeadsTo(g, b, END) && StaticTargets(g.edges, SupervisorId) == []
  {
    EarlierHeadEdgeTargets(a, b);
    OneTargetLeads(g, a, b);
    assert StaticTargets(g.edges, b) == [END, END];
  }

  /** The run through a graph where `a` and `b` are both chain heads and `a`
      leads to `b`: both consume the caller's input. */
  lemma TwoHeadsRun(g: CompiledGraph, invoke: Call -> Record, sessionId: Option<string>,
                    values: Record, a: string, b: string, fuel: nat)
    requires a != b && a != SupervisorId && b != SupervisorId && a != END && b != END
    requires g.edges == [Edge(b, END), Edge(a, b), Edge(b, END)]
    requires g.branches == [SupervisorId]
    requires SupervisorId in g.nodes && g.nodes[SupervisorId] == SupervisorNode
    requires a in g.nodes && g.nodes[a] == ChainHead && b in g.nodes && g.nodes[b] == ChainHead
    requires Route([values, invoke(SupervisorCall(values))]) == Success(a)
    requires fuel > 2
    ensures var ra := invoke(AgentCall(a, values.input, sessionId));
            var rb := invoke(AgentCall(b, values.input, sessionId));
            Run(g, invoke, sessionId, [values], SupervisorId, fuel)
            == Finished([values, invoke(SupervisorCall(values)), ra, rb])
  {
    EarlierHeadTargets(g, a, b);
    var ra := invoke(AgentCall(a, values.input, sessionId));
    var s1 := [values, invoke(SupervisorCall(values))];
    var s2 := s1 + [ra];
    var rb := invoke(AgentCall(b, values.input, sessionId));
    assert s2[0] == values;
    Hop(g, invoke, sessionId, s2, b, END, fuel - 1 - 1);
    Hop(g, invoke, sessionId, s1, a, b, fuel - 1);
    SupervisorHop(g, invoke, sessionId, values, fuel);
    assert s2 + [rb] == [values, invoke(SupervisorCall(values)), ra, rb];
  }

  /** First registration wins: when an agent `b` is configured on its own
      before a chain `a -> b`, node `b` keeps its chain-head closure, so when
      the run reaches it through `a` it consumes the caller's original input,
      not `a`'s output. */
  lemma EarlierHeadKeepsOriginalInput(a: string, b: string, sessionId: Option<string>,
                                      invoke: Call -> Record, values: Record, fuel: nat)
    requires a != b && a != "" && b != ""
    requires a != SupervisorId && b != SupervisorId && a != END && b != END
    requires Route([values, invoke(SupervisorCall(values))]) == Success(a)
    requires fuel > 2
    ensures var agents := [Agent(Some(b), None), Agent(Some(a), Some(Agent(Some(b), None)))];
            && BuiltGraph(agents).Success?
            && var ra := invoke(AgentCall(a, values.input, sessionId));
               var rb := invoke(AgentCall(b, values.input, sessionId));
               InvokeGraph(Built(agents, sessionId), invoke, values, fuel)
               == Finished([values, invoke(SupervisorCall(values)), ra, rb])
  {
    var agents := [Agent(Some(b), None), Agent(Some(a), Some(Agent(Some(b), None)))];
    EarlierHeadTables(a, b);
    TwoHeadsRun(BuiltGraph(agents).value, invoke, sessionId, values, a, b, fuel);
  }

  /** The router's name is not checked against the registered nodes: a name
      that is not registered hands the run to LangGraph's own handling. */
  /** Scenario: the chain `x -> y -> (no id)`, whose third link's throw is
      swallowed, leaves `y` a dead end of the constructed tables: `y` is
      registered but has neither a static nor a conditional edge, so a run
      that reaches `y` invokes it and then stops where LangGraph decides. */
  lemma CutChainDeadEnd(x: string, y: string, invoke: Call -> Record, sessionId: Option<string>,
                        state: seq<Record>, fuel: nat)
    requires x != "" && y != "" && x != y && y != SupervisorId
    requires |state| > 0 && fuel > 0
    ensures var chain := Agent(Some(x), Some(Agent(Some(y), Some(Agent(None, None)))));
            && BuiltGraph([chain]).Success?
            && var g := BuiltGraph([chain]).value;
               && y in g.nodes && StaticTargets(g.edges, y) == [] && y !in g.branches
               && Run(g, invoke, sessionId, state, y, fuel) == Unmodelled(y)
  {
    var chain := Agent(Some(x), Some(Agent(Some(y), Some(Agent(None, None)))));
    DeepMissingIdIsSwallowed(x, y);
    var g := BuiltGraph([chain]).value;
    BuiltGraphTables([chain]);
    assert IdPrefix(chain) == [x, y];
    assert y in AllChainIds([chain]);
    assert StaticTargets(g.edges, y) == StaticTargets([], y) + [];
    DeadEndStops(g, invoke, sessionId, state, y, fuel);
  }

  /** A registered node with no edge of either kind ends the run where
      LangGraph decides. */
  lemma DeadEndStops(g: CompiledGraph, invoke: Call -> Record, sessionId: Option<string>,
                     state: seq<Record>, node: string, fuel: nat)
    requires |state| > 0 && fuel > 0
    requires node in g.nodes && StaticTargets(g.edges, node) == [] && node !in g.branches
    ensures Run(g, invoke, sessionId, state, node, fuel) == Unmodelled(node)
  {
  }

  lemma UnregisteredRouteLeavesTheModel(agents: seq<Agent>, sessionId: Option<string>, invoke: Call -> Record,
                                        values: Record, name: string, fuel: nat)
    requires BuiltGraph(agents).Success? && SupervisorId !in AllChainIds(agents) && fuel > 1
    requires Route([values, invoke(SupervisorCall(values))]) == Success(name)
    requires name != END && name !in BuiltGraph(agents).value.nodes
    ensures InvokeGraph(Built(agents, sessionId), invoke, values, fuel) == Unmodelled(name)
  {
    SupervisorOnlyRoutes(agents);
    var g := BuiltGraph(agents).value;
    var state := [values, invoke(SupervisorCall(values))];
    SupervisorHop(g, invoke, sessionId, values, fuel);
  }
}
