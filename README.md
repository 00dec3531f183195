# GraphAgentExecutor: a Dafny model

This project models `GraphAgentExecutor`, the executor that builds a
LangGraph `MessageGraph` out of a supervisor agent and chains of agent
executors. The model covers:

- The constructor. It registers a `supervisor` node and wires every
  configured agent chain with `addNextAgent`. It then attaches the
  supervisor's conditional edge and makes `supervisor` the entry point.
- The supervisor's router. It reads `Agent=<name>;` out of the
  supervisor's latest output, or ends the run.
- `addNextAgent`. It registers the nodes of a singly linked chain and adds
  the static edges `agent -> nextAgent` and `last -> END`. It swallows
  duplicate registrations, and also errors raised by links deeper than the
  second.
- The node closures, which give each node its input from the accumulated
  state, and `_call`, which picks the final result.

Modules, one per file:

- `Wrappers` (wrappers.dfy): `Option`, `Result` and a pass/fail `Outcome`.
- `JsText` (js_text.dfy): JavaScript's `includes`, and `split` with a
  non-empty separator. Joining the pieces of `split` with the separator is
  proved to give back the text, and no piece is proved to hold the separator.
  Those two facts alone do not fix the pieces for a separator that overlaps
  itself (`"aa"` in `"aaa"`); the leftmost scan is proved for the first two
  pieces, which is all the router reads, and its separators `Agent=` and `;`
  cannot overlap themselves.
- `MessageGraphs` (message_graph.dfy): the builder's tables as a class with
  in-place methods: a node table, the static edges, the sources of
  conditional edges, and the entry point. `END` is LangGraph's string
  `"__end__"`. `addNode` refuses an id that is already present.
- `Router` (router.dfy): the accumulated state (`seq<Record>`) and the
  supervisor's router. The routed name is characterised without `split`:
  it starts right after the first `Agent=`, contains no `;` and no further
  `Agent=`, and stops at a `;`, at the next `Agent=`, or at the end.
- `NodeClosures` (node_closures.dfy): the call each kind of node makes on
  the state, and `_call`'s result selection.
- `ChainWiring` (chain_wiring.dfy): `addNextAgent`.
  - `Wire` is the function on the tables.
  - `AddNextAgent` is the imperative method on a live `MessageGraph`,
    proved equal to `Wire`.
- `Executor` (executor.dfy): the constructor.
  - `WireAll` and `BuiltGraph` are the specification.
  - `New` is the method with the `forEach` loop, proved against them.
- `GraphRun` (graph_run.dfy): an abstract run of a compiled graph, used to
  state what the wiring means when the graph executes.

Behaviour of the code that the model makes explicit:

- **First registration wins.** A node keeps the closure it was first
  registered with. Agent `b` may be configured on its own before a chain
  `a -> b`. Then `b` stays a chain head and consumes the caller's original
  input, even when the run reaches it through `a`. So a downstream link
  does not always consume the latest output: which input it gets depends on
  registration order. The model follows the code here.
- **`addNextAgent` throws only near the front.** The constructor's wiring
  throws when a chain's own agent or its second link has no `nodeId`. On
  the third or a later link, the error is raised inside the `try` around
  the recursive call and swallowed. The chain is then cut silently in the
  tables handed to `compile()`: its last wired link gets no edge to `END`
  and no conditional edge, so it is a dead end. Whether `compile()` then
  accepts the graph is LangGraph's decision (see "Left out").
- **The routed name is unchecked.** The router's result is not compared
  with the registered node ids. An unregistered name hands the run to
  LangGraph's own handling.

## Model

| member | source | states |
|---|---|---|
| `JsText.IndexFrom` | packages/components/src/graph.ts:46 | the result is the first occurrence of the pattern at or after the start position; `None` means there is no occurrence from there on |
| `JsText.Split` | packages/components/src/graph.ts:48 | `split` returns at least one piece, and more than one exactly when the separator occurs |
| `JsText.SplitJoin` | packages/components/src/graph.ts:48 | joining the pieces of `split` with the separator gives back the text |
| `JsText.SplitPiecesFree` | packages/components/src/graph.ts:48 | no piece returned by `split` contains the separator |
| `MessageGraphs.Register` | packages/components/src/graph.ts:83-99 | registering an id adds exactly that id, keeps every earlier registration, and binds the new kind only when the id is new |
| `MessageGraphs.MessageGraph.constructor` | packages/components/src/graph.ts:33 | a new graph has no nodes, no edges, no conditional edges and no entry point |
| `MessageGraphs.MessageGraph.AddNode` | packages/components/src/graph.ts:61-78 | reports success exactly when the id was absent; the node table becomes `Register` of the old one; the other tables are unchanged |
| `MessageGraphs.MessageGraph.AddEdge` | packages/components/src/graph.ts:101-111 | appends exactly one static edge and changes nothing else |
| `MessageGraphs.MessageGraph.AddConditionalEdges` | packages/components/src/graph.ts:42 | records one more conditional-edge source and changes nothing else |
| `MessageGraphs.MessageGraph.SetEntryPoint` | packages/components/src/graph.ts:54 | sets the entry point and changes nothing else |
| `Router.Route` | packages/components/src/graph.ts:42-52 | the router reads only the last record's `output`: it fails exactly when that output is absent; text without `Agent=` routes to `END`; text with it routes to the characters from just after the first `Agent=` up to the first `;`, the next `Agent=` or the end, whatever they name |
| `Router.ExtractNameDelimited` | packages/components/src/graph.ts:46-49 | the routed name starts right after the first `Agent=`, contains no `;` and no further `Agent=`, and stops at a `;`, at the next `Agent=` or at the end of the text |
| `Router.NameSpanUnique` | packages/components/src/graph.ts:48 | at most one span of a text fits that description, so the router's contract fixes the routed name |
| `Router.SecondPiece` | packages/components/src/graph.ts:48 | the second piece of `split` is the text between the first separator and the next separator, or the end |
| `Router.NameUpTo` | packages/components/src/graph.ts:48 | for text that opens with `Agent=`, when no `;` and no further `Agent=` starts before position `e`, and `e` is the end, a `;` or the next `Agent=`, the name runs up to `e` |
| `Router.LeadingMarker` | packages/components/src/graph.ts:45-49 | a message that opens with `Agent=<name>;` routes to `<name>` whatever follows the `;`, when the name holds no `;` and no `Agent=` |
| `Router.RouteWithInstructions` | packages/components/src/graph.ts:45-49 | `Agent=toolAgent_0; Be brief.` routes to `toolAgent_0`: a capital `A` in the name and instructions after the `;` do not matter |
| `Router.RouteDirectAnswer` | packages/components/src/graph.ts:51 | an answer without the marker routes to `END` |
| `Router.RouteStopsAtNextMarker` | packages/components/src/graph.ts:48 | without a `;`, the name stops at the second `Agent=` |
| `ChainWiring.Wire` | packages/components/src/graph.ts:58-113 | `addNextAgent` throws exactly when the agent or its immediate successor has no id, and the error is then "missing node id"; it never drops a registration or an edge that was already there |
| `ChainWiring.IdPrefix` | packages/components/src/graph.ts:80-105 | the ids a chain registers are non-empty and start at the agent's own id; the list is empty exactly when the agent has no id |
| `ChainWiring.LinkEdges` | packages/components/src/graph.ts:101-105 | one edge from each id to the next one |
| `ChainWiring.WireEdges` | packages/components/src/graph.ts:80-112 | the edges added are exactly link to link in chain order, then last link to `END` when every link has an id; a missing id further down cuts the chain and its `END` edge |
| `ChainWiring.WireKeys` | packages/components/src/graph.ts:61-99 | exactly the chain's ids up to the first link without an id are added to the node table |
| `ChainWiring.WireHead` | packages/components/src/graph.ts:61-78 | an agent not registered before becomes a chain head |
| `ChainWiring.WireLinks` | packages/components/src/graph.ts:84-105 | each later link not registered before, and not the agent itself, becomes a chain link |
| `ChainWiring.WireNodes` | packages/components/src/graph.ts:61-105 | the node table gains exactly the chain's ids; an earlier registration is kept, and a fresh head and fresh links get the head and link closures |
| `ChainWiring.AddNextAgent` | packages/components/src/graph.ts:58-113 | the method leaves the live graph's tables and its outcome exactly as `Wire` says, and does not touch the conditional edges or the entry point |
| `Executor.WireAll` | packages/components/src/graph.ts:38-40 | the `forEach` over agents either passes or fails with "missing node id", and never drops earlier tables |
| `Executor.WireAllPasses` | packages/components/src/graph.ts:38-40 | the loop runs to the end exactly when no configured chain throws |
| `Executor.BuiltGraph` | packages/components/src/graph.ts:29-55 | the tables handed to `compile()`: wiring fails, with "missing node id", exactly when some chain's agent or its second link lacks an id; on success the entry point is `supervisor`, `supervisor` is registered as the supervisor node, and it carries the only conditional edge |
| `Executor.New` | packages/components/src/graph.ts:27-56 | the constructor, with absent `agents` read as none, yields the executor holding `BuiltGraph` of its agents and session id, or throws the wiring error |
| `Executor.NoAgentsOnlySupervisor` | packages/components/src/graph.ts:29-55 | with no agents, `supervisor` is the only node and there are no static edges |
| `Executor.SecondLinkMissingIdThrows` | packages/components/src/graph.ts:80-81 | a second link without an id makes construction throw |
| `Executor.CutChainEdges` | packages/components/src/graph.ts:101-111 | the chain `x -> y -> (no id)` contributes only the edge `x -> y` |
| `Executor.DeepMissingIdIsSwallowed` | packages/components/src/graph.ts:101-108 | a third link without an id is swallowed: the wiring succeeds and the only edge handed to `compile()` is `x -> y`, leaving `y` without an edge to `END` |
| `GraphRun.CutChainDeadEnd` | packages/components/src/graph.ts:101-111 | in that cut chain `y` is registered but has no static and no conditional edge, so a run reaching `y` stops at a point LangGraph decides |
| `Executor.BuiltGraphTables` | packages/components/src/graph.ts:33-40 | a constructed graph registers exactly `supervisor` and the chains' ids, and its static edges are the chains' edges, chain after chain |
| `Executor.WireAllNodes` | packages/components/src/graph.ts:38-40 | the loop adds exactly the ids of every chain to the node table |
| `Executor.WireAllEdges` | packages/components/src/graph.ts:38-40 | the loop appends each chain's edges in configuration order |
| `GraphRun.Run` | packages/components/src/graph.ts:121-122 | a finished run keeps the records it was given as a prefix and appends at least one and at most `fuel` records |
| `GraphRun.CallGraph` | packages/components/src/graph.ts:120-133 | `_call` resolves exactly when the run finishes, and rejects with the run's outcome otherwise; a finished run holds the caller's values and at least one appended record, and `_call` resolves to the last record, never to `undefined` |
| `GraphRun.RunReplays` | packages/components/src/graph.ts:35-96 | every record a finished run appends is what the closure of some registered node returns on the state before that record |
| `GraphRun.RunInputSources` | packages/components/src/graph.ts:35-91 | every appended record answers one of three calls: the supervisor called with the caller's first record, a chain head called with that record's `input`, or a chain link called with the previous record's `output` (the first record's `input` when no record came before) |
| `GraphRun.StaticTargetsMembers` | packages/components/src/graph.ts:104 | the targets read for a node are exactly the ends of the static edges leaving it |
| `GraphRun.ChainRun` | packages/components/src/graph.ts:84-96 | a run entering a wired chain visits its nodes in order and appends one record per node, each link consuming the output of the record before it |
| `GraphRun.ChainEdgeSources` | packages/components/src/graph.ts:101-111 | every static edge of a constructed graph leaves one of the chains' nodes |
| `GraphRun.SupervisorOnlyRoutes` | packages/components/src/graph.ts:35-55 | unless a chain registers `supervisor`, no static edge leaves the supervisor, so only its router decides |
| `GraphRun.SupervisorHop` | packages/components/src/graph.ts:35-52 | the first hop invokes the supervisor with the caller's values, then ends, fails or moves on according to the router's verdict on the two records |
| `GraphRun.DirectAnswerEndsRun` | packages/components/src/graph.ts:42-52 | a supervisor answer without the marker ends the run after one hop, and `_call` returns the supervisor's record |
| `GraphRun.SingleChainRun` | packages/components/src/graph.ts:58-113 | with one complete chain of distinct ids, routing to its head runs every link in order: the head takes the caller's input, each later link takes the previous output, and `_call` returns the last link's record |
| `GraphRun.EarlierHeadTables` | packages/components/src/graph.ts:61-99 | a lone agent `b` configured before a chain `a -> b` leaves both `a` and `b` as chain heads, and `b -> END` is wired twice |
| `GraphRun.EarlierHeadKeepsOriginalInput` | packages/components/src/graph.ts:62-91 | first registration wins: `b`, reached through `a`, consumes the caller's original input and not `a`'s output |
| `GraphRun.UnregisteredRouteLeavesTheModel` | packages/components/src/graph.ts:46-49 | a routed name that is not registered is not rejected by the executor; the run reaches LangGraph's own handling of that name |

## Left out

- LangGraph's `MessageGraph` internals are not modelled:
  - `compile()`'s validation, for example of unknown edge targets, unreachable or dead-end nodes, or a reserved name used as a node id, is left out: `compile()` is modelled as a snapshot of the tables;
  - `addEdge` is modelled as always succeeding;
  - `addNode` is modelled only as refusing an id that is already present.
- `Executor.BuiltGraph` and `Executor.DeepMissingIdIsSwallowed` describe the tables before `compile()`, not whether `compile()` accepts them: LangGraph's dead-end check may make `compile()` reject a chain cut by a missing id on its third or a later link (`GraphRun.CutChainDeadEnd` shows that the cut leaves such a dead end), so such a configuration may throw after all, with LangGraph's error instead of "missing node id".
- The execution loop `graph.invoke` is replaced by `GraphRun.Run`:
  - hops are bounded by fuel, which stands in for the library's recursion limit;
  - a run reaching an unregistered node, or a node whose static edges do not all lead to one target, ends in `Unmodelled`, because the library decides what happens there;
  - the message-state reducer is modelled as appending the one record each node returns.
- The executors behind the nodes (`AgentExecutor.invoke`, the supervisor, the LLM, tools, memory and sockets) are an uninterpreted parameter `invoke` of the run.
- Promise wrapping, callbacks, `_runManager` and `_config` in `_call` are left out. A run that does not finish in the model (router error, a node the model leaves to the library, fuel used up) is a `Failure` carrying that outcome.
- Executors that throw or reject are not represented: `invoke` is a total function, so the `.catch(reject)` path of `_call` (packages/components/src/graph.ts:131-133) is reached in the model only through the run's own outcomes.
- Cyclic chains are not represented: `Agent` is an inductive datatype, so every chain is finite. In the source `nextAgent` is an object reference; for a cycle, `addNextAgent` recurses and adds an edge at each level until the engine's stack overflows, and the `try` blocks around the recursion (packages/components/src/graph.ts:101-108) swallow that error. The model promises nothing about such configurations.
- `NodeClosures.NodeCall` and `NodeClosures.CallResult` carry no contract of their own: each is a selection whose contract could only repeat it. `GraphRun.RunReplays`, `GraphRun.RunInputSources` and `GraphRun.CallGraph` state what they mean for a run.
- Agents are identified by their node id, not by object identity.
- The constructor's `chatId`, `input` (the token provider) and `isXML` fields are left out, because the graph does not use them. `sessionId` is modelled and passed to every agent call.
- `_chainType`, `inputKeys` and `outputKeys` (packages/components/src/graph.ts:137-147) return constants and are not modelled.
- `split` and `includes` are modelled only for non-empty string separators and without a limit, which is how the router calls them.
