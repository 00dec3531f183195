/** The part of LangGraph's `MessageGraph` builder that graph.ts drives:
    a node table, the static edges, the sources of conditional edges and
    the entry point. The graph's own validation and execution are not part
    of this module. */
module MessageGraphs {
  import opened Wrappers

  /** LangGraph's terminal marker, the string value of its `END` constant. */
  const END: string := "__end__"

  /** Which closure a node id is bound to; each kind derives its input from
      the accumulated state differently. */
  datatype NodeKind =
    | SupervisorNode  // invokes the supervisor with the first record
    | ChainHead       // registered as `agent`: consumes the original input
    | ChainLink       // registered as `nextAgent`: consumes the latest output

  datatype Edge = Edge(from: string, to: string)

  /** What `compile()` freezes. */
  datatype CompiledGraph = CompiledGraph(
    nodes: map<string, NodeKind>,
    edges: seq<Edge>,
    branches: seq<string>,
    entryPoint: Option<string>)

  /** The node table after `addNode(id, kind)`: a duplicate id is refused,
      so the first registration of an id is the one that stays. */
  function Register(nodes: map<string, NodeKind>, id: string, kind: NodeKind): (r: map<string, NodeKind>)
    ensures r.Keys == nodes.Keys + {id}
    ensures forall x :: x in nodes ==> x in r && r[x] == nodes[x]
    ensures id !in nodes ==> r[id] == kind
  {
    if id in nodes then nodes else nodes[id := kind]
  }

  /** Appending edge lists is associative. */
  lemma AppendAssoc(x: seq<Edge>, y: seq<Edge>, z: seq<Edge>)
    ensures x + (y + z) == (x + y) + z
  {
  }

  class MessageGraph {
    var nodes: map<string, NodeKind>
    var edges: seq<Edge>
    var branches: seq<string>
    var entryPoint: Option<string>

    constructor ()
      ensures nodes == map[] && edges == [] && branches == [] && entryPoint == None
    {
      nodes, edges, branches, entryPoint := map[], [], [], None;
    }

    /** `addNode`; `added` is false where the library throws because the id is
        already present. */
    method AddNode(id: string, kind: NodeKind) returns (added: bool)
      modifies this
      ensures added <==> id !in old(nodes)
      ensures nodes == Register(old(nodes), id, kind)
      ensures edges == old(edges) && branches == old(branches) && entryPoint == old(entryPoint)
    {
      added := id !in nodes;
      if added {
        nodes := nodes[id := kind];
      }
    }

    /** `addEdge(from, to)`: every call adds one more static edge. */
    method AddEdge(from: string, to: string)
      modifies this
      ensures edges == old(edges) + [Edge(from, to)]
      ensures nodes == old(nodes) && branches == old(branches) && entryPoint == old(entryPoint)
    {
      edges := edges + [Edge(from, to)];
    }

    /** `addConditionalEdges(from, router)`. */
    method AddConditionalEdges(from: string)
      modifies this
      ensures branches == old(branches) + [from]
      ensures nodes == old(nodes) && edges == old(edges) && entryPoint == old(entryPoint)
    {
      branches := branches + [from];
    }

    /** `setEntryPoint(id)`. */
    method SetEntryPoint(id: string)
      modifies this
      ensures entryPoint == Some(id)
      ensures nodes == old(nodes) && edges == old(edges) && branches == old(branches)
    {
      entryPoint := Some(id);
    }

    /** `compile()`: an immutable snapshot of the tables. */
    function Compile(): CompiledGraph
      reads this
    {
      CompiledGraph(nodes, edges, branches, entryPoint)
    }
  }
}
