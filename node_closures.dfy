/** The closures graph.ts registers as nodes, reduced to the call each one
    makes, and `_call`'s choice of the final result. */
module NodeClosures {
  import opened Wrappers
  import opened MessageGraphs
  import opened Router

  /** What a node passes to its executor: the supervisor gets the first
      record itself, an agent gets `{ input, sessionId }`. */
  datatype Call =
    | SupervisorCall(values: Record)
    | AgentCall(nodeId: string, input: Option<string>, sessionId: Option<string>)

  /** The call the node bound to `id` makes on the accumulated `state`. */
  function NodeCall(kind: NodeKind, id: string, state: seq<Record>, sessionId: Option<string>): Call
    requires |state| > 0
  {
    match kind
    case SupervisorNode => SupervisorCall(state[0])
    case ChainHead => AgentCall(id, state[0].input, sessionId)
    case ChainLink =>
      AgentCall(id, if |state| > 1 then state[|state| - 1].output else state[0].input, sessionId)
  }

  /** What `graph.invoke` resolves to: an array, a single value, or `undefined`. */
  datatype Value = RecordValue(rec: Record) | ArrayValue(items: seq<Value>) | Undefined

  /** `_call`: an array result is replaced by its last element (`undefined`
      when the array is empty); anything else is passed through. */
  function CallResult(res: Value): Value {
    if res.ArrayValue? then
      if |res.items| > 0 then res.items[|res.items| - 1] else Undefined
    else res
  }

  function AsValues(state: seq<Record>): (vs: seq<Value>)
    ensures |vs| == |state|
    ensures forall k :: 0 <= k < |state| ==> vs[k] == RecordValue(state[k])
  {
    if state == [] then [] else AsValues(state[..|state| - 1]) + [RecordValue(state[|state| - 1])]
  }

  /** `_call` on a final state hands back the record appended last, and on a
      single record leaves it as it is. */
  lemma CallResultPicksLast(state: seq<Record>, r: Record)
    requires |state| > 0
    ensures CallResult(ArrayValue(AsValues(state))) == RecordValue(state[|state| - 1])
    ensures CallResult(ArrayValue(AsValues(state + [r]))) == RecordValue(r)
    ensures CallResult(RecordValue(r)) == RecordValue(r)
    ensures CallResult(ArrayValue([])) == Undefined
  {
  }
}
