/** The scheduler-framework filter plugin that enforces the reinforcement-
    learning agent's choice (scheduler/framework/plugins/dqn/dqn.go).

    For every candidate node the plugin asks the agent which node the pod
    should go to and lets through only that node.  The HTTP exchange is
    replaced by its outcome, an `Answer`: the text of the response body, or
    a transport error.  Logging is not modelled. */
module DqnFilter {
  import Wrappers

  type Option<T> = Wrappers.Option<T>

  /** The status codes `Filter` returns. */
  datatype Code = Success | Error | UnschedulableAndUnresolvable

  datatype Status = Status(code: Code, reason: string)

  /** `ErrReason`, spelled as in the plugin. */
  const ErrReason: string := "This node is not the result given by the RL scheudler"

  /** The answer that means "no decision: let every node through". */
  const NoDecision: string := "error"

  /** A cluster node, as far as the filter looks at it. */
  datatype Node = Node(name: string)

  /** `DQNPlugin`: the cached choice (the framework handle is not used). */
  datatype Plugin = Plugin(choose: string)

  /** How the POST to the agent ended. */
  datatype Answer = Body(text: string) | TransportError

  /** What a call of `Filter` does: return a status, or crash the
      scheduler goroutine. */
  datatype Outcome = Returned(status: Status) | Panicked

  /** `New`: the plugin starts with no choice. */
  function New(): (p: Plugin)
    ensures p.choose == ""
  {
    Plugin("")
  }

  /** The decision once the choice is known. */
  function Decide(node: Node, choice: string): (s: Status)
    ensures s.code == Success <==> choice == NoDecision || node.name == choice
    ensures s.code != Success ==> s == Status(UnschedulableAndUnresolvable, ErrReason)
  {
    if choice == NoDecision then Status(Success, "")
    else if node.name == choice then Status(Success, "")
    else Status(UnschedulableAndUnresolvable, ErrReason)
  }

  /** `Filter` as written: on a transport error the response is nil and
      reading its body dereferences nil, so the call panics instead of
      falling back to "error". */
  function FilterAsWritten(p: Plugin, node: Option<Node>, answer: Answer): (r: Outcome)
    ensures node.None? ==> r == Returned(Status(Error, "node not find"))
    ensures node.Some? && p.choose == "" && answer.TransportError? ==> r.Panicked?
    ensures node.Some? && p.choose == "" && answer.Body? ==> r == Returned(Decide(node.value, answer.text))
  {
    if node.None? then Returned(Status(Error, "node not find"))
    else if p.choose == "" then
      match answer
      case TransportError => Panicked
      case Body(text) => Returned(Decide(node.value, text))
    else Returned(Decide(node.value, p.choose))
  }

  /** The choice `Filter` acts on: the cached one, else the fetched one,
      with a failed fetch read as "error". */
  function Choice(p: Plugin, answer: Answer): (c: string)
    ensures p.choose != "" ==> c == p.choose
    ensures p.choose == "" && answer.TransportError? ==> c == NoDecision
    ensures p.choose == "" && answer.Body? ==> c == answer.text
  {
    if p.choose != "" then p.choose
    else match answer
      case TransportError => NoDecision
      case Body(text) => text
  }

  /** `Filter` as its log messages say it is meant to behave: a missing node
      is an error; otherwise the node passes iff the choice is "error" or
      names it.  The receiver is a copy, so the plugin it is called on is
      returned unchanged: nothing fetched is remembered for the next call. */
  function Filter(p: Plugin, node: Option<Node>, answer: Answer): (r: (Plugin, Status))
    ensures r.0 == p
    ensures node.None? ==> r.1 == Status(Error, "node not find")
    ensures node.Some? ==> (r.1.code == Success <==>
                              Choice(p, answer) == NoDecision || node.value.name == Choice(p, answer))
  {
    if node.None? then (p, Status(Error, "node not find"))
    else (p, Decide(node.value, Choice(p, answer)))
  }

  /** The two agree whenever the plugin as written does not crash. */
  lemma FilterRefinesAsWritten(p: Plugin, node: Option<Node>, answer: Answer)
    ensures FilterAsWritten(p, node, answer).Returned? ==>
              FilterAsWritten(p, node, answer).status == Filter(p, node, answer).1
  {
  }

  /** The crash: a fresh plugin, any node, an unreachable agent. */
  lemma TransportErrorPanics(name: string)
    ensures FilterAsWritten(New(), Wrappers.Some(Node(name)), TransportError) == Panicked
    ensures Filter(New(), Wrappers.Some(Node(name)), TransportError).1.code == Success
  {
  }

  /** With the agent unreachable or answering "error", every node passes. */
  lemma NoDecisionPassesAll(node: Node, answer: Answer)
    requires answer == TransportError || answer == Body(NoDecision)
    ensures Filter(New(), Wrappers.Some(node), answer).1 == Status(Success, "")
  {
  }

  /** With a real answer, at most one node of distinct names passes: any
      two that pass carry the same name, the one the agent chose. */
  lemma AtMostOnePasses(p: Plugin, a: Node, b: Node, answer: Answer)
    requires Choice(p, answer) != NoDecision
    requires Filter(p, Wrappers.Some(a), answer).1.code == Success
    requires Filter(p, Wrappers.Some(b), answer).1.code == Success
    ensures a.name == b.name == Choice(p, answer)
  {
  }

  /** Calls never change the plugin, so starting from `New` every call
      fetches afresh: over any sequence of calls each node's status depends
      on its own answer only. */
  lemma {:induction false} EveryCallFetches(calls: seq<(Option<Node>, Answer)>)
    ensures FilterAll(New(), calls).0 == New()
    ensures |FilterAll(New(), calls).1| == |calls|
    ensures forall i :: 0 <= i < |calls| ==>
              FilterAll(New(), calls).1[i] == Filter(New(), calls[i].0, calls[i].1).1
    decreases |calls|
  {
    if |calls| > 0 {
      EveryCallFetches(calls[..|calls| - 1]);
    }
  }

  /** A sequence of `Filter` calls on one plugin value, threading the plugin
      through as the framework would. */
  function FilterAll(p: Plugin, calls: seq<(Option<Node>, Answer)>): (r: (Plugin, seq<Status>))
    decreases |calls|
  {
    if |calls| == 0 then (p, [])
    else
      var (q, done) := FilterAll(p, calls[..|calls| - 1]);
      var (q', s) := Filter(q, calls[|calls| - 1].0, calls[|calls| - 1].1);
      (q', done + [s])
  }
}
