/** The tree executor with its running flag, and the node context that
    decorators and composites are built around. */
module Executor {
  import opened Numeric
  import opened BehaviorTree
  import Blackboard

  /** How the root's execution ends: a status, or an exception that the
      executor lets propagate. */
  datatype Outcome = Completed(status: Status) | Raised(error: string)

  /** The executor: its tree's root (None for a null tree or a null root)
      and the IsRunning flag. */
  datatype Executor = Executor(root: Option<Node>, isRunning: bool)

  /** A new executor is not running. */
  function NewExecutor(root: Option<Node>): (e: Executor)
    ensures e.root == root && !e.isRunning
  {
    Executor(root, false)
  }

  /** One ExecuteAsync call: the outcome, the value IsRunning has while the
      root executes (None when the root is never executed) and the executor
      afterwards. */
  datatype Run = Run(outcome: Outcome, runningDuring: Option<bool>, after: Executor)

  /** ExecuteAsync. `fault` is the exception the root raises this tick, if
      any; otherwise the root returns its evaluated status. The flag is set
      before the root runs and cleared in a finally block. */
  function ExecuteAsync(e: Executor, fault: Option<string>): (r: Run)
    ensures e.root.None? ==> r == Run(Completed(Failure), None, e)
    ensures e.root.Some? ==> r.runningDuring == Some(true) && !r.after.isRunning
    ensures e.root.Some? && fault.None? ==> r.outcome == Completed(Eval(e.root.value).status)
    ensures e.root.Some? && fault.Some? ==> r.outcome == Raised(fault.value)
    ensures r.after.root == e.root
  {
    match e.root
    case None => Run(Completed(Failure), None, e)
    case Some(root) =>
      var during := e.(isRunning := true);
      var outcome := if fault.Some? then Raised(fault.value) else Completed(Eval(root).status);
      Run(outcome, Some(during.isRunning), during.(isRunning := false))
  }

  /** Runs a series of ticks, each with its own fault, and returns the
      executor afterwards. */
  function ExecuteMany(e: Executor, faults: seq<Option<string>>): Executor
    decreases |faults|
  {
    if |faults| == 0 then e else ExecuteMany(ExecuteAsync(e, faults[0]).after, faults[1..])
  }

  /** Between calls the executor is never running: the flag starts false and
      every call, returning or throwing, leaves it false. */
  lemma {:induction false} NeverRunningBetweenCalls(root: Option<Node>, faults: seq<Option<string>>)
    ensures !ExecuteMany(NewExecutor(root), faults).isRunning
  {
    if |faults| > 0 {
      var e1 := ExecuteAsync(NewExecutor(root), faults[0]).after;
      assert e1 == NewExecutor(root);
      NeverRunningBetweenCalls(root, faults[1..]);
    }
  }

  // ---------------------------------------------------------------------
  // NodeContext

  /** The default node id, the class's type name. */
  const ContextTypeName: string := "NodeContext"

  /** A node context: the blackboard (None for null), the children (which
      may include nulls, as a List<Node> can), the first child, the id. */
  datatype NodeContext = NodeContext(board: Option<Blackboard.Board>,
                                     children: seq<Option<Node>>,
                                     child: Option<Node>,
                                     nodeId: string)

  /** `nodeId ?? GetType().Name`: only null is replaced, an empty id stays. */
  function IdOrDefault(nodeId: Option<string>): (r: string)
    ensures nodeId.Some? ==> r == nodeId.value
    ensures nodeId.None? ==> r == ContextTypeName
  {
    match nodeId
    case Some(id) => id
    case None => ContextTypeName
  }

  /** The blackboard-only constructor. */
  function ContextOf(board: Option<Blackboard.Board>, nodeId: Option<string>): (c: NodeContext)
    ensures c.children == [] && c.child.None?
    ensures c.board == board && c.nodeId == IdOrDefault(nodeId)
  {
    NodeContext(board, [], None, IdOrDefault(nodeId))
  }

  /** The list constructor: a null list gives no children; the child is the
      first element, or null for an empty list. */
  function ContextWithChildren(board: Option<Blackboard.Board>,
                               children: Option<seq<Option<Node>>>,
                               nodeId: Option<string>): (c: NodeContext)
    ensures children.None? ==> c.children == [] && c.child.None?
    ensures children.Some? ==> c.children == children.value
    ensures children.Some? && |children.value| > 0 ==> c.child == children.value[0]
    ensures children.Some? && |children.value| == 0 ==> c.child.None?
    ensures c.board == board && c.nodeId == IdOrDefault(nodeId)
  {
    match children
    case None => NodeContext(board, [], None, IdOrDefault(nodeId))
    case Some(cs) =>
      NodeContext(board, cs, if |cs| > 0 then cs[0] else None, IdOrDefault(nodeId))
  }

  /** The single-child constructor: a null child gives no children. */
  function ContextWithChild(board: Option<Blackboard.Board>, child: Option<Node>,
                            nodeId: Option<string>): (c: NodeContext)
    ensures child.Some? ==> c.children == [child]
    ensures child.None? ==> c.children == []
    ensures c.child == child
    ensures c.board == board && c.nodeId == IdOrDefault(nodeId)
  {
    NodeContext(board, if child.Some? then [child] else [], child, IdOrDefault(nodeId))
  }

  /** Every constructor gives a context whose child is its first child,
      or null when it has none. */
  predicate ChildIsFirst(c: NodeContext) {
    if |c.children| > 0 then c.child == c.children[0] else c.child.None?
  }

  /** The single-child constructor agrees with the list constructor on the
      one-element list and with the blackboard-only one on a null child, and
      all three constructors keep the child equal to the first child. */
  lemma ContextConstructorsAgree(board: Option<Blackboard.Board>, child: Option<Node>,
                                 children: Option<seq<Option<Node>>>, nodeId: Option<string>)
    ensures child.Some? ==>
      ContextWithChild(board, child, nodeId) == ContextWithChildren(board, Some([child]), nodeId)
    ensures child.None? ==> ContextWithChild(board, child, nodeId) == ContextOf(board, nodeId)
    ensures ChildIsFirst(ContextOf(board, nodeId))
    ensures ChildIsFirst(ContextWithChildren(board, children, nodeId))
    ensures ChildIsFirst(ContextWithChild(board, child, nodeId))
  {
  }
}
