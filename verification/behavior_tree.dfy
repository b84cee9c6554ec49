/** The behaviour-tree runtime: a closed tree of composites over action
    leaves, evaluated for one tick. A tick's result records the status and
    the identifiers of the leaves that executed, in execution order, which
    is how "children run in list order" and "no later child runs" are
    stated. An action leaf stands for any game action; its status for this
    tick is part of the tree. */
module BehaviorTree {
  import opened Numeric
  import opened Aggregation

  datatype Status = Success | Failure | Running

  /** Parallel.Policy. */
  datatype Policy = RequireOne | RequireAll

  /** ScoreAggregationType. */
  datatype ScoreAggregation = Average | MinScore | MaxScore | Multiply

  datatype Node =
    | Action(id: nat, typeName: string, status: Status)
    | Sequence(children: seq<Node>)
    | Selector(children: seq<Node>)
    | Parallel(policy: Policy, children: seq<Node>)
    | UtilitySelector(options: seq<Scorer>)
    | Scored(scorer: Scorer)

  /** A UtilityScorer decorator: its child, the scores its considerations
      yield this tick (None for a null list), the aggregation and the name. */
  datatype Scorer = Scorer(child: Node, considerations: Option<seq<real>>,
                           aggregation: ScoreAggregation, name: string)

  /** The outcome of one tick: a status and the leaves executed, in order. */
  datatype Tick = Tick(status: Status, trace: seq<nat>)

  /** The executed leaves of consecutive ticks, in order. */
  function Traces(ts: seq<Tick>): seq<nat>
  {
    if |ts| == 0 then [] else ts[0].trace + Traces(ts[1..])
  }

  /** Index of the first tick whose status is not `pass`, or |ts| if none. */
  function FirstNot(ts: seq<Tick>, pass: Status): (k: nat)
    ensures k <= |ts|
    ensures forall i :: 0 <= i < k ==> ts[i].status == pass
    ensures k < |ts| ==> ts[k].status != pass
  {
    if |ts| == 0 then 0
    else if ts[0].status != pass then 0
    else 1 + FirstNot(ts[1..], pass)
  }

  /** The number of children a short-circuiting composite executes. */
  function Executed(ts: seq<Tick>, pass: Status): (n: nat)
    ensures n <= |ts|
  {
    var k := FirstNot(ts, pass);
    if k < |ts| then k + 1 else |ts|
  }

  /** The foreach loop shared by Sequence (pass = Success) and Selector
      (pass = Failure): run the children in order and return the first
      status that is not `pass`; if every child passes, return `pass`. */
  function ShortCircuit(ts: seq<Tick>, pass: Status): (r: Tick)
    ensures FirstNot(ts, pass) < |ts| ==> r.status == ts[FirstNot(ts, pass)].status
    ensures FirstNot(ts, pass) == |ts| ==> r.status == pass
    ensures r.trace == Traces(ts[..Executed(ts, pass)])
  {
    if |ts| == 0 then Tick(pass, [])
    else if ts[0].status != pass then
      assert ts[..1][1..] == [];
      Tick(ts[0].status, ts[0].trace)
    else
      var rest := ShortCircuit(ts[1..], pass);
      assert ts[..Executed(ts, pass)][1..] == ts[1..][..Executed(ts[1..], pass)];
      Tick(rest.status, ts[0].trace + rest.trace)
  }

  /** Parallel.Execute once every child has run: the policy is checked
      first, then any Running child makes the result Running. */
  function ParallelOf(policy: Policy, ts: seq<Tick>): (r: Tick)
    ensures r.trace == Traces(ts)
  {
    var anySuccess := exists i :: 0 <= i < |ts| && ts[i].status == Success;
    var allSuccess := forall i :: 0 <= i < |ts| ==> ts[i].status == Success;
    var anyRunning := exists i :: 0 <= i < |ts| && ts[i].status == Running;
    var status :=
      if policy == RequireOne && anySuccess then Success
      else if policy == RequireAll && allSuccess then Success
      else if anyRunning then Running
      else Failure;
    Tick(status, Traces(ts))
  }

  /** Index of the highest score; ties go to the earliest, which is what a
      stable OrderByDescending followed by First selects. */
  function BestIndex(scores: seq<real>): (k: nat)
    requires |scores| > 0
    ensures k < |scores|
    ensures forall i :: 0 <= i < |scores| ==> scores[i] <= scores[k]
    ensures forall i :: 0 <= i < k ==> scores[i] < scores[k]
  {
    if |scores| == 1 then 0
    else
      var k := BestIndex(scores[..|scores| - 1]);
      if scores[|scores| - 1] > scores[k] then |scores| - 1 else k
  }

  /** UtilityScorer.GetScore: 0 for a null or empty consideration list,
      otherwise the aggregate computed inline with LINQ. */
  function GetScore(s: Scorer): real
  {
    match s.considerations
    case None => 0.0
    case Some(cs) =>
      if |cs| == 0 then 0.0
      else match s.aggregation
        case Average => Sum(cs) / (|cs| as real)
        case MinScore => SeqMin(cs)
        case MaxScore => SeqMax(cs)
        case Multiply => Product(cs)
  }

  function Scores(options: seq<Scorer>): (r: seq<real>)
    ensures |r| == |options|
    ensures forall i :: 0 <= i < |options| ==> r[i] == GetScore(options[i])
  {
    seq(|options|, i requires 0 <= i < |options| => GetScore(options[i]))
  }

  /** One tick of a node. */
  function Eval(n: Node): Tick
    decreases n
  {
    match n
    case Action(id, _, status) => Tick(status, [id])
    case Sequence(cs) =>
      ShortCircuit(seq(|cs|, i requires 0 <= i < |cs| => Eval(cs[i])), Success)
    case Selector(cs) =>
      ShortCircuit(seq(|cs|, i requires 0 <= i < |cs| => Eval(cs[i])), Failure)
    case Parallel(policy, cs) =>
      ParallelOf(policy, seq(|cs|, i requires 0 <= i < |cs| => Eval(cs[i])))
    case UtilitySelector(options) =>
      if |options| == 0 then Tick(Failure, [])
      else
        var k := BestIndex(Scores(options));
        assert options[k] < n;
        Eval(options[k].child)
    case Scored(s) => Eval(s.child)
  }

  /** The children's ticks of a composite. */
  function EvalAll(cs: seq<Node>): (ts: seq<Tick>)
    ensures |ts| == |cs|
    ensures forall i :: 0 <= i < |cs| ==> ts[i] == Eval(cs[i])
  {
    seq(|cs|, i requires 0 <= i < |cs| => Eval(cs[i]))
  }

  /** The type name a decorator falls back to for its child's name. */
  function TypeName(n: Node): (r: string)
    ensures |r| > 0
  {
    match n
    case Action(_, t, _) => if |t| == 0 then "ActionNode" else t
    case Sequence(_) => "Sequence"
    case Selector(_) => "Selector"
    case Parallel(_, _) => "Parallel"
    case UtilitySelector(_) => "UtilitySelector"
    case Scored(_) => "UtilityScorer"
  }

  /** The UtilityScorer constructor: a null or empty name becomes the
      child's type name. */
  function MakeScorer(child: Node, considerations: Option<seq<real>>,
                      aggregation: ScoreAggregation, name: Option<string>): (r: Scorer)
    ensures r.child == child && r.considerations == considerations
    ensures r.aggregation == aggregation
    ensures |r.name| > 0
    ensures name.Some? && |name.value| > 0 ==> r.name == name.value
  {
    var n := if name.None? || |name.value| == 0 then TypeName(child) else name.value;
    Scorer(child, considerations, aggregation, n)
  }

  /** UtilityScorer.AddConsideration: appends to the list; a null list
      throws, which is None here. */
  function AddConsideration(s: Scorer, score: real): (r: Option<Scorer>)
    ensures r.Some? <==> s.considerations.Some?
    ensures r.Some? ==>
      r.value.child == s.child && r.value.aggregation == s.aggregation
      && r.value.name == s.name
      && r.value.considerations.Some?
      && |r.value.considerations.value| == |s.considerations.value| + 1
      && r.value.considerations.value[..|s.considerations.value|] == s.considerations.value
      && r.value.considerations.value[|s.considerations.value|] == score
  {
    match s.considerations
    case None => None
    case Some(cs) => Some(s.(considerations := Some(cs + [score])))
  }

  // ---------------------------------------------------------------------
  // Sequence and Selector

  lemma {:induction false} TracesPrefixAll(ts: seq<Tick>)
    ensures Traces(ts[..|ts|]) == Traces(ts)
  {
    assert ts[..|ts|] == ts;
  }

  /** A Sequence succeeds exactly when every child succeeds; it then runs
      them all. */
  lemma SequenceSuccessIff(ts: seq<Tick>)
    ensures ShortCircuit(ts, Success).status == Success
        <==> forall i :: 0 <= i < |ts| ==> ts[i].status == Success
  {
  }

  /** A Selector fails exactly when every child fails. */
  lemma SelectorFailureIff(ts: seq<Tick>)
    ensures ShortCircuit(ts, Failure).status == Failure
        <==> forall i :: 0 <= i < |ts| ==> ts[i].status == Failure
  {
  }

  /** The status of a short-circuiting composite other than its pass value
      is the status of its last executed child, and children after it are
      not executed. */
  lemma ShortCircuitStops(ts: seq<Tick>, pass: Status)
    ensures ShortCircuit(ts, pass).status != pass ==>
      var k := Executed(ts, pass) - 1;
      0 <= k < |ts| && ts[k].status == ShortCircuit(ts, pass).status
      && (forall i :: 0 <= i < k ==> ts[i].status == pass)
      && ShortCircuit(ts, pass).trace == Traces(ts[..k + 1])
  {
  }

  /** A Sequence reports Running only when an executed child did, and a
      Selector reports Success only when an executed child did. */
  lemma StatusComesFromExecutedChild(ts: seq<Tick>)
    ensures ShortCircuit(ts, Success).status == Running ==>
      exists i :: 0 <= i < Executed(ts, Success) && ts[i].status == Running
    ensures ShortCircuit(ts, Failure).status == Success ==>
      exists i :: 0 <= i < Executed(ts, Failure) && ts[i].status == Success
  {
  }

  /** Empty composites: Sequence succeeds, Selector fails, neither runs
      anything. */
  lemma EmptyComposites()
    ensures ShortCircuit([], Success) == Tick(Success, [])
    ensures ShortCircuit([], Failure) == Tick(Failure, [])
    ensures ParallelOf(RequireAll, []).status == Success
    ensures ParallelOf(RequireOne, []).status == Failure
  {
  }

  // ---------------------------------------------------------------------
  // Parallel

  /** Parallel succeeds exactly when its policy holds, reports Running
      exactly when the policy fails and some child is running, and fails
      otherwise; every child runs whatever the others return. */
  lemma ParallelOutcome(policy: Policy, ts: seq<Tick>)
    ensures var r := ParallelOf(policy, ts);
      var met := if policy == RequireOne
                 then exists i :: 0 <= i < |ts| && ts[i].status == Success
                 else forall i :: 0 <= i < |ts| ==> ts[i].status == Success;
      (r.status == Success <==> met)
      && (r.status == Running <==> !met && exists i :: 0 <= i < |ts| && ts[i].status == Running)
      && r.trace == Traces(ts)
  {
  }

  /** Parallel with RequireAll succeeds on the same children exactly when a
      Sequence would; a successful Selector implies a successful RequireOne
      Parallel (the converse fails when a Running child precedes the first
      success). */
  lemma ParallelAgreesWithSequence(ts: seq<Tick>)
    ensures ParallelOf(RequireAll, ts).status == Success
        <==> ShortCircuit(ts, Success).status == Success
    ensures ShortCircuit(ts, Failure).status == Success
        ==> ParallelOf(RequireOne, ts).status == Success
  {
    SequenceSuccessIff(ts);
    if ShortCircuit(ts, Failure).status == Success {
      var k := FirstNot(ts, Failure);
      assert ts[k].status == Success;
    }
  }

  // ---------------------------------------------------------------------
  // Utility selection

  /** BestIndex is the only index that is maximal with every earlier score
      strictly below it. */
  lemma BestIndexUnique(scores: seq<real>, j: nat)
    requires j < |scores|
    requires forall i :: 0 <= i < |scores| ==> scores[i] <= scores[j]
    requires forall i :: 0 <= i < j ==> scores[i] < scores[j]
    ensures j == BestIndex(scores)
  {
  }

  /** A UtilitySelector with no options fails and runs nothing; otherwise
      exactly the highest-scoring option (earliest on ties) runs and its
      status is returned unchanged. */
  lemma UtilitySelectorRunsBest(options: seq<Scorer>)
    ensures |options| == 0 ==> Eval(UtilitySelector(options)) == Tick(Failure, [])
    ensures |options| > 0 ==>
      exists k :: 0 <= k < |options|
        && (forall i :: 0 <= i < |options| ==> GetScore(options[i]) <= GetScore(options[k]))
        && (forall i :: 0 <= i < k ==> GetScore(options[i]) < GetScore(options[k]))
        && Eval(UtilitySelector(options)) == Eval(options[k].child)
  {
    if |options| > 0 {
      var k := BestIndex(Scores(options));
      assert Eval(UtilitySelector(options)) == Eval(options[k].child);
    }
  }

  /** A scorer executes its child and returns the child's status. */
  lemma ScoredPassesThrough(s: Scorer)
    ensures Eval(Scored(s)) == Eval(s.child)
  {
  }

  /** Every composite evaluates through the combinators over its children's
      ticks. */
  lemma EvalComposite(n: Node)
    ensures n.Sequence? ==> Eval(n) == ShortCircuit(EvalAll(n.children), Success)
    ensures n.Selector? ==> Eval(n) == ShortCircuit(EvalAll(n.children), Failure)
    ensures n.Parallel? ==> Eval(n) == ParallelOf(n.policy, EvalAll(n.children))
  {
  }

  // ---------------------------------------------------------------------
  // Scores

  /** GetScore agrees with the stand-alone strategy of its aggregation type;
      a null list scores 0. */
  lemma GetScoreMatchesStrategy(s: Scorer)
    ensures s.considerations.None? ==> GetScore(s) == 0.0
    ensures s.considerations.Some? ==>
      var cs := s.considerations.value;
      GetScore(s) == match s.aggregation
        case Average => AggregateAverage(cs)
        case MinScore => AggregateMin(cs)
        case MaxScore => AggregateMax(cs)
        case Multiply => AggregateMultiply(cs)
  {
  }

  /** Consideration scores in [0,1] give a score in [0,1], as the scorer
      interface documents. */
  lemma GetScoreUnit(s: Scorer)
    requires s.considerations.Some? ==> AllUnit(s.considerations.value)
    ensures 0.0 <= GetScore(s) <= 1.0
  {
    GetScoreMatchesStrategy(s);
    if s.considerations.Some? {
      var cs := s.considerations.value;
      AverageUnit(cs);
      MinMaxUnit(cs);
      MultiplyProperties(cs);
    }
  }
}
