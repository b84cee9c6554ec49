/** The fluent builders that assemble composites: Add skips nulls and
    appends in call order, the params overload is a run of single Adds, and
    Build wraps exactly the accumulated children in the builder's kind. */
module Builder {
  import opened Numeric
  import opened BehaviorTree

  /** One Add: a null item is skipped, anything else is appended. */
  function Append<T>(acc: seq<T>, item: Option<T>): (r: seq<T>)
    ensures item.None? ==> r == acc
    ensures item.Some? ==> r == acc + [item.value]
  {
    match item
    case None => acc
    case Some(x) => acc + [x]
  }

  /** The params overload: a foreach of single Adds. */
  function AppendAll<T>(acc: seq<T>, items: seq<Option<T>>): seq<T>
    decreases |items|
  {
    if |items| == 0 then acc else AppendAll(Append(acc, items[0]), items[1..])
  }

  /** The non-null items of a list, in order: an independent statement of
      what a run of Adds keeps. */
  function Present<T>(items: seq<Option<T>>): seq<T>
  {
    if |items| == 0 then []
    else if items[|items| - 1].Some? then Present(items[..|items| - 1]) + [items[|items| - 1].value]
    else Present(items[..|items| - 1])
  }

  lemma {:induction false} PresentCons<T>(item: Option<T>, rest: seq<Option<T>>)
    ensures Present([item] + rest) == Present([item]) + Present(rest)
  {
    if |rest| > 0 {
      var last := rest[|rest| - 1];
      assert ([item] + rest)[..|[item] + rest| - 1] == [item] + rest[..|rest| - 1];
      PresentCons(item, rest[..|rest| - 1]);
    } else {
      assert [item] + rest == [item];
    }
  }

  /** Adding a list is appending its non-null items, in order. */
  lemma {:induction false} AppendAllKeepsPresent<T>(acc: seq<T>, items: seq<Option<T>>)
    ensures AppendAll(acc, items) == acc + Present(items)
    decreases |items|
  {
    if |items| > 0 {
      AppendAllKeepsPresent(Append(acc, items[0]), items[1..]);
      assert items == [items[0]] + items[1..];
      PresentCons(items[0], items[1..]);
      assert [items[0]][..0] == [];
    }
  }

  /** The composite builders' kinds; the Parallel builder carries the
      policy it was created with. */
  datatype Kind = SequenceKind | SelectorKind | ParallelKind(policy: Policy)

  datatype CompositeBuilder = CompositeBuilder(kind: Kind, children: seq<Node>)

  /** The factory methods start with no children. */
  function NewBuilder(kind: Kind): CompositeBuilder { CompositeBuilder(kind, []) }

  function Add(b: CompositeBuilder, node: Option<Node>): (r: CompositeBuilder)
    ensures r.kind == b.kind
    ensures node.None? ==> r == b
    ensures node.Some? ==> r.children == b.children + [node.value]
  {
    b.(children := Append(b.children, node))
  }

  function AddMany(b: CompositeBuilder, nodes: seq<Option<Node>>): (r: CompositeBuilder)
    ensures r.kind == b.kind
    ensures r.children == b.children + Present(nodes)
  {
    AppendAllKeepsPresent(b.children, nodes);
    b.(children := AppendAll(b.children, nodes))
  }

  /** Build: the composite of the builder's kind over exactly its children. */
  function Build(b: CompositeBuilder): (n: Node)
    ensures b.kind == SequenceKind ==> n == Sequence(b.children)
    ensures b.kind == SelectorKind ==> n == Selector(b.children)
    ensures b.kind.ParallelKind? ==> n == Parallel(b.kind.policy, b.children)
  {
    match b.kind
    case SequenceKind => Sequence(b.children)
    case SelectorKind => Selector(b.children)
    case ParallelKind(p) => Parallel(p, b.children)
  }

  datatype UtilityBuilder = UtilityBuilder(scorers: seq<Scorer>)

  function AddScorer(b: UtilityBuilder, s: Option<Scorer>): (r: UtilityBuilder)
    ensures s.None? ==> r == b
    ensures s.Some? ==> r.scorers == b.scorers + [s.value]
  {
    UtilityBuilder(Append(b.scorers, s))
  }

  function AddScorers(b: UtilityBuilder, ss: seq<Option<Scorer>>): (r: UtilityBuilder)
    ensures r.scorers == b.scorers + Present(ss)
  {
    AppendAllKeepsPresent(b.scorers, ss);
    UtilityBuilder(AppendAll(b.scorers, ss))
  }

  /** Build: a UtilitySelector over a copy of the accumulated scorers. */
  function BuildUtility(b: UtilityBuilder): Node { UtilitySelector(b.scorers) }

  /** A list has no non-null item exactly when every item is null. */
  lemma {:induction false} PresentEmptyIff<T>(items: seq<Option<T>>)
    ensures Present(items) == [] <==> forall i :: 0 <= i < |items| ==> items[i].None?
    decreases |items|
  {
    if |items| > 0 {
      var n := |items| - 1;
      PresentEmptyIff(items[..n]);
      assert forall i :: 0 <= i < n ==> items[..n][i] == items[i];
    }
  }

  /** A fresh utility builder fed a list of optional scorers builds a
      UtilitySelector over exactly the list's non-null scorers, in order;
      when every scorer was null, the built selector fails and runs nothing. */
  lemma UtilityBuildFromScratch(ss: seq<Option<Scorer>>)
    ensures BuildUtility(AddScorers(UtilityBuilder([]), ss)) == UtilitySelector(Present(ss))
    ensures (forall i :: 0 <= i < |ss| ==> ss[i].None?) ==>
      Eval(BuildUtility(AddScorers(UtilityBuilder([]), ss))) == Tick(Failure, [])
  {
    PresentEmptyIff(ss);
    UtilitySelectorRunsBest(Present(ss));
  }

  /** A builder fed a list of optional nodes through any mix of single and
      multiple Adds builds the composite over the list's non-null nodes. */
  lemma BuildFromScratch(kind: Kind, nodes: seq<Option<Node>>)
    ensures Build(AddMany(NewBuilder(kind), nodes)).children == Present(nodes)
  {
  }

  /** Adding one at a time and adding all at once build the same node. */
  lemma {:induction false} SingleAddsEqualMany(b: CompositeBuilder, nodes: seq<Option<Node>>)
    ensures AddMany(b, nodes) == AddOneByOne(b, nodes)
    decreases |nodes|
  {
    if |nodes| > 0 {
      SingleAddsEqualMany(Add(b, nodes[0]), nodes[1..]);
      assert nodes == [nodes[0]] + nodes[1..];
      PresentCons(nodes[0], nodes[1..]);
      assert [nodes[0]][..0] == [];
    }
  }

  /** A run of single Adds, left to right. */
  function AddOneByOne(b: CompositeBuilder, nodes: seq<Option<Node>>): CompositeBuilder
    decreases |nodes|
  {
    if |nodes| == 0 then b else AddOneByOne(Add(b, nodes[0]), nodes[1..])
  }
}
