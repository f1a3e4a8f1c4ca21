/** The milestone tree page: a forest of milestones is flattened into the
    nodes and edges of a graph view. */
module MilestoneTree {
  import opened Wrappers
  import opened Seqs
  import Decimal

  /** A milestone as the profile delivers it. An absent `subMilestones` list is
      traversed exactly like an empty one, so it is modelled as `[]`. */
  datatype Milestone = Milestone(
    id: int,
    task: string,
    parentId: Option<int>,
    completionRate: Option<real>,
    completed: bool,
    subMilestones: seq<Milestone>)

  datatype Handle = Top | Bottom | Left | Right
  datatype Point = Point(x: real, y: real)

  /** A node of the graph view; the two handles are unset until layout. */
  datatype FlowNode = FlowNode(
    id: string,
    task: string,
    rate: real,
    position: Point,
    targetPosition: Option<Handle>,
    sourcePosition: Option<Handle>)

  datatype FlowEdge = FlowEdge(id: string, source: string, target: string, animated: bool, rate: real)

  /** One call of `traverse`: the milestone and the parent id it was given. */
  datatype Visit = Visit(parentId: Option<string>, milestone: Milestone)

  function NodeId(m: Milestone): (r: string)
    ensures |r| > 0
  {
    Decimal.IntToString(m.id)
  }

  /** Progress in percent: the recorded rate scaled by 100, or all-or-nothing
      from the completion flag when no rate is recorded. */
  function Rate(m: Milestone): (r: real)
    ensures m.completionRate.Some? ==> r == m.completionRate.value * 100.0
    ensures m.completionRate.None? && m.completed ==> r == 100.0
    ensures m.completionRate.None? && !m.completed ==> r == 0.0
  {
    match m.completionRate
    case Some(c) => c * 100.0
    case None => if m.completed then 100.0 else 0.0
  }

  /** A parent id counts only when present and non-empty (JavaScript truthiness
      of a string). */
  predicate HasParent(parentId: Option<string>) {
    parentId.Some? && parentId.value != ""
  }

  function MakeNode(m: Milestone): (n: FlowNode)
    ensures n.id == NodeId(m) && n.task == m.task && n.rate == Rate(m)
    ensures n.targetPosition.None? && n.sourcePosition.None?
  {
    FlowNode(NodeId(m), m.task, Rate(m), Point(0.0, 0.0), None, None)
  }

  /** The edge into `child` from the node named `parentId`. */
  function MakeEdge(parentId: string, child: Milestone): (e: FlowEdge)
    ensures e.source == parentId && e.target == NodeId(child)
    ensures e.id == "e" + e.source + "-" + e.target
    ensures e.animated <==> Rate(child) < 100.0
  {
    var nodeId := NodeId(child);
    FlowEdge("e" + parentId + "-" + nodeId, parentId, nodeId, Rate(child) < 100.0, Rate(child))
  }

  /** The calls `traverse(m, parentId)` makes, in order: `m` first, then each
      sub-milestone's subtree in list order. */
  function TreeVisits(m: Milestone, parentId: Option<string>): (r: seq<Visit>)
    ensures |r| > 0 && r[0] == Visit(parentId, m)
    ensures forall k :: 0 < k < |r| ==> HasParent(r[k].parentId)
    decreases m
  {
    [Visit(parentId, m)] + ForestVisits(m.subMilestones, Some(NodeId(m)))
  }

  /** The calls made by traversing each of `ms` in turn with one parent id. */
  function ForestVisits(ms: seq<Milestone>, parentId: Option<string>): (r: seq<Visit>)
    ensures |r| >= |ms|
    ensures forall k :: 0 <= k < |r| ==> r[k].parentId == parentId || HasParent(r[k].parentId)
    decreases ms
  {
    if ms == [] then []
    else
      var a := ForestVisits(ms[..|ms| - 1], parentId);
      var t := TreeVisits(ms[|ms| - 1], parentId);
      assert forall k :: |a| <= k < |a + t| ==> (a + t)[k] == t[k - |a|];
      a + t
  }

  /** The milestones visited, in visiting order. */
  function VisitedMilestones(vs: seq<Visit>): (r: seq<Milestone>)
    ensures |r| == |vs| && forall i :: 0 <= i < |vs| ==> r[i] == vs[i].milestone
  {
    seq(|vs|, i requires 0 <= i < |vs| => vs[i].milestone)
  }

  /** Every milestone of a subtree, counted once per place it is listed. */
  function Occurrences(m: Milestone): multiset<Milestone>
    decreases m
  {
    multiset{m} + ForestOccurrences(m.subMilestones)
  }

  function ForestOccurrences(ms: seq<Milestone>): multiset<Milestone>
    decreases ms
  {
    if ms == [] then multiset{} else ForestOccurrences(ms[..|ms| - 1]) + Occurrences(ms[|ms| - 1])
  }

  /** The nodes pushed by a sequence of visits: one per visit, in order. */
  function NodesOf(vs: seq<Visit>): (r: seq<FlowNode>)
    ensures |r| == |vs|
    ensures forall i :: 0 <= i < |vs| ==> r[i] == MakeNode(vs[i].milestone)
  {
    if vs == [] then [] else NodesOf(vs[..|vs| - 1]) + [MakeNode(vs[|vs| - 1].milestone)]
  }

  /** The edges pushed by a sequence of visits: one per visit with a parent. */
  function EdgesOf(vs: seq<Visit>): (r: seq<FlowEdge>)
    ensures |r| <= |vs|
  {
    if vs == [] then []
    else
      var v := vs[|vs| - 1];
      EdgesOf(vs[..|vs| - 1]) + if HasParent(v.parentId) then [MakeEdge(v.parentId.value, v.milestone)] else []
  }

  /** The edges are exactly those from each visit with a parent to its
      milestone. */
  lemma {:induction false} EdgesOfVisits(vs: seq<Visit>)
    ensures forall e :: e in EdgesOf(vs) ==>
      exists v :: v in vs && HasParent(v.parentId) && e == MakeEdge(v.parentId.value, v.milestone)
    ensures forall v :: v in vs && HasParent(v.parentId) ==> MakeEdge(v.parentId.value, v.milestone) in EdgesOf(vs)
  {
    if vs != [] {
      var init, last := vs[..|vs| - 1], vs[|vs| - 1];
      EdgesOfVisits(init);
      assert vs == init + [last];
    }
  }

  /** A visit that pushes an edge: one whose parent id is truthy. */
  predicate IsChildVisit(v: Visit) {
    HasParent(v.parentId)
  }

  /** The edges are, in order, one per visit with a parent: the i-th edge runs
      into the milestone of the i-th such visit. */
  lemma {:induction false} EdgesPerChildVisit(vs: seq<Visit>)
    ensures var cv := Filter(vs, IsChildVisit);
      |EdgesOf(vs)| == |cv| &&
      forall i :: 0 <= i < |cv| ==>
        IsChildVisit(cv[i]) && EdgesOf(vs)[i] == MakeEdge(cv[i].parentId.value, cv[i].milestone)
  {
    if vs != [] {
      var init, last := vs[..|vs| - 1], vs[|vs| - 1];
      assert vs == init + [last];
      EdgesPerChildVisit(init);
      FilterAppend(init, [last], IsChildVisit);
      assert [last][1..] == [];
    }
  }

  lemma NodesOfAppend(a: seq<Visit>, b: seq<Visit>)
    ensures NodesOf(a + b) == NodesOf(a) + NodesOf(b)
  {
    assert forall i :: 0 <= i < |a + b| ==> NodesOf(a + b)[i] == (NodesOf(a) + NodesOf(b))[i];
  }

  lemma {:induction false} EdgesOfAppend(a: seq<Visit>, b: seq<Visit>)
    ensures EdgesOf(a + b) == EdgesOf(a) + EdgesOf(b)
    decreases |b|
  {
    if b == [] {
      assert a + b == a;
    } else {
      var b' := b[..|b| - 1];
      assert (a + b)[..|a + b| - 1] == a + b';
      EdgesOfAppend(a, b');
    }
  }

  /** How many milestones the subtrees hold, counted with repetition. */
  function Size(m: Milestone): nat
    decreases m
  {
    1 + ForestSize(m.subMilestones)
  }

  function ForestSize(ms: seq<Milestone>): nat
    decreases ms
  {
    if ms == [] then 0 else ForestSize(ms[..|ms| - 1]) + Size(ms[|ms| - 1])
  }

  /** Every milestone of every subtree is visited once per occurrence. */
  lemma {:induction false} TreeVisitCount(m: Milestone, parentId: Option<string>)
    ensures |TreeVisits(m, parentId)| == Size(m)
    ensures multiset(VisitedMilestones(TreeVisits(m, parentId))) == Occurrences(m)
    decreases m
  {
    var kids := ForestVisits(m.subMilestones, Some(NodeId(m)));
    ForestVisitCount(m.subMilestones, Some(NodeId(m)));
    assert VisitedMilestones(TreeVisits(m, parentId)) == [m] + VisitedMilestones(kids);
  }

  lemma {:induction false} ForestVisitCount(ms: seq<Milestone>, parentId: Option<string>)
    ensures |ForestVisits(ms, parentId)| == ForestSize(ms)
    ensures multiset(VisitedMilestones(ForestVisits(ms, parentId))) == ForestOccurrences(ms)
    decreases ms
  {
    if ms != [] {
      var a, t := ForestVisits(ms[..|ms| - 1], parentId), TreeVisits(ms[|ms| - 1], parentId);
      ForestVisitCount(ms[..|ms| - 1], parentId);
      TreeVisitCount(ms[|ms| - 1], parentId);
      assert VisitedMilestones(a + t) == VisitedMilestones(a) + VisitedMilestones(t);
    }
  }

  /** A list's occurrences include those of each listed milestone. */
  lemma {:induction false} ForestOccurrencesPick(ms: seq<Milestone>, i: int)
    requires 0 <= i < |ms|
    ensures Occurrences(ms[i]) <= ForestOccurrences(ms)
    decreases |ms|
  {
    if i < |ms| - 1 {
      ForestOccurrencesPick(ms[..|ms| - 1], i);
    }
  }

  /** ... and, for two different places, those of both. */
  lemma {:induction false} ForestOccurrencesPickTwo(ms: seq<Milestone>, i: int, j: int)
    requires 0 <= i < |ms| && 0 <= j < |ms| && i != j
    ensures Occurrences(ms[i]) + Occurrences(ms[j]) <= ForestOccurrences(ms)
    decreases |ms|
  {
    var init := ms[..|ms| - 1];
    if i == |ms| - 1 {
      ForestOccurrencesPick(init, j);
    } else if j == |ms| - 1 {
      ForestOccurrencesPick(init, i);
    } else {
      ForestOccurrencesPickTwo(init, i, j);
    }
  }

  /** A subtree visited under a parent yields one edge per node; visited
      without one, it yields one edge fewer: its root has none. */
  lemma {:induction false} TreeEdgeCount(m: Milestone, parentId: Option<string>)
    ensures |EdgesOf(TreeVisits(m, parentId))| + (if HasParent(parentId) then 0 else 1)
         == |TreeVisits(m, parentId)|
    decreases m
  {
    var kids := ForestVisits(m.subMilestones, Some(NodeId(m)));
    ForestEdgeCount(m.subMilestones, Some(NodeId(m)));
    EdgesOfAppend([Visit(parentId, m)], kids);
    assert EdgesOf([Visit(parentId, m)]) == if HasParent(parentId) then [MakeEdge(parentId.value, m)] else [];
  }

  lemma {:induction false} ForestEdgeCount(ms: seq<Milestone>, parentId: Option<string>)
    ensures |EdgesOf(ForestVisits(ms, parentId))| + (if HasParent(parentId) then 0 else |ms|)
         == |ForestVisits(ms, parentId)|
    decreases ms
  {
    if ms != [] {
      ForestEdgeCount(ms[..|ms| - 1], parentId);
      TreeEdgeCount(ms[|ms| - 1], parentId);
      EdgesOfAppend(ForestVisits(ms[..|ms| - 1], parentId), TreeVisits(ms[|ms| - 1], parentId));
    }
  }

  /** Visit `k` of `vs` comes after the visit of the milestone that contains it,
      and names that milestone as its parent. */
  ghost predicate ParentVisitedBefore(vs: seq<Visit>, k: int)
    requires 0 <= k < |vs|
  {
    exists j :: 0 <= j < k && vs[k].parentId == Some(NodeId(vs[j].milestone))
                && vs[k].milestone in vs[j].milestone.subMilestones
  }

  /** Every visit is either of one of `ms` under `parentId`, or of a
      sub-milestone whose parent was visited earlier. This holds of any
      parents-first order; the sibling order and the contiguity of subtrees
      are those of `TreeVisits` itself. */
  ghost predicate ParentsFirst(vs: seq<Visit>, parentId: Option<string>, ms: seq<Milestone>) {
    forall k :: 0 <= k < |vs| ==>
      (vs[k].parentId == parentId && vs[k].milestone in ms) || ParentVisitedBefore(vs, k)
  }

  lemma {:induction false} TreeParentsFirst(m: Milestone, parentId: Option<string>)
    ensures ParentsFirst(TreeVisits(m, parentId), parentId, [m])
    ensures forall k :: 0 < k < |TreeVisits(m, parentId)| ==> ParentVisitedBefore(TreeVisits(m, parentId), k)
    decreases m
  {
    var vs := TreeVisits(m, parentId);
    var kids := ForestVisits(m.subMilestones, Some(NodeId(m)));
    ForestParentsFirst(m.subMilestones, Some(NodeId(m)));
    forall k | 0 < k < |vs|
      ensures ParentVisitedBefore(vs, k)
    {
      assert vs[k] == kids[k - 1];
      if kids[k - 1].parentId == Some(NodeId(m)) && kids[k - 1].milestone in m.subMilestones {
        assert vs[0].milestone == m;
      } else {
        var j :| 0 <= j < k - 1 && kids[k - 1].parentId == Some(NodeId(kids[j].milestone))
                 && kids[k - 1].milestone in kids[j].milestone.subMilestones;
        assert vs[j + 1] == kids[j];
      }
    }
  }

  lemma {:induction false} ForestParentsFirst(ms: seq<Milestone>, parentId: Option<string>)
    ensures ParentsFirst(ForestVisits(ms, parentId), parentId, ms)
    decreases ms
  {
    if ms != [] {
      var init, last := ms[..|ms| - 1], ms[|ms| - 1];
      var a, t := ForestVisits(init, parentId), TreeVisits(last, parentId);
      var vs := a + t;
      ForestParentsFirst(init, parentId);
      TreeParentsFirst(last, parentId);
      forall k | 0 <= k < |vs|
        ensures (vs[k].parentId == parentId && vs[k].milestone in ms) || ParentVisitedBefore(vs, k)
      {
        if k < |a| {
          assert vs[k] == a[k];
          if a[k].parentId == parentId && a[k].milestone in init {
            assert a[k].milestone in ms;
          } else {
            var j :| 0 <= j < k && a[k].parentId == Some(NodeId(a[j].milestone))
                     && a[k].milestone in a[j].milestone.subMilestones;
            assert vs[j] == a[j];
          }
        } else {
          var k' := k - |a|;
          assert vs[k] == t[k'];
          if t[k'].parentId == parentId && t[k'].milestone in [last] {
            assert t[k'].milestone in ms;
          } else {
            var j :| 0 <= j < k' && t[k'].parentId == Some(NodeId(t[j].milestone))
                     && t[k'].milestone in t[j].milestone.subMilestones;
            assert vs[j + |a|] == t[j];
          }
        }
      }
    }
  }

  /** The milestones the traversal starts from: those without a parent id, or
      all of them when none qualifies. */
  function StartNodes(ms: seq<Milestone>): (r: seq<Milestone>)
    ensures IsSubsequence(r, ms)
    ensures (exists i :: 0 <= i < |ms| && ms[i].parentId.None?) ==>
              (forall m :: m in r ==> m.parentId.None?) &&
              (forall m :: m in ms && m.parentId.None? ==> m in r) &&
              (forall m :: multiset(r)[m] == if m.parentId.None? then multiset(ms)[m] else 0)
    ensures (forall i :: 0 <= i < |ms| ==> ms[i].parentId.Some?) ==> r == ms
    ensures |ms| > 0 ==> |r| > 0
  {
    var roots := Filter(ms, (m: Milestone) => m.parentId.None?);
    if |roots| > 0 then
      assert forall m :: m in ms && m.parentId.None? ==> m in roots by {
        forall m | m in ms && m.parentId.None? ensures m in roots {
          assert multiset(roots)[m] == multiset(ms)[m];
        }
      }
      roots
    else
      assert forall i :: 0 <= i < |ms| ==> ms[i].parentId.Some? by {
        forall i | 0 <= i < |ms| ensures ms[i].parentId.Some? {
          assert multiset(roots)[ms[i]] == 0;
        }
      }
      SubsequenceRefl(ms);
      ms
  }

  /** Without any parentless milestone, every milestone starts a traversal, so
      a milestone listed both on its own and as a sub-milestone of another is
      visited at least twice: nothing is deduplicated. */
  lemma NoDeduplication(ms: seq<Milestone>, i: int, j: int)
    requires forall k :: 0 <= k < |ms| ==> ms[k].parentId.Some?
    requires 0 <= i < |ms| && 0 <= j < |ms| && ms[i] in ms[j].subMilestones
    ensures multiset(VisitedMilestones(ForestVisits(StartNodes(ms), None)))[ms[i]] >= 2
  {
    var m := ms[i];
    var k :| 0 <= k < |ms[j].subMilestones| && ms[j].subMilestones[k] == m;
    assert i != j by {
      assert m < ms[j];
    }
    ForestVisitCount(ms, None);
    ForestOccurrencesPickTwo(ms, i, j);
    ForestOccurrencesPick(ms[j].subMilestones, k);
    assert Occurrences(m)[m] >= 1;
    assert Occurrences(ms[j])[m] >= 1;
  }

  // ---- Layout ----

  /** The target and source handles for a layout direction. */
  function Handles(direction: string): (h: (Handle, Handle))
    ensures direction == "TB" ==> h == (Top, Bottom)
    ensures direction != "TB" ==> h == (Left, Right)
  {
    if direction == "TB" then (Top, Bottom) else (Left, Right)
  }

  /** `getLayoutedElements`: each node gets the direction's handles and the
      position the layout engine assigned to its id (`placement`, taken as
      given); the edges are passed through. */
  function LayoutElements(nodes: seq<FlowNode>, edges: seq<FlowEdge>, direction: string,
                          placement: string -> Point): (r: (seq<FlowNode>, seq<FlowEdge>))
    ensures r.1 == edges
    ensures |r.0| == |nodes|
    ensures forall i :: 0 <= i < |nodes| ==>
      r.0[i].id == nodes[i].id && r.0[i].task == nodes[i].task && r.0[i].rate == nodes[i].rate &&
      r.0[i].position == placement(nodes[i].id) &&
      r.0[i].targetPosition == Some(Handles(direction).0) &&
      r.0[i].sourcePosition == Some(Handles(direction).1)
  {
    var h := Handles(direction);
    var laid := seq(|nodes|, i requires 0 <= i < |nodes| =>
      nodes[i].(targetPosition := Some(h.0), sourcePosition := Some(h.1),
                position := placement(nodes[i].id)));
    (laid, edges)
  }

  /** Laying out an already laid-out graph again changes nothing. */
  lemma LayoutIdempotent(nodes: seq<FlowNode>, edges: seq<FlowEdge>, direction: string,
                         placement: string -> Point)
    ensures var once := LayoutElements(nodes, edges, direction, placement);
            LayoutElements(once.0, once.1, direction, placement) == once
  {
    var once := LayoutElements(nodes, edges, direction, placement);
    var twice := LayoutElements(once.0, once.1, direction, placement);
    assert twice.0 == once.0;
  }

  // ---- Traversal ----

  /** The two arrays `traverse` pushes into. */
  class FlowBuilder {
    var nodes: seq<FlowNode>
    var edges: seq<FlowEdge>

    constructor ()
      ensures nodes == [] && edges == []
    {
      nodes, edges := [], [];
    }

    method Traverse(m: Milestone, parentId: Option<string>)
      modifies this
      ensures nodes == old(nodes) + NodesOf(TreeVisits(m, parentId))
      ensures edges == old(edges) + EdgesOf(TreeVisits(m, parentId))
      decreases m
    {
      var nodeId := Decimal.IntToString(m.id);
      var rate := Rate(m);
      nodes := nodes + [FlowNode(nodeId, m.task, rate, Point(0.0, 0.0), None, None)];
      if parentId.Some? && parentId.value != "" {
        edges := edges + [FlowEdge("e" + parentId.value + "-" + nodeId, parentId.value, nodeId, rate < 100.0, rate)];
      }
      ghost var nodes0, edges0 := nodes, edges;
      var subs := m.subMilestones;
      if |subs| > 0 {
        for i := 0 to |subs|
          invariant nodes == nodes0 + NodesOf(ForestVisits(subs[..i], Some(nodeId)))
          invariant edges == edges0 + EdgesOf(ForestVisits(subs[..i], Some(nodeId)))
        {
          ghost var done := ForestVisits(subs[..i], Some(nodeId));
          ghost var sub := TreeVisits(subs[i], Some(nodeId));
          Traverse(subs[i], Some(nodeId));
          ForestOutputsSnoc(subs, i, Some(nodeId));
          ConcatAssoc(nodes0, NodesOf(done), NodesOf(sub));
          ConcatAssoc(edges0, EdgesOf(done), EdgesOf(sub));
        }
        assert subs[..|subs|] == subs;
      }
      TreeOutputs(m, parentId);
      ghost var below := ForestVisits(subs, Some(nodeId));
      ConcatAssoc(old(nodes), [MakeNode(m)], NodesOf(below));
      ConcatAssoc(old(edges), OwnEdge(m, parentId), EdgesOf(below));
    }
  }

  /** The edge a visit pushes for its own milestone, if any. */
  function OwnEdge(m: Milestone, parentId: Option<string>): seq<FlowEdge> {
    if HasParent(parentId) then [MakeEdge(parentId.value, m)] else []
  }

  /** What a subtree's traversal pushes: its own node and edge, then its
      sub-milestones' subtrees. */
  lemma TreeOutputs(m: Milestone, parentId: Option<string>)
    ensures NodesOf(TreeVisits(m, parentId))
         == [MakeNode(m)] + NodesOf(ForestVisits(m.subMilestones, Some(NodeId(m))))
    ensures EdgesOf(TreeVisits(m, parentId))
         == OwnEdge(m, parentId) + EdgesOf(ForestVisits(m.subMilestones, Some(NodeId(m))))
  {
    var here := [Visit(parentId, m)];
    var below := ForestVisits(m.subMilestones, Some(NodeId(m)));
    VisitsSplit(m, parentId);
    NodesOfAppend(here, below);
    EdgesOfAppend(here, below);
    OwnEdgeOf(m, parentId);
  }

  lemma VisitsSplit(m: Milestone, parentId: Option<string>)
    ensures TreeVisits(m, parentId) == [Visit(parentId, m)] + ForestVisits(m.subMilestones, Some(NodeId(m)))
  {
  }

  lemma OwnEdgeOf(m: Milestone, parentId: Option<string>)
    ensures EdgesOf([Visit(parentId, m)]) == OwnEdge(m, parentId)
  {
    assert [Visit(parentId, m)][..0] == [];
  }

  /** Traversing one more milestone of a list appends its subtree's nodes and
      edges. */
  lemma ForestOutputsSnoc(ms: seq<Milestone>, i: int, parentId: Option<string>)
    requires 0 <= i < |ms|
    ensures NodesOf(ForestVisits(ms[..i + 1], parentId))
         == NodesOf(ForestVisits(ms[..i], parentId)) + NodesOf(TreeVisits(ms[i], parentId))
    ensures EdgesOf(ForestVisits(ms[..i + 1], parentId))
         == EdgesOf(ForestVisits(ms[..i], parentId)) + EdgesOf(TreeVisits(ms[i], parentId))
  {
    ForestVisitsSnoc(ms, i, parentId);
    NodesOfAppend(ForestVisits(ms[..i], parentId), TreeVisits(ms[i], parentId));
    EdgesOfAppend(ForestVisits(ms[..i], parentId), TreeVisits(ms[i], parentId));
  }

  /** Traversing one more milestone of a list appends its subtree's visits. */
  lemma ForestVisitsSnoc(ms: seq<Milestone>, i: int, parentId: Option<string>)
    requires 0 <= i < |ms|
    ensures ForestVisits(ms[..i + 1], parentId) == ForestVisits(ms[..i], parentId) + TreeVisits(ms[i], parentId)
  {
    assert ms[..i + 1][..i] == ms[..i];
  }

  /** The graph shown for a list of milestones: empty for an empty list;
      otherwise the traversal of the start nodes, laid out top to bottom. */
  method BuildTree(milestones: seq<Milestone>, placement: string -> Point)
    returns (nodes: seq<FlowNode>, edges: seq<FlowEdge>)
    ensures milestones == [] ==> nodes == [] && edges == []
    ensures milestones != [] ==>
      var visits := ForestVisits(StartNodes(milestones), None);
      (nodes, edges) == LayoutElements(NodesOf(visits), EdgesOf(visits), "TB", placement)
    ensures milestones != [] ==> |edges| + |StartNodes(milestones)| == |nodes|
  {
    if |milestones| == 0 {
      return [], [];
    }
    var roots := Filter(milestones, (m: Milestone) => m.parentId.None?);
    var startNodes := if |roots| > 0 then roots else milestones;
    assert startNodes == StartNodes(milestones);
    var builder := new FlowBuilder();
    for i := 0 to |startNodes|
      invariant builder.nodes == NodesOf(ForestVisits(startNodes[..i], None))
      invariant builder.edges == EdgesOf(ForestVisits(startNodes[..i], None))
    {
      builder.Traverse(startNodes[i], None);
      ForestOutputsSnoc(startNodes, i, None);
    }
    assert startNodes[..|startNodes|] == startNodes;
    ForestEdgeCount(startNodes, None);
    var layouted := LayoutElements(builder.nodes, builder.edges, "TB", placement);
    nodes, edges := layouted.0, layouted.1;
  }
}
