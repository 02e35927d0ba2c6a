/**
 * The port-numbered DAG of src/dag.rs: a daggy `Dag` whose edges carry the
 * output port of their source node and the input port of their target node.
 *
 * daggy's storage is modelled abstractly: the nodes are a map from handles
 * to weights (handles are issued from a counter), the edges a sequence of
 * (source node, target node, weight) triples in storage order, and daggy's
 * cycle check a reachability question over the edges, answered by the
 * depth-first search `HasPathConnecting`.
 */
module Dag {
  import opened Wrappers

  type NodeId = nat

  /** Edge weight: `source` is an output port of the edge's source node, `target` an input port of its target node. */
  datatype Edge = Edge(source: nat, target: nat)

  /** A port: a node and a port index on it. */
  datatype Port = Port(node: NodeId, port: nat)

  /** One stored daggy edge. */
  datatype RawEdge = RawEdge(src: NodeId, dst: NodeId, weight: Edge)

  datatype WouldBreak = WouldCycle | WouldUnport

  // ---------------------------------------------------------------------
  // Reachability over the node-to-node arcs
  // ---------------------------------------------------------------------

  function Arcs(es: seq<RawEdge>): set<(NodeId, NodeId)> {
    set e | e in es :: (e.src, e.dst)
  }

  ghost predicate IsPath(arcs: set<(NodeId, NodeId)>, p: seq<NodeId>) {
    |p| >= 1 && forall i :: 0 <= i < |p| - 1 ==> (p[i], p[i + 1]) in arcs
  }

  /** `b` can be reached from `a` by following zero or more arcs. */
  ghost predicate Reaches(arcs: set<(NodeId, NodeId)>, a: NodeId, b: NodeId) {
    exists p :: IsPath(arcs, p) && p[0] == a && p[|p| - 1] == b
  }

  /** No arc closes a cycle: its target never leads back to its source. */
  ghost predicate Acyclic(arcs: set<(NodeId, NodeId)>) {
    forall arc | arc in arcs :: !Reaches(arcs, arc.1, arc.0)
  }

  lemma ReachesRefl(arcs: set<(NodeId, NodeId)>, a: NodeId)
    ensures Reaches(arcs, a, a)
  {
    assert IsPath(arcs, [a]);
  }

  lemma ReachesArc(arcs: set<(NodeId, NodeId)>, a: NodeId, b: NodeId)
    requires (a, b) in arcs
    ensures Reaches(arcs, a, b)
  {
    assert IsPath(arcs, [a, b]);
  }

  lemma ReachesTrans(arcs: set<(NodeId, NodeId)>, a: NodeId, b: NodeId, c: NodeId)
    requires Reaches(arcs, a, b) && Reaches(arcs, b, c)
    ensures Reaches(arcs, a, c)
  {
    var p :| IsPath(arcs, p) && p[0] == a && p[|p| - 1] == b;
    var q :| IsPath(arcs, q) && q[0] == b && q[|q| - 1] == c;
    var r := p + q[1..];
    forall i | 0 <= i < |r| - 1
      ensures (r[i], r[i + 1]) in arcs
    {
      if i < |p| - 1 {
        assert r[i] == p[i] && r[i + 1] == p[i + 1];
      } else {
        assert r[i] == q[i - |p| + 1] && r[i + 1] == q[i - |p| + 2];
      }
    }
    assert IsPath(arcs, r);
  }

  lemma ReachesMono(small: set<(NodeId, NodeId)>, big: set<(NodeId, NodeId)>, a: NodeId, b: NodeId)
    requires small <= big && Reaches(small, a, b)
    ensures Reaches(big, a, b)
  {
    var p :| IsPath(small, p) && p[0] == a && p[|p| - 1] == b;
    assert IsPath(big, p);
  }

  /** A path over the arcs plus one extra arc u->v either avoids it or passes through it. */
  lemma {:induction false} PathWithExtraArc(arcs: set<(NodeId, NodeId)>, u: NodeId, v: NodeId, p: seq<NodeId>)
    requires IsPath(arcs + {(u, v)}, p)
    ensures Reaches(arcs, p[0], p[|p| - 1]) || (Reaches(arcs, p[0], u) && Reaches(arcs, v, p[|p| - 1]))
    decreases |p|
  {
    var x, y := p[0], p[|p| - 1];
    if |p| == 1 {
      ReachesRefl(arcs, x);
    } else {
      var q := p[..|p| - 1];
      assert IsPath(arcs + {(u, v)}, q);
      PathWithExtraArc(arcs, u, v, q);
      var y' := q[|q| - 1];
      assert (y', y) in arcs + {(u, v)};
      if (y', y) in arcs {
        ReachesArc(arcs, y', y);
        if Reaches(arcs, x, y') {
          ReachesTrans(arcs, x, y', y);
        } else {
          ReachesTrans(arcs, v, y', y);
        }
      } else {
        assert y' == u && y == v;
        ReachesRefl(arcs, v);
        if Reaches(arcs, x, y') {
        }
      }
    }
  }

  /** Adding the arc u->v keeps the arcs acyclic when v does not already reach u: daggy's cycle check. */
  lemma AcyclicAddArc(arcs: set<(NodeId, NodeId)>, u: NodeId, v: NodeId)
    requires Acyclic(arcs) && !Reaches(arcs, v, u)
    ensures Acyclic(arcs + {(u, v)})
  {
    var arcs' := arcs + {(u, v)};
    forall arc | arc in arcs'
      ensures !Reaches(arcs', arc.1, arc.0)
    {
      if Reaches(arcs', arc.1, arc.0) {
        var p :| IsPath(arcs', p) && p[0] == arc.1 && p[|p| - 1] == arc.0;
        PathWithExtraArc(arcs, u, v, p);
        if arc in arcs {
          ReachesArc(arcs, arc.0, arc.1);
          if !Reaches(arcs, arc.1, arc.0) {
            // v reaches arc.0, arc.0 -> arc.1, arc.1 reaches u
            ReachesTrans(arcs, arc.0, arc.1, u);
            ReachesTrans(arcs, v, arc.0, u);
          }
        }
      }
    }
  }

  lemma AcyclicSubset(small: set<(NodeId, NodeId)>, big: set<(NodeId, NodeId)>)
    requires small <= big && Acyclic(big)
    ensures Acyclic(small)
  {
    forall arc | arc in small
      ensures !Reaches(small, arc.1, arc.0)
    {
      if Reaches(small, arc.1, arc.0) {
        ReachesMono(small, big, arc.1, arc.0);
      }
    }
  }

  /** In an acyclic graph a child never reaches its parent, and no arc is a loop. */
  lemma ChildDoesNotReachParent(arcs: set<(NodeId, NodeId)>, p: NodeId, c: NodeId)
    requires Acyclic(arcs) && (p, c) in arcs
    ensures !Reaches(arcs, c, p) && p != c
  {
    if p == c {
      ReachesRefl(arcs, c);
    }
  }

  /** Every node reachable from a node of a set closed under the edges is in the set. */
  lemma {:induction false} ClosedContainsPath(es: seq<RawEdge>, s: set<NodeId>, p: seq<NodeId>)
    requires IsPath(Arcs(es), p) && p[0] in s
    requires forall k :: 0 <= k < |es| && es[k].src in s ==> es[k].dst in s
    ensures p[|p| - 1] in s
    decreases |p|
  {
    if |p| > 1 {
      var q := p[..|p| - 1];
      assert IsPath(Arcs(es), q);
      ClosedContainsPath(es, s, q);
      var arc := (p[|p| - 2], p[|p| - 1]);
      assert arc in Arcs(es);
      var e :| e in es && (e.src, e.dst) == arc;
      var k :| 0 <= k < |es| && es[k] == e;
    }
  }

  // ---------------------------------------------------------------------
  // daggy's cycle check
  // ---------------------------------------------------------------------

  function Targets(es: seq<RawEdge>): set<NodeId> {
    set e | e in es :: e.dst
  }

  /**
   * Depth-first search from `from` with a visited set and a stack, as
   * petgraph's `has_path_connecting`, which daggy runs before adding an edge.
   */
  method HasPathConnecting(es: seq<RawEdge>, from: NodeId, to: NodeId) returns (found: bool)
    ensures found <==> Reaches(Arcs(es), from, to)
  {
    var visited: set<NodeId> := {from};
    var stack: seq<NodeId> := [from];
    ghost var done: set<NodeId> := {};
    ghost var universe := {from} + Targets(es);
    ReachesRefl(Arcs(es), from);
    while stack != []
      invariant visited <= universe
      invariant from in visited
      invariant forall v :: v in visited <==> v in done || v in stack
      invariant forall v :: v in visited ==> Reaches(Arcs(es), from, v)
      invariant forall k :: 0 <= k < |es| && es[k].src in done ==> es[k].dst in visited
      decreases universe - visited, |stack|
    {
      var u := stack[|stack| - 1];
      stack := stack[..|stack| - 1];
      done := done + {u};
      ghost var visited0, stack0 := visited, stack;
      var j := 0;
      while j < |es|
        invariant 0 <= j <= |es|
        invariant visited0 <= visited <= universe
        invariant visited == visited0 ==> stack == stack0
        invariant forall v :: v in visited <==> v in done || v in stack
        invariant forall v :: v in visited ==> Reaches(Arcs(es), from, v)
        invariant forall k :: 0 <= k < |es| && es[k].src in done - {u} ==> es[k].dst in visited
        invariant forall k :: 0 <= k < j && es[k].src == u ==> es[k].dst in visited
      {
        if es[j].src == u && es[j].dst !in visited {
          assert (u, es[j].dst) in Arcs(es);
          ReachesArc(Arcs(es), u, es[j].dst);
          ReachesTrans(Arcs(es), from, u, es[j].dst);
          visited := visited + {es[j].dst};
          stack := stack + [es[j].dst];
        }
        j := j + 1;
      }
    }
    found := to in visited;
    if !found && Reaches(Arcs(es), from, to) {
      var p :| IsPath(Arcs(es), p) && p[0] == from && p[|p| - 1] == to;
      ClosedContainsPath(es, visited, p);
    }
  }

  // ---------------------------------------------------------------------
  // Searching and editing the edge sequence
  // ---------------------------------------------------------------------

  /** Index of the first stored edge satisfying `p`, as daggy's walkers' `find_edge`. */
  function Find(es: seq<RawEdge>, p: RawEdge -> bool): (r: Option<nat>)
    ensures r.Some? ==> r.value < |es| && p(es[r.value])
    ensures r.Some? ==> forall j :: 0 <= j < r.value ==> !p(es[j])
    ensures r.None? <==> forall j :: 0 <= j < |es| ==> !p(es[j])
  {
    if es == [] then None
    else if p(es[0]) then Some(0)
    else match Find(es[1..], p)
      case None => None
      case Some(k) => Some(k + 1)
  }

  /** The edge `e` feeds the input port `trg`. */
  predicate Occupies(e: RawEdge, trg: Port) {
    e.dst == trg.node && e.weight.target == trg.port
  }

  /** The stored edge feeding `trg`, if any. */
  function PortEdge(es: seq<RawEdge>, trg: Port): Option<nat> {
    Find(es, (e: RawEdge) => Occupies(e, trg))
  }

  /** The stored edge from node `a` to node `b`, if any (daggy's `find_edge`). */
  function ArcEdge(es: seq<RawEdge>, a: NodeId, b: NodeId): Option<nat> {
    Find(es, (e: RawEdge) => e.src == a && e.dst == b)
  }

  function RemoveAt(es: seq<RawEdge>, i: nat): (r: seq<RawEdge>)
    requires i < |es|
    ensures |r| == |es| - 1
    ensures forall k :: 0 <= k < i ==> r[k] == es[k]
    ensures forall k :: i <= k < |r| ==> r[k] == es[k + 1]
  {
    es[..i] + es[i + 1..]
  }

  lemma RemoveAtMembers(es: seq<RawEdge>, i: nat)
    requires i < |es|
    ensures forall e :: e in RemoveAt(es, i) ==> e in es
    ensures forall k :: 0 <= k < |es| && k != i ==> es[k] in RemoveAt(es, i)
  {
    var r := RemoveAt(es, i);
    forall k | 0 <= k < |es| && k != i
      ensures es[k] in r
    {
      if k < i {
        assert r[k] == es[k];
      } else {
        assert r[k - 1] == es[k];
      }
    }
  }

  lemma ArcsRemoveAt(es: seq<RawEdge>, i: nat)
    requires i < |es|
    ensures Arcs(RemoveAt(es, i)) <= Arcs(es)
  {
    RemoveAtMembers(es, i);
  }

  lemma ArcsAppend(es: seq<RawEdge>, e: RawEdge)
    ensures Arcs(es + [e]) == Arcs(es) + {(e.src, e.dst)}
  {
    var l, r := Arcs(es + [e]), Arcs(es) + {(e.src, e.dst)};
    forall x | x in l ensures x in r {
      var f :| f in es + [e] && x == (f.src, f.dst);
    }
    forall x | x in r ensures x in l {
      if x != (e.src, e.dst) {
        var f :| f in es && x == (f.src, f.dst);
        assert f in es + [e];
      }
    }
  }

  lemma ArcsReweight(es: seq<RawEdge>, i: nat, w: Edge)
    requires i < |es|
    ensures Arcs(es[i := RawEdge(es[i].src, es[i].dst, w)]) == Arcs(es)
  {
    var es' := es[i := RawEdge(es[i].src, es[i].dst, w)];
    forall x | x in Arcs(es') ensures x in Arcs(es) {
      var f :| f in es' && x == (f.src, f.dst);
      var k :| 0 <= k < |es'| && es'[k] == f;
      assert (es[k].src, es[k].dst) == x;
    }
    forall x | x in Arcs(es) ensures x in Arcs(es') {
      var f :| f in es && x == (f.src, f.dst);
      var k :| 0 <= k < |es| && es[k] == f;
      assert (es'[k].src, es'[k].dst) == x;
    }
  }

  // ---------------------------------------------------------------------
  // The invariant of a port-numbered DAG
  // ---------------------------------------------------------------------

  /** Two nodes are joined by at most one edge (daggy's `update_edge` overwrites). */
  ghost predicate UniquePairs(es: seq<RawEdge>) {
    forall i, j :: 0 <= i < j < |es| ==> (es[i].src, es[i].dst) != (es[j].src, es[j].dst)
  }

  /** Every input port is fed by at most one edge, except possibly through the edge at index `x`. */
  ghost predicate ProducersExcept(es: seq<RawEdge>, x: int) {
    forall i, j :: 0 <= i < j < |es| && es[i].dst == es[j].dst && es[i].weight.target == es[j].weight.target ==> i == x || j == x
  }

  /** An input port is fed by at most one edge. */
  ghost predicate SingleProducer(es: seq<RawEdge>) {
    ProducersExcept(es, -1)
  }

  ghost predicate WellFormed<N>(nodes: map<NodeId, N>, next: NodeId, es: seq<RawEdge>) {
    && (forall n | n in nodes :: n < next)
    && (forall e | e in es :: e.src in nodes && e.dst in nodes)
    && Acyclic(Arcs(es))
    && UniquePairs(es)
    && SingleProducer(es)
  }

  /** The input ports some edge feeds. */
  function FedPorts(es: seq<RawEdge>): set<Port> {
    set e | e in es :: Port(e.dst, e.weight.target)
  }

  /** Without a repeated port, each edge adds one fed port. */
  lemma {:induction false} FedPortsCount(es: seq<RawEdge>)
    ensures SingleProducer(es) ==> |FedPorts(es)| == |es|
  {
    if es != [] && SingleProducer(es) {
      var init, last := es[..|es| - 1], es[|es| - 1];
      assert es == init + [last];
      assert forall k | 0 <= k < |init| :: init[k] == es[k];
      assert SingleProducer(init);
      FedPortsCount(init);
      var p := Port(last.dst, last.weight.target);
      assert p !in FedPorts(init) by {
        forall k | 0 <= k < |init| ensures Port(init[k].dst, init[k].weight.target) != p {
          assert es[k] == init[k];
        }
      }
      assert FedPorts(es) == FedPorts(init) + {p};
    }
  }

  /** Without a repeated pair, each edge adds one arc. */
  lemma {:induction false} ArcsCount(es: seq<RawEdge>)
    ensures UniquePairs(es) ==> |Arcs(es)| == |es|
  {
    if es != [] && UniquePairs(es) {
      var init, last := es[..|es| - 1], es[|es| - 1];
      assert es == init + [last];
      assert forall k | 0 <= k < |init| :: init[k] == es[k];
      assert UniquePairs(init);
      ArcsCount(init);
      assert (last.src, last.dst) !in Arcs(init) by {
        forall k | 0 <= k < |init| ensures (init[k].src, init[k].dst) != (last.src, last.dst) {
          assert es[k] == init[k];
        }
      }
      assert Arcs(es) == Arcs(init) + {(last.src, last.dst)};
    }
  }

  /** With one producer per port, the occupant of a port is the edge `PortEdge` finds. */
  lemma OccupantIsPortEdge(es: seq<RawEdge>, trg: Port)
    requires SingleProducer(es)
    ensures forall k :: 0 <= k < |es| && Occupies(es[k], trg) ==> PortEdge(es, trg) == Some(k)
  {
  }

  /** With one edge per node pair, the a->b edge is the one `ArcEdge` finds. */
  lemma ArcIsArcEdge(es: seq<RawEdge>, a: NodeId, b: NodeId)
    requires UniquePairs(es)
    ensures forall k :: 0 <= k < |es| && es[k].src == a && es[k].dst == b ==> ArcEdge(es, a, b) == Some(k)
  {
  }

  /** Removing the edge at `i` keeps the pair and port invariants, and makes the exception at `i` go away. */
  lemma RemoveAtKeepsUnique(es: seq<RawEdge>, i: nat)
    requires i < |es| && UniquePairs(es) && ProducersExcept(es, i)
    ensures UniquePairs(RemoveAt(es, i)) && SingleProducer(RemoveAt(es, i))
  {
    var r := RemoveAt(es, i);
    forall a, b | 0 <= a < b < |r|
      ensures (r[a].src, r[a].dst) != (r[b].src, r[b].dst)
      ensures r[a].dst == r[b].dst ==> r[a].weight.target != r[b].weight.target
    {
      var a1 := if a < i then a else a + 1;
      var b1 := if b < i then b else b + 1;
      assert r[a] == es[a1] && r[b] == es[b1];
    }
  }

  /** Removing one edge keeps a well-formed DAG well formed. */
  lemma RemoveAtWellFormed<N>(nodes: map<NodeId, N>, next: NodeId, es: seq<RawEdge>, i: nat)
    requires i < |es| && WellFormed(nodes, next, es)
    ensures WellFormed(nodes, next, RemoveAt(es, i))
  {
    ArcsRemoveAt(es, i);
    AcyclicSubset(Arcs(RemoveAt(es, i)), Arcs(es));
    RemoveAtMembers(es, i);
    RemoveAtKeepsUnique(es, i);
  }

  // ---------------------------------------------------------------------
  // update_edge
  // ---------------------------------------------------------------------

  /** The edge `update_edge(src, trg)` installs. */
  function NewEdge(src: Port, trg: Port): RawEdge {
    RawEdge(src.node, trg.node, Edge(src.port, trg.port))
  }

  /** Where the installed edge is stored: over the existing src->trg edge, or appended. */
  function NewIndex(es: seq<RawEdge>, src: Port, trg: Port): (i: nat)
    ensures i <= |es|
    ensures i < |es| <==> ArcEdge(es, src.node, trg.node).Some?
  {
    var existing := ArcEdge(es, src.node, trg.node);
    if existing.Some? then existing.value else |es|
  }

  /** daggy's `update_edge`: overwrite the weight of the src.node -> trg.node edge, or add one. */
  function Overwritten(es: seq<RawEdge>, src: Port, trg: Port): (r: seq<RawEdge>)
    ensures |r| == if NewIndex(es, src, trg) < |es| then |es| else |es| + 1
    ensures r[NewIndex(es, src, trg)] == NewEdge(src, trg)
    ensures forall k :: 0 <= k < |r| && k != NewIndex(es, src, trg) ==> r[k] == es[k]
  {
    var i := NewIndex(es, src, trg);
    if i < |es| then es[i := NewEdge(src, trg)] else es + [NewEdge(src, trg)]
  }

  /**
   * The edges after a successful `update_edge(src, trg)`: the edge found
   * occupying `trg` beforehand is removed from the overwritten edges, unless
   * it is the very edge that was overwritten (`UpdatedAsWritten` removes it
   * anyway).
   */
  function Updated(es: seq<RawEdge>, src: Port, trg: Port): seq<RawEdge> {
    var es1 := Overwritten(es, src, trg);
    var replaced := PortEdge(es, trg);
    if replaced.Some? && replaced.value != NewIndex(es, src, trg) then RemoveAt(es1, replaced.value) else es1
  }

  /** `update_edge` as src/dag.rs writes it: the edge found on `trg` is always removed. */
  function UpdatedAsWritten(es: seq<RawEdge>, src: Port, trg: Port): seq<RawEdge> {
    var es1 := Overwritten(es, src, trg);
    var replaced := PortEdge(es, trg);
    if replaced.Some? then RemoveAt(es1, replaced.value) else es1
  }

  /** daggy refuses the edge only when it is new and its target already reaches its source. */
  ghost predicate WouldCreateCycle(es: seq<RawEdge>, src: Port, trg: Port) {
    ArcEdge(es, src.node, trg.node).None? && Reaches(Arcs(es), trg.node, src.node)
  }

  /**
   * The source's `update_edge`, reconnecting a node pair into the port its
   * edge already feeds, reports success and deletes the connection.
   */
  lemma UpdateEdgeAsWrittenDeletesReconnection()
    ensures var es := [RawEdge(0, 1, Edge(0, 0))];
            && !WouldCreateCycle(es, Port(0, 1), Port(1, 0))
            && UpdatedAsWritten(es, Port(0, 1), Port(1, 0)) == []
            && Updated(es, Port(0, 1), Port(1, 0)) == [RawEdge(0, 1, Edge(1, 0))]
  {
    var es := [RawEdge(0, 1, Edge(0, 0))];
    assert PortEdge(es, Port(1, 0)) == Some(0);
    assert ArcEdge(es, 0, 1) == Some(0);
  }

  /** The two functions differ only when the edge on `trg` is itself the overwritten one. */
  lemma UpdatedAsWrittenAgrees(es: seq<RawEdge>, src: Port, trg: Port)
    requires PortEdge(es, trg).None? || PortEdge(es, trg).value != NewIndex(es, src, trg)
    ensures UpdatedAsWritten(es, src, trg) == Updated(es, src, trg)
  {
  }

  /** The overwritten edges still join each node pair at most once and stay acyclic. */
  lemma OverwrittenShape(es: seq<RawEdge>, src: Port, trg: Port)
    requires UniquePairs(es) && Acyclic(Arcs(es)) && !WouldCreateCycle(es, src, trg)
    ensures UniquePairs(Overwritten(es, src, trg)) && Acyclic(Arcs(Overwritten(es, src, trg)))
  {
    var i := NewIndex(es, src, trg);
    var es1 := Overwritten(es, src, trg);
    ArcIsArcEdge(es, src.node, trg.node);
    if i < |es| {
      assert es1 == es[i := RawEdge(es[i].src, es[i].dst, NewEdge(src, trg).weight)];
      ArcsReweight(es, i, NewEdge(src, trg).weight);
    } else {
      ArcsAppend(es, NewEdge(src, trg));
      AcyclicAddArc(Arcs(es), src.node, trg.node);
    }
  }

  /** In the overwritten edges a port has two producers only through the edge still to be removed. */
  lemma OverwrittenProducers(es: seq<RawEdge>, src: Port, trg: Port)
    requires SingleProducer(es)
    ensures var replaced := PortEdge(es, trg);
            if replaced.Some? && replaced.value != NewIndex(es, src, trg)
            then ProducersExcept(Overwritten(es, src, trg), replaced.value)
            else SingleProducer(Overwritten(es, src, trg))
  {
    OccupantIsPortEdge(es, trg);
  }

  /** A successful update keeps the DAG well formed. */
  lemma UpdatedWellFormed<N>(nodes: map<NodeId, N>, next: NodeId, es: seq<RawEdge>, src: Port, trg: Port)
    requires WellFormed(nodes, next, es) && src.node in nodes && trg.node in nodes
    requires !WouldCreateCycle(es, src, trg)
    ensures WellFormed(nodes, next, Updated(es, src, trg))
  {
    var es1 := Overwritten(es, src, trg);
    var replaced := PortEdge(es, trg);
    OverwrittenShape(es, src, trg);
    OverwrittenProducers(es, src, trg);
    assert forall e | e in es1 :: e.src in nodes && e.dst in nodes by {
      forall e | e in es1 ensures e.src in nodes && e.dst in nodes {
        var k :| 0 <= k < |es1| && es1[k] == e;
        if k != NewIndex(es, src, trg) {
          assert e == es[k];
        }
      }
    }
    if replaced.Some? && replaced.value != NewIndex(es, src, trg) {
      ArcsRemoveAt(es1, replaced.value);
      AcyclicSubset(Arcs(RemoveAt(es1, replaced.value)), Arcs(es1));
      RemoveAtMembers(es1, replaced.value);
      RemoveAtKeepsUnique(es1, replaced.value);
    }
  }

  /** After a successful update, `trg` is fed by exactly the new connection. */
  lemma UpdatedFeedsTarget(es: seq<RawEdge>, src: Port, trg: Port)
    requires SingleProducer(es)
    ensures NewEdge(src, trg) in Updated(es, src, trg)
    ensures forall e | e in Updated(es, src, trg) && Occupies(e, trg) :: e == NewEdge(src, trg)
  {
    var es1 := Overwritten(es, src, trg);
    var replaced := PortEdge(es, trg);
    var i := NewIndex(es, src, trg);
    OccupantIsPortEdge(es, trg);
    if replaced.Some? && replaced.value != i {
      RemoveAtMembers(es1, replaced.value);
      forall e | e in Updated(es, src, trg) && Occupies(e, trg)
        ensures e == NewEdge(src, trg)
      {
        var k :| 0 <= k < |es1| && k != replaced.value && es1[k] == e;
      }
    }
  }

  /** Edges into other nodes are kept: the update only touches the target node's inputs. */
  lemma UpdatedKeepsOtherInputs(es: seq<RawEdge>, src: Port, trg: Port, e: RawEdge)
    requires e.dst != trg.node
    ensures e in Updated(es, src, trg) <==> e in es
  {
    var es1 := Overwritten(es, src, trg);
    var replaced := PortEdge(es, trg);
    var i := NewIndex(es, src, trg);
    assert e in es1 <==> e in es by {
      if e in es1 {
        var k :| 0 <= k < |es1| && es1[k] == e;
        assert k != i;
      }
      if e in es {
        var k :| 0 <= k < |es| && es[k] == e;
        assert k != i && es1[k] == e;
      }
    }
    if replaced.Some? && replaced.value != i {
      RemoveAtMembers(es1, replaced.value);
      if e in es1 {
        var k :| 0 <= k < |es1| && es1[k] == e;
        assert k != replaced.value;
      }
    }
  }

  /** The edge that fed `trg` from another node is gone after the update. */
  lemma UpdatedDropsOldProducer(es: seq<RawEdge>, src: Port, trg: Port, old_: RawEdge)
    requires SingleProducer(es)
    requires old_ in es && Occupies(old_, trg) && old_.src != src.node
    ensures old_ !in Updated(es, src, trg)
  {
    UpdatedFeedsTarget(es, src, trg);
  }

  /**
   * The two nodes stay joined by one edge: connecting the same pair on another
   * input port moves the connection, and the port it fed before is left empty.
   */
  lemma UpdatedMovesPairToNewPort(es: seq<RawEdge>, src: Port, trg: Port, t': nat)
    requires SingleProducer(es) && UniquePairs(es)
    requires t' != trg.port
    requires exists e :: e in es && e.src == src.node && Occupies(e, Port(trg.node, t'))
    ensures PortEdge(Updated(es, src, trg), Port(trg.node, t')).None?
  {
    var e :| e in es && e.src == src.node && Occupies(e, Port(trg.node, t'));
    var ie :| 0 <= ie < |es| && es[ie] == e;
    ArcIsArcEdge(es, src.node, trg.node);
    OccupantIsPortEdge(es, Port(trg.node, t'));
    var es1 := Overwritten(es, src, trg);
    var replaced := PortEdge(es, trg);
    assert NewIndex(es, src, trg) == ie;
    forall f | f in Updated(es, src, trg)
      ensures !Occupies(f, Port(trg.node, t'))
    {
      assert f in es1 by {
        if replaced.Some? && replaced.value != ie {
          RemoveAtMembers(es1, replaced.value);
        }
      }
      var k :| 0 <= k < |es1| && es1[k] == f;
    }
  }
  // ---------------------------------------------------------------------
  // Parents and children of a node
  // ---------------------------------------------------------------------

  /** One parent entry: (port of the parent node, input port of the child). */
  type ParentEntry = (Port, nat)

  /** One child entry: (output port of the parent, port of the child node). */
  type ChildEntry = (nat, Port)

  function ParentEntryOf(e: RawEdge): ParentEntry {
    (Port(e.src, e.weight.source), e.weight.target)
  }

  function ChildEntryOf(e: RawEdge): ChildEntry {
    (e.weight.source, Port(e.dst, e.weight.target))
  }

  /** The parent entries of `n`, one per edge into it, in storage order. */
  function ParentsOf(es: seq<RawEdge>, n: NodeId): seq<ParentEntry> {
    if es == [] then []
    else ParentsOf(es[..|es| - 1], n) + (if es[|es| - 1].dst == n then [ParentEntryOf(es[|es| - 1])] else [])
  }

  /** The child entries of `n`, one per edge out of it, in storage order. */
  function ChildrenOf(es: seq<RawEdge>, n: NodeId): seq<ChildEntry> {
    if es == [] then []
    else ChildrenOf(es[..|es| - 1], n) + (if es[|es| - 1].src == n then [ChildEntryOf(es[|es| - 1])] else [])
  }

  /** `parents(n)` lists exactly the edges into `n`. */
  lemma {:induction false} ParentsOfExact(es: seq<RawEdge>, n: NodeId, x: ParentEntry)
    ensures x in ParentsOf(es, n) <==> exists e :: e in es && e.dst == n && x == ParentEntryOf(e)
  {
    if es != [] {
      var init := es[..|es| - 1];
      ParentsOfExact(init, n, x);
      assert es == init + [es[|es| - 1]];
      if x in ParentsOf(init, n) {
        var e :| e in init && e.dst == n && x == ParentEntryOf(e);
        assert e in es;
      }
    }
  }

  /** `children(n)` lists exactly the edges out of `n`. */
  lemma {:induction false} ChildrenOfExact(es: seq<RawEdge>, n: NodeId, x: ChildEntry)
    ensures x in ChildrenOf(es, n) <==> exists e :: e in es && e.src == n && x == ChildEntryOf(e)
  {
    if es != [] {
      var init := es[..|es| - 1];
      ChildrenOfExact(init, n, x);
      assert es == init + [es[|es| - 1]];
      if x in ChildrenOf(init, n) {
        var e :| e in init && e.src == n && x == ChildEntryOf(e);
        assert e in es;
      }
    }
  }

  /** Every parent entry of `n` stands for an arc into `n`. */
  lemma ParentsAreArcs(es: seq<RawEdge>, n: NodeId)
    ensures forall x | x in ParentsOf(es, n) :: (x.0.node, n) in Arcs(es)
  {
    forall x | x in ParentsOf(es, n)
      ensures (x.0.node, n) in Arcs(es)
    {
      ParentsOfExact(es, n, x);
    }
  }

  /** Every child entry of `n` stands for an arc out of `n`. */
  lemma ChildrenAreArcs(es: seq<RawEdge>, n: NodeId)
    ensures forall x | x in ChildrenOf(es, n) :: (n, x.1.node) in Arcs(es)
  {
    forall x | x in ChildrenOf(es, n)
      ensures (n, x.1.node) in Arcs(es)
    {
      ChildrenOfExact(es, n, x);
    }
  }

  lemma {:induction false} ParentsOfRemoveAt(es: seq<RawEdge>, i: nat, n: NodeId)
    requires i < |es| && es[i].dst != n
    ensures ParentsOf(RemoveAt(es, i), n) == ParentsOf(es, n)
    decreases |es|
  {
    var r := RemoveAt(es, i);
    if i < |es| - 1 {
      var init := es[..|es| - 1];
      ParentsOfRemoveAt(init, i, n);
      assert r[..|r| - 1] == RemoveAt(init, i);
      assert r[|r| - 1] == es[|es| - 1];
    } else {
      assert r == es[..|es| - 1];
    }
  }

  lemma {:induction false} ParentsOfReweight(es: seq<RawEdge>, i: nat, e: RawEdge, n: NodeId)
    requires i < |es| && es[i].dst != n && e.dst != n
    ensures ParentsOf(es[i := e], n) == ParentsOf(es, n)
    decreases |es|
  {
    var r := es[i := e];
    if i < |es| - 1 {
      ParentsOfReweight(es[..|es| - 1], i, e, n);
      assert r[..|r| - 1] == es[..|es| - 1][i := e];
    } else {
      assert r[..|r| - 1] == es[..|es| - 1];
    }
  }

  /** Parent lists of nodes other than the target are untouched by an update. */
  lemma ParentsOfUpdated(es: seq<RawEdge>, src: Port, trg: Port, n: NodeId)
    requires n != trg.node
    ensures ParentsOf(Updated(es, src, trg), n) == ParentsOf(es, n)
  {
    var es1 := Overwritten(es, src, trg);
    var replaced := PortEdge(es, trg);
    var i := NewIndex(es, src, trg);
    if i < |es| {
      assert es1 == es[i := NewEdge(src, trg)];
      ParentsOfReweight(es, i, NewEdge(src, trg), n);
    } else {
      assert es1[..|es1| - 1] == es;
    }
    if replaced.Some? && replaced.value != i {
      ParentsOfRemoveAt(es1, replaced.value, n);
    }
  }

  // ---------------------------------------------------------------------
  // Removing edges
  // ---------------------------------------------------------------------

  /** The edges that do not leave `n`, in storage order. */
  function WithoutSource(es: seq<RawEdge>, n: NodeId): seq<RawEdge> {
    if es == [] then []
    else WithoutSource(es[..|es| - 1], n) + (if es[|es| - 1].src == n then [] else [es[|es| - 1]])
  }

  /** The edges touching neither end at `n`, in storage order. */
  function Detached(es: seq<RawEdge>, n: NodeId): seq<RawEdge> {
    if es == [] then []
    else Detached(es[..|es| - 1], n) + (if es[|es| - 1].src == n || es[|es| - 1].dst == n then [] else [es[|es| - 1]])
  }

  lemma {:induction false} WithoutSourceExact(es: seq<RawEdge>, n: NodeId, e: RawEdge)
    ensures e in WithoutSource(es, n) <==> e in es && e.src != n
  {
    if es != [] {
      WithoutSourceExact(es[..|es| - 1], n, e);
      assert es == es[..|es| - 1] + [es[|es| - 1]];
    }
  }

  lemma {:induction false} DetachedExact(es: seq<RawEdge>, n: NodeId, e: RawEdge)
    ensures e in Detached(es, n) <==> e in es && e.src != n && e.dst != n
  {
    if es != [] {
      DetachedExact(es[..|es| - 1], n, e);
      assert es == es[..|es| - 1] + [es[|es| - 1]];
    }
  }

  /** Removing an edge out of `n` does not change which edges do not leave `n`. */
  lemma {:induction false} WithoutSourceRemoveAt(es: seq<RawEdge>, i: nat, n: NodeId)
    requires i < |es| && es[i].src == n
    ensures WithoutSource(RemoveAt(es, i), n) == WithoutSource(es, n)
    decreases |es|
  {
    var r := RemoveAt(es, i);
    if i < |es| - 1 {
      WithoutSourceRemoveAt(es[..|es| - 1], i, n);
      assert r[..|r| - 1] == RemoveAt(es[..|es| - 1], i);
      assert r[|r| - 1] == es[|es| - 1];
    } else {
      assert r == es[..|es| - 1];
    }
  }

  lemma {:induction false} WithoutSourceNone(es: seq<RawEdge>, n: NodeId)
    requires forall e | e in es :: e.src != n
    ensures WithoutSource(es, n) == es
  {
    if es != [] {
      WithoutSourceNone(es[..|es| - 1], n);
      assert es == es[..|es| - 1] + [es[|es| - 1]];
    }
  }

  lemma {:induction false} ParentsOfWithoutSource(es: seq<RawEdge>, n: NodeId, m: NodeId)
    requires forall e | e in es :: !(e.src == n && e.dst == m)
    ensures ParentsOf(WithoutSource(es, n), m) == ParentsOf(es, m)
  {
    if es != [] {
      ParentsOfWithoutSource(es[..|es| - 1], n, m);
      var w := WithoutSource(es, n);
      var wi := WithoutSource(es[..|es| - 1], n);
      if es[|es| - 1].src == n {
        assert w == wi;
      } else {
        assert w[..|w| - 1] == wi;
      }
    }
  }

  lemma {:induction false} ParentsOfDetached(es: seq<RawEdge>, n: NodeId, m: NodeId)
    requires m != n && forall e | e in es :: !(e.src == n && e.dst == m)
    ensures ParentsOf(Detached(es, n), m) == ParentsOf(es, m)
  {
    if es != [] {
      ParentsOfDetached(es[..|es| - 1], n, m);
      var w := Detached(es, n);
      var wi := Detached(es[..|es| - 1], n);
      var l := es[|es| - 1];
      if l.src == n || l.dst == n {
        assert w == wi;
      } else {
        assert w[..|w| - 1] == wi;
      }
    }
  }

  /** Dropping edges keeps a graph acyclic. */
  lemma WithoutSourceAcyclic(es: seq<RawEdge>, n: NodeId)
    requires Acyclic(Arcs(es))
    ensures Acyclic(Arcs(WithoutSource(es, n)))
  {
    forall a | a in Arcs(WithoutSource(es, n))
      ensures a in Arcs(es)
    {
      var e :| e in WithoutSource(es, n) && (e.src, e.dst) == a;
      WithoutSourceExact(es, n, e);
    }
    AcyclicSubset(Arcs(WithoutSource(es, n)), Arcs(es));
  }

  /** Dropping the edges out of `n` first does not change what detaching `n` leaves. */
  lemma {:induction false} DetachedWithoutSource(es: seq<RawEdge>, n: NodeId)
    ensures Detached(WithoutSource(es, n), n) == Detached(es, n)
  {
    if es != [] {
      var init, l := es[..|es| - 1], es[|es| - 1];
      DetachedWithoutSource(init, n);
      var w := WithoutSource(init, n);
      if l.src != n {
        var wl := w + [l];
        assert WithoutSource(es, n) == wl;
        assert wl[..|wl| - 1] == w && wl[|wl| - 1] == l;
        assert Detached(wl, n) == Detached(w, n) + (if l.dst == n then [] else [l]);
      } else {
        assert WithoutSource(es, n) == w;
      }
    }
  }

  // ---------------------------------------------------------------------
  // The graph object
  // ---------------------------------------------------------------------

  /** `PortNumbered<N>`: the daggy `Dag` it owns, as node weights and an edge sequence. */
  class PortNumbered<N> {
    var nodes: map<NodeId, N>
    var next: NodeId
    var edges: seq<RawEdge>

    ghost predicate Valid()
      reads this
    {
      WellFormed(nodes, next, edges)
    }

    constructor ()
      ensures Valid() && nodes == map[] && edges == []
    {
      nodes, next, edges := map[], 0, [];
    }

    /** `add_node`: a fresh handle, no edges. */
    method AddNode(weight: N) returns (n: NodeId)
      requires Valid()
      modifies this
      ensures Valid() && edges == old(edges)
      ensures n !in old(nodes) && nodes == old(nodes)[n := weight]
    {
      n := next;
      nodes := nodes[n := weight];
      next := next + 1;
    }

    /** `remove_node`: the node and every edge touching it disappear. */
    method RemoveNode(n: NodeId) returns (r: Option<N>)
      requires Valid()
      modifies this
      ensures Valid() && next == old(next)
      ensures n in old(nodes) ==> r == Some(old(nodes)[n]) && nodes == old(nodes) - {n} && edges == Detached(old(edges), n)
      ensures n !in old(nodes) ==> r == None && nodes == old(nodes) && edges == old(edges)
    {
      if n in nodes {
        r := Some(nodes[n]);
        ghost var es := edges;
        edges := Detached(edges, n);
        nodes := nodes - {n};
        forall e | e in edges ensures e in es && e.src != n && e.dst != n {
          DetachedExact(es, n, e);
        }
        assert Arcs(edges) <= Arcs(es);
        AcyclicSubset(Arcs(edges), Arcs(es));
        DetachedOrderPreserved(es, n);
      } else {
        r := None;
      }
    }

    function NodeWeight(n: NodeId): (r: Option<N>)
      reads this
      ensures r.Some? <==> n in nodes
      ensures r.Some? ==> r.value == nodes[n]
    {
      if n in nodes then Some(nodes[n]) else None
    }

    /** `node_weight_mut` followed by an assignment through it. */
    method SetNodeWeight(n: NodeId, weight: N)
      requires Valid() && n in nodes
      modifies this
      ensures Valid() && edges == old(edges) && next == old(next)
      ensures nodes == old(nodes)[n := weight]
    {
      nodes := nodes[n := weight];
    }

    /**
     * `edge_count`: in a valid DAG, as many edges as fed input ports and as
     * joined node pairs, since each port is fed once and each pair joined once.
     */
    function EdgeCount(): (n: nat)
      reads this
      ensures Valid() ==> n == |FedPorts(edges)| == |Arcs(edges)|
    {
      FedPortsCount(edges);
      ArcsCount(edges);
      |edges|
    }

    /** The loop behind `find_edge`: the first stored edge satisfying `p`. */
    method FindEdge(p: RawEdge -> bool) returns (r: Option<nat>)
      ensures r == Find(edges, p)
    {
      var i := 0;
      while i < |edges|
        invariant 0 <= i <= |edges|
        invariant forall j :: 0 <= j < i ==> !p(edges[j])
      {
        if p(edges[i]) {
          FindFirst(edges, p, i);
          return Some(i);
        }
        i := i + 1;
      }
      r := None;
    }

    /**
     * `update_edge`: replace the connection feeding `trg` by one from `src`,
     * unless that would close a cycle, in which case nothing changes.
     */
    method UpdateEdge(src: Port, trg: Port) returns (r: Result<nat, WouldBreak>)
      requires Valid() && src.node in nodes && trg.node in nodes
      modifies this
      ensures Valid() && nodes == old(nodes) && next == old(next)
      ensures r.Err? <==> WouldCreateCycle(old(edges), src, trg)
      ensures r.Err? ==> r.error == WouldCycle && edges == old(edges)
      ensures r.Ok? ==> edges == Updated(old(edges), src, trg)
      ensures r.Ok? ==> r.value < |edges| && edges[r.value] == NewEdge(src, trg)
    {
      ghost var es := edges;
      var replaced := FindEdge((e: RawEdge) => Occupies(e, trg));
      var existing := FindEdge((e: RawEdge) => e.src == src.node && e.dst == trg.node);
      assert replaced == PortEdge(es, trg) && existing == ArcEdge(es, src.node, trg.node);
      var at: nat;
      if existing.Some? {
        at := existing.value;
        edges := edges[at := NewEdge(src, trg)];
      } else {
        var cycle := HasPathConnecting(edges, trg.node, src.node);
        if cycle {
          return Err(WouldCycle);
        }
        at := |edges|;
        edges := edges + [NewEdge(src, trg)];
      }
      assert at == NewIndex(es, src, trg) && edges == Overwritten(es, src, trg);
      if replaced.Some? && replaced.value != at {
        var k := replaced.value;
        edges := RemoveAt(edges, k);
        if k < at {
          at := at - 1;
        }
      }
      UpdatedWellFormed(nodes, next, es, src, trg);
      r := Ok(at);
    }

    /** `remove_edge_to_port`: take away the connection feeding `trg`, reporting where it came from. */
    method RemoveEdgeToPort(trg: Port) returns (r: Option<Port>)
      requires Valid()
      modifies this
      ensures Valid() && nodes == old(nodes) && next == old(next)
      ensures PortEdge(old(edges), trg).None? ==> r.None? && edges == old(edges)
      ensures PortEdge(old(edges), trg).Some? ==>
                var i := PortEdge(old(edges), trg).value;
                r == Some(Port(old(edges)[i].src, old(edges)[i].weight.source)) && edges == RemoveAt(old(edges), i)
    {
      var found := FindEdge((e: RawEdge) => Occupies(e, trg));
      if found.Some? {
        var i := found.value;
        r := Some(Port(edges[i].src, edges[i].weight.source));
        RemoveAtWellFormed(nodes, next, edges, i);
        edges := RemoveAt(edges, i);
      } else {
        r := None;
      }
    }

    /** `remove_outgoing_edges`: delete the edges leaving `n`, one at a time. */
    method RemoveOutgoingEdges(n: NodeId)
      requires Valid()
      modifies this
      ensures Valid() && nodes == old(nodes) && next == old(next)
      ensures edges == WithoutSource(old(edges), n)
    {
      while true
        invariant Valid() && nodes == old(nodes) && next == old(next)
        invariant WithoutSource(edges, n) == WithoutSource(old(edges), n)
        decreases |edges|
      {
        var found := FindEdge((e: RawEdge) => e.src == n);
        if found.None? {
          WithoutSourceNone(edges, n);
          return;
        }
        var i := found.value;
        WithoutSourceRemoveAt(edges, i, n);
        RemoveAtWellFormed(nodes, next, edges, i);
        edges := RemoveAt(edges, i);
      }
    }

    /** `edges()`: the iterator walks the edge storage by index, yielding both ports of each edge. */
    method Edges() returns (r: seq<(Port, Port)>)
      ensures |r| == |edges| == EdgeCount()
      ensures forall i :: 0 <= i < |r| ==>
                r[i] == (Port(edges[i].src, edges[i].weight.source), Port(edges[i].dst, edges[i].weight.target))
    {
      r := [];
      var i := 0;
      while i < |edges|
        invariant 0 <= i <= |edges| && |r| == i
        invariant forall k :: 0 <= k < i ==>
                    r[k] == (Port(edges[k].src, edges[k].weight.source), Port(edges[k].dst, edges[k].weight.target))
      {
        var e := edges[i];
        r := r + [(Port(e.src, e.weight.source), Port(e.dst, e.weight.target))];
        i := i + 1;
      }
    }

    /** `parents(n)`: one entry per edge into `n`. */
    method Parents(n: NodeId) returns (r: seq<ParentEntry>)
      ensures r == ParentsOf(edges, n)
    {
      r := [];
      var i := 0;
      while i < |edges|
        invariant 0 <= i <= |edges|
        invariant r == ParentsOf(edges[..i], n)
      {
        assert edges[..i + 1][..i] == edges[..i];
        if edges[i].dst == n {
          r := r + [ParentEntryOf(edges[i])];
        }
        i := i + 1;
      }
      assert edges[..i] == edges;
    }

    /** `children(n)`: one entry per edge out of `n`. */
    method Children(n: NodeId) returns (r: seq<ChildEntry>)
      ensures r == ChildrenOf(edges, n)
    {
      r := [];
      var i := 0;
      while i < |edges|
        invariant 0 <= i <= |edges|
        invariant r == ChildrenOf(edges[..i], n)
      {
        assert edges[..i + 1][..i] == edges[..i];
        if edges[i].src == n {
          r := r + [ChildEntryOf(edges[i])];
        }
        i := i + 1;
      }
      assert edges[..i] == edges;
    }
  }

  lemma FindFirst(es: seq<RawEdge>, p: RawEdge -> bool, i: nat)
    requires i < |es| && p(es[i]) && forall j :: 0 <= j < i ==> !p(es[j])
    ensures Find(es, p) == Some(i)
  {
  }

  /** `Detached` keeps a subsequence of the edges, in order. */
  lemma {:induction false} DetachedOrderPreserved(es: seq<RawEdge>, n: NodeId)
    requires UniquePairs(es) && SingleProducer(es)
    ensures UniquePairs(Detached(es, n)) && SingleProducer(Detached(es, n))
  {
    if es != [] {
      var init := es[..|es| - 1];
      var l := es[|es| - 1];
      DetachedOrderPreserved(init, n);
      var d := Detached(es, n);
      var di := Detached(init, n);
      if !(l.src == n || l.dst == n) {
        assert d == di + [l];
        forall k | 0 <= k < |di|
          ensures (di[k].src, di[k].dst) != (l.src, l.dst)
          ensures di[k].dst == l.dst ==> di[k].weight.target != l.weight.target
        {
          assert di[k] in di;
          DetachedExact(init, n, di[k]);
          var m :| 0 <= m < |init| && init[m] == di[k];
          assert es[m] == di[k] && m < |es| - 1;
        }
      }
    }
  }
}
