/**
 * The recompilation cascade of src/lib.rs: `update_dag(n)` rebuilds `n`
 * and then, child by child, everything below it, telling the listeners
 * about every rebuild. Here are the order of those rebuilds and the
 * events they raise.
 */
module Cascade {
  import opened Dag

  /** What a listener is told about a node's program. */
  datatype EventType = Added | Changed | Removed

  /** `n` and every node it has a path to. */
  ghost function Descendants(es: seq<RawEdge>, n: NodeId): set<NodeId> {
    {n} + set e | e in es && Reaches(Arcs(es), n, e.dst) :: e.dst
  }

  /** A child's descendants are strictly fewer than its parent's: the cascade terminates. */
  lemma DescendantsShrink(es: seq<RawEdge>, n: NodeId, c: NodeId)
    requires Acyclic(Arcs(es)) && (n, c) in Arcs(es)
    ensures Descendants(es, c) < Descendants(es, n)
  {
    var arcs := Arcs(es);
    ChildDoesNotReachParent(arcs, n, c);
    var e :| e in es && (e.src, e.dst) == (n, c);
    ReachesArc(arcs, n, c);
    assert c in Descendants(es, n);
    forall x | x in Descendants(es, c)
      ensures x in Descendants(es, n)
    {
      if x != c {
        var f :| f in es && Reaches(arcs, c, f.dst) && f.dst == x;
        ReachesTrans(arcs, n, c, x);
      }
    }
    assert n !in Descendants(es, c);
  }

  lemma ChildFacts(es: seq<RawEdge>, n: NodeId, x: ChildEntry)
    requires x in ChildrenOf(es, n)
    ensures (n, x.1.node) in Arcs(es)
  {
    ChildrenAreArcs(es, n);
  }

  /**
   * The nodes `update_dag(n)` rebuilds, in order: `n`, then the cascade
   * of each child in turn. A node below `n` along several paths is rebuilt
   * once per path.
   */
  ghost function UpdateOrder(es: seq<RawEdge>, n: NodeId): seq<NodeId>
    requires Acyclic(Arcs(es))
    decreases Descendants(es, n), 1
  {
    [n] + UpdateChildren(es, n, ChildrenOf(es, n))
  }

  /** The loop of `update_dag` over the child entries `cs` of `n`. */
  ghost function UpdateChildren(es: seq<RawEdge>, n: NodeId, cs: seq<ChildEntry>): seq<NodeId>
    requires Acyclic(Arcs(es)) && forall x | x in cs :: x in ChildrenOf(es, n)
    decreases Descendants(es, n), 0, |cs|
  {
    if cs == [] then []
    else
      ChildFacts(es, n, cs[0]);
      DescendantsShrink(es, n, cs[0].1.node);
      UpdateOrder(es, cs[0].1.node) + UpdateChildren(es, n, cs[1..])
  }

  /** The cascades of several roots in turn, as `remove` runs them for the former children. */
  ghost function Cascades(es: seq<RawEdge>, roots: seq<NodeId>): seq<NodeId>
    requires Acyclic(Arcs(es))
  {
    if roots == [] then [] else Cascades(es, roots[..|roots| - 1]) + UpdateOrder(es, roots[|roots| - 1])
  }

  /** One more root: its cascade joins the end. */
  lemma CascadesStep(es: seq<RawEdge>, roots: seq<NodeId>, i: nat)
    requires Acyclic(Arcs(es)) && i < |roots|
    ensures Cascades(es, roots[..i + 1]) == Cascades(es, roots[..i]) + UpdateOrder(es, roots[i])
  {
    assert roots[..i + 1][..i] == roots[..i];
  }

  /**
   * The nodes `remove(n)` rebuilds: with the edges out of `n` gone, the
   * cascade of each former child in turn.
   */
  ghost function RemovalOrder(es: seq<RawEdge>, n: NodeId): seq<NodeId>
    requires Acyclic(Arcs(es))
  {
    WithoutSourceAcyclic(es, n);
    Cascades(WithoutSource(es, n), ChildNodes(ChildrenOf(es, n)))
  }

  /** The nodes of the child entries `cs`, in order. */
  function ChildNodes(cs: seq<ChildEntry>): (r: seq<NodeId>)
    ensures |r| == |cs| && forall i :: 0 <= i < |cs| ==> r[i] == cs[i].1.node
  {
    seq(|cs|, i requires 0 <= i < |cs| => cs[i].1.node)
  }

  /** The nodes occurring in `s`. */
  function Members(s: seq<NodeId>): set<NodeId> {
    set x | x in s
  }

  lemma {:induction false} UpdateChildrenAppend(es: seq<RawEdge>, n: NodeId, a: seq<ChildEntry>, b: seq<ChildEntry>)
    requires Acyclic(Arcs(es)) && forall x | x in a + b :: x in ChildrenOf(es, n)
    ensures UpdateChildren(es, n, a + b) == UpdateChildren(es, n, a) + UpdateChildren(es, n, b)
    decreases |a|
  {
    if a == [] {
      assert a + b == b;
    } else {
      assert (a + b)[1..] == a[1..] + b;
      UpdateChildrenAppend(es, n, a[1..], b);
    }
  }

  /** The `i`-th child of `n` has fewer descendants than `n`: the cascade terminates. */
  lemma ChildShrinks(es: seq<RawEdge>, n: NodeId, cs: seq<ChildEntry>, i: nat)
    requires Acyclic(Arcs(es)) && cs == ChildrenOf(es, n) && i < |cs|
    ensures Descendants(es, cs[i].1.node) < Descendants(es, n)
  {
    ChildFacts(es, n, cs[i]);
    DescendantsShrink(es, n, cs[i].1.node);
  }

  /** One turn of the child loop of `update_dag`: the cascade of the next child joins the end. */
  lemma UpdateChildrenStep(es: seq<RawEdge>, n: NodeId, cs: seq<ChildEntry>, i: nat)
    requires Acyclic(Arcs(es)) && cs == ChildrenOf(es, n) && i < |cs|
    ensures UpdateChildren(es, n, cs[..i + 1]) == UpdateChildren(es, n, cs[..i]) + UpdateOrder(es, cs[i].1.node)
  {
    assert cs[..i + 1] == cs[..i] + [cs[i]];
    UpdateChildrenAppend(es, n, cs[..i], [cs[i]]);
    assert [cs[i]][1..] == cs[..0];
  }

  /** Where a path leads somewhere else, an edge ends there. */
  lemma ReachesEndsOnEdge(es: seq<RawEdge>, a: NodeId, b: NodeId)
    requires Reaches(Arcs(es), a, b) && a != b
    ensures exists e :: e in es && e.dst == b
  {
    var p :| IsPath(Arcs(es), p) && p[0] == a && p[|p| - 1] == b;
    assert (p[|p| - 2], p[|p| - 1]) in Arcs(es);
  }

  /** A node with no outgoing edge reaches only itself. */
  lemma ReachesFromSink(es: seq<RawEdge>, a: NodeId, b: NodeId)
    requires forall e | e in es :: e.src != a
    requires Reaches(Arcs(es), a, b)
    ensures a == b
  {
    assert forall x :: (a, x) !in Arcs(es);
    var p :| IsPath(Arcs(es), p) && p[0] == a && p[|p| - 1] == b;
    PathStarts(Arcs(es), p);
  }

  lemma PathStarts(arcs: set<(NodeId, NodeId)>, p: seq<NodeId>)
    requires IsPath(arcs, p)
    ensures |p| == 1 || (p[0], p[1]) in arcs
  {
  }

  /** A cascade stays among the nodes the edges connect. */
  lemma UpdateOrderWithin(es: seq<RawEdge>, n: NodeId, nodes: set<NodeId>)
    requires Acyclic(Arcs(es)) && n in nodes && forall e | e in es :: e.dst in nodes
    ensures Members(UpdateOrder(es, n)) <= nodes
  {
    forall m | m in UpdateOrder(es, n)
      ensures m in nodes
    {
      UpdateOrderReaches(es, n, m);
      if m != n {
        ReachesEndsOnEdge(es, n, m);
      }
    }
  }

  /** The cascades of several roots rebuild exactly the nodes some root reaches. */
  lemma {:induction false} CascadesReaches(es: seq<RawEdge>, roots: seq<NodeId>, m: NodeId)
    requires Acyclic(Arcs(es))
    ensures m in Cascades(es, roots) <==> exists r | r in roots :: Reaches(Arcs(es), r, m)
  {
    if roots != [] {
      var init, last := roots[..|roots| - 1], roots[|roots| - 1];
      CascadesReaches(es, init, m);
      UpdateOrderReaches(es, last, m);
      assert roots == init + [last];
    }
  }

  /** The child nodes of `n` are the ends of the edges out of `n`. */
  lemma ChildNodesExact(es: seq<RawEdge>, n: NodeId, x: NodeId)
    ensures x in ChildNodes(ChildrenOf(es, n)) <==> exists e :: e in es && e.src == n && e.dst == x
  {
    var cs := ChildrenOf(es, n);
    var r := ChildNodes(cs);
    if x in r {
      var j :| 0 <= j < |r| && r[j] == x;
      ChildrenOfExact(es, n, cs[j]);
    }
    if exists e :: e in es && e.src == n && e.dst == x {
      var e :| e in es && e.src == n && e.dst == x;
      ChildrenOfExact(es, n, ChildEntryOf(e));
      var j :| 0 <= j < |cs| && cs[j] == ChildEntryOf(e);
      assert r[j] == x;
    }
  }

  /** A node without children rebuilds alone. */
  lemma UpdateOrderSink(es: seq<RawEdge>, n: NodeId)
    requires Acyclic(Arcs(es)) && forall e | e in es :: e.src != n
    ensures UpdateOrder(es, n) == [n]
  {
    var cs := ChildrenOf(es, n);
    if cs != [] {
      ChildrenOfExact(es, n, cs[0]);
    }
  }

  /** `update_dag(n)` rebuilds exactly the nodes reachable from `n`. */
  lemma {:induction false} UpdateOrderReaches(es: seq<RawEdge>, n: NodeId, m: NodeId)
    requires Acyclic(Arcs(es))
    ensures m in UpdateOrder(es, n) <==> Reaches(Arcs(es), n, m)
    decreases Descendants(es, n), 1
  {
    var arcs := Arcs(es);
    var cs := ChildrenOf(es, n);
    if m in UpdateOrder(es, n) {
      if m == n {
        ReachesRefl(arcs, n);
      } else {
        assert m in UpdateChildren(es, n, cs);
        UpdateChildrenReaches(es, n, cs, m);
      }
    }
    if Reaches(arcs, n, m) && m != n {
      var p :| IsPath(arcs, p) && p[0] == n && p[|p| - 1] == m;
      assert |p| > 1;
      var c := p[1];
      assert (n, c) in arcs;
      assert IsPath(arcs, p[1..]);
      var e :| e in es && (e.src, e.dst) == (n, c);
      ChildrenOfExact(es, n, ChildEntryOf(e));
      UpdateChildrenCovers(es, n, cs, ChildEntryOf(e), m);
    }
  }

  lemma {:induction false} UpdateChildrenReaches(es: seq<RawEdge>, n: NodeId, cs: seq<ChildEntry>, m: NodeId)
    requires Acyclic(Arcs(es)) && forall x | x in cs :: x in ChildrenOf(es, n)
    requires m in UpdateChildren(es, n, cs)
    ensures Reaches(Arcs(es), n, m)
    decreases Descendants(es, n), 0, |cs|
  {
    var c := cs[0].1.node;
    ChildFacts(es, n, cs[0]);
    DescendantsShrink(es, n, c);
    if m in UpdateOrder(es, c) {
      UpdateOrderReaches(es, c, m);
      ReachesArc(Arcs(es), n, c);
      ReachesTrans(Arcs(es), n, c, m);
    } else {
      UpdateChildrenReaches(es, n, cs[1..], m);
    }
  }

  lemma {:induction false} UpdateChildrenCovers(es: seq<RawEdge>, n: NodeId, cs: seq<ChildEntry>, x: ChildEntry, m: NodeId)
    requires Acyclic(Arcs(es)) && forall y | y in cs :: y in ChildrenOf(es, n)
    requires x in cs && Reaches(Arcs(es), x.1.node, m)
    ensures m in UpdateChildren(es, n, cs)
    decreases Descendants(es, n), 0, |cs|
  {
    var c := cs[0].1.node;
    ChildFacts(es, n, cs[0]);
    DescendantsShrink(es, n, c);
    if x == cs[0] {
      UpdateOrderReaches(es, c, m);
    } else {
      UpdateChildrenCovers(es, n, cs[1..], x, m);
    }
  }

  /**
   * The events of rebuilding the nodes of `order` in turn when the nodes
   * of `cached` already hold a program: `Added` for a node's first
   * program, `Changed` afterwards.
   */
  function Events(order: seq<NodeId>, cached: set<NodeId>): seq<(NodeId, EventType)> {
    if order == [] then []
    else [(order[0], if order[0] in cached then Changed else Added)] + Events(order[1..], cached + {order[0]})
  }

  /** One event per rebuild, naming its node; `Added` exactly on a node's first program. */
  lemma {:induction false} EventsExact(order: seq<NodeId>, cached: set<NodeId>)
    ensures var ev := Events(order, cached);
            && |ev| == |order|
            && forall i :: 0 <= i < |order| ==>
                 ev[i].0 == order[i] && (ev[i].1 == Added <==> order[i] !in cached && order[i] !in order[..i]) && ev[i].1 != Removed
  {
    if order != [] {
      EventsExact(order[1..], cached + {order[0]});
      var ev := Events(order, cached);
      forall i | 0 <= i < |order|
        ensures ev[i].0 == order[i] && (ev[i].1 == Added <==> order[i] !in cached && order[i] !in order[..i]) && ev[i].1 != Removed
      {
        if i > 0 {
          assert ev[i] == Events(order[1..], cached + {order[0]})[i - 1];
          assert order[..i] == [order[0]] + order[1..][..i - 1];
        }
      }
    }
  }

  /** Rebuilding in two runs raises the events of one run. */
  lemma {:induction false} EventsAppend(a: seq<NodeId>, b: seq<NodeId>, cached: set<NodeId>)
    ensures Events(a + b, cached) == Events(a, cached) + Events(b, cached + Members(a))
    ensures Members(a + b) == Members(a) + Members(b)
  {
    if a == [] {
      assert a + b == b;
      assert cached + Members(a) == cached;
    } else {
      assert (a + b)[1..] == a[1..] + b;
      EventsAppend(a[1..], b, cached + {a[0]});
      assert cached + {a[0]} + Members(a[1..]) == cached + Members(a);
    }
  }

  /** Rebuilding one node raises one event. */
  lemma EventsOne(n: NodeId, cached: set<NodeId>)
    ensures Events([n], cached) == [(n, if n in cached then Changed else Added)]
  {
  }

  /** The events of one run followed by those of the next, which starts with more nodes cached. */
  lemma EventsThen(log0: seq<(NodeId, EventType)>, log1: seq<(NodeId, EventType)>, log2: seq<(NodeId, EventType)>,
                   a: seq<NodeId>, b: seq<NodeId>, cached: set<NodeId>, cached1: set<NodeId>)
    requires log1 == log0 + Events(a, cached) && cached1 == cached + Members(a) && log2 == log1 + Events(b, cached1)
    ensures log2 == log0 + Events(a + b, cached)
  {
    EventsAppend(a, b, cached);
  }

  /** Every rebuild reported as a change. */
  function Changes(order: seq<NodeId>): (r: seq<(NodeId, EventType)>)
    ensures |r| == |order| && forall i :: 0 <= i < |order| ==> r[i] == (order[i], Changed)
  {
    seq(|order|, i requires 0 <= i < |order| => (order[i], Changed))
  }

  /** When every rebuilt node already held a program, every event is `Changed`. */
  lemma EventsCached(order: seq<NodeId>, cached: set<NodeId>)
    requires Members(order) <= cached
    ensures Events(order, cached) == Changes(order)
  {
    EventsExact(order, cached);
  }
}
