/**
 * What `build_shader` and `gather_shader` of src/lib.rs emit for a node,
 * as a specification over the graph: a depth-first walk over the node's
 * ancestors with a visited set, so that every ancestor's process text is
 * emitted once, before any copy that reads its output.
 */
module Gather {
  import opened Naming
  import opened Assembler
  import opened Floats
  import opened Dag
  import opened Processes

  /** One fragment snippet the walk appends, with the node it belongs to. */
  datatype Piece =
    | Placeholder(node: NodeId, port: nat)
    | Copy(node: NodeId, port: nat, from: Port)
    | Body(node: NodeId, text: string)

  /** The snippet text: a zeroed input, an input copied from a parent's output, or the process text. */
  function PieceText(p: Piece): string {
    match p
    case Placeholder(n, s) => Declare(Identifier(n, Input, s), "vec4(0)")
    case Copy(n, t, from) => Render(Identifier(n, Input, t)) + " = " + Render(Identifier(from.node, Output, from.port)) + ";\n"
    case Body(_, text) => text
  }

  function Texts(ps: seq<Piece>): (r: seq<string>)
    ensures |r| == |ps| && forall i :: 0 <= i < |ps| ==> r[i] == PieceText(ps[i])
  {
    seq(|ps|, i requires 0 <= i < |ps| => PieceText(ps[i]))
  }

  lemma TextsAppend(a: seq<Piece>, b: seq<Piece>)
    ensures Texts(a + b) == Texts(a) + Texts(b)
  {
  }

  /** The `max_in` zeroed inputs of node `n`, ports 0 upwards. */
  function Placeholders(n: NodeId, count: nat): (r: seq<Piece>)
    ensures |r| == count && forall s :: 0 <= s < count ==> r[s] == Placeholder(n, s)
  {
    seq(count, s requires 0 <= s < count => Placeholder(n, s))
  }

  /** The pieces emitted by a walk and the visited set it leaves. */
  datatype Gathered = Gathered(pieces: seq<Piece>, visited: set<NodeId>)

  /** The input ports of parent entries, in order. */
  function TargetPorts(ps: seq<ParentEntry>): (r: seq<nat>)
    ensures |r| == |ps| && forall i :: 0 <= i < |ps| ==> r[i] == ps[i].1
  {
    seq(|ps|, i requires 0 <= i < |ps| => ps[i].1)
  }

  /** The context built for node `n` running `p`: its connected input ports and `max_out` outputs. */
  function ContextOf(es: seq<RawEdge>, p: Process, n: NodeId): Context {
    Context.New(n, TargetPorts(ParentsOf(es, n)), p.MaxOut())
  }

  /** No process panics on the context its node gets from the edges `es`. */
  ghost predicate Panicless(es: seq<RawEdge>, procs: map<NodeId, Process>) {
    forall n | n in procs :: procs[n].Fits(ContextOf(es, procs[n], n))
  }

  /** A graph every node of which can be compiled: acyclic, edges between known nodes, no panics. */
  ghost predicate Compilable(es: seq<RawEdge>, procs: map<NodeId, Process>) {
    && Acyclic(Arcs(es))
    && (forall e | e in es :: e.src in procs && e.dst in procs)
    && Panicless(es, procs)
  }

  /** `n` and every node with a path to it. */
  ghost function Ancestors(es: seq<RawEdge>, n: NodeId): set<NodeId> {
    {n} + set e | e in es && Reaches(Arcs(es), e.src, n) :: e.src
  }

  /** A parent's ancestors are strictly fewer than its child's: the walk terminates. */
  lemma AncestorsShrink(es: seq<RawEdge>, p: NodeId, n: NodeId)
    requires Acyclic(Arcs(es)) && (p, n) in Arcs(es)
    ensures Ancestors(es, p) < Ancestors(es, n)
  {
    var arcs := Arcs(es);
    ChildDoesNotReachParent(arcs, p, n);
    var e :| e in es && (e.src, e.dst) == (p, n);
    ReachesArc(arcs, p, n);
    assert p in Ancestors(es, n);
    forall x | x in Ancestors(es, p)
      ensures x in Ancestors(es, n)
    {
      if x != p {
        var f :| f in es && Reaches(arcs, f.src, p) && f.src == x;
        ReachesTrans(arcs, x, p, n);
      }
    }
    assert n !in Ancestors(es, p);
  }

  /** A parent entry of `n` comes from an arc into `n` out of a known node. */
  lemma ParentFacts(es: seq<RawEdge>, procs: map<NodeId, Process>, n: NodeId, x: ParentEntry)
    requires Compilable(es, procs) && x in ParentsOf(es, n)
    ensures (x.0.node, n) in Arcs(es) && x.0.node in procs
  {
    ParentsOfExact(es, n, x);
    var e :| e in es && e.dst == n && x == ParentEntryOf(e);
  }

  /**
   * `gather_shader(node, visited)`: nothing for a visited node; otherwise
   * mark it, zero its inputs, walk each parent and copy the parent's output
   * into the input port, then emit the node's process text.
   */
  function GatherNode(es: seq<RawEdge>, procs: map<NodeId, Process>, ft: FloatText, n: NodeId, visited: set<NodeId>): Gathered
    requires Compilable(es, procs) && n in procs
    decreases Ancestors(es, n), 1
  {
    if n in visited then Gathered([], visited)
    else
      var p := procs[n];
      var g := GatherParents(es, procs, ft, n, ParentsOf(es, n), visited + {n});
      Gathered(Placeholders(n, p.MaxIn()) + g.pieces + [Body(n, p.Shader(ContextOf(es, p, n), ft))], g.visited)
  }

  /** The loop of `gather_shader` over the parent entries `ps` of `n`. */
  function GatherParents(es: seq<RawEdge>, procs: map<NodeId, Process>, ft: FloatText, n: NodeId,
                         ps: seq<ParentEntry>, visited: set<NodeId>): Gathered
    requires Compilable(es, procs) && n in procs
    requires forall x | x in ps :: x in ParentsOf(es, n)
    decreases Ancestors(es, n), 0, |ps|
  {
    if ps == [] then Gathered([], visited)
    else
      var from := ps[0].0;
      ParentFacts(es, procs, n, ps[0]);
      AncestorsShrink(es, from.node, n);
      var g1 := GatherNode(es, procs, ft, from.node, visited);
      var g2 := GatherParents(es, procs, ft, n, ps[1..], g1.visited);
      Gathered(g1.pieces + [Copy(n, ps[0].1, from)] + g2.pieces, g2.visited)
  }

  const VertexLine: string := "gl_Position = matrix * vec4(position, 0, 1);\n"

  const OneLine: string := "vec4 one = vec4(1);\n"

  /** The last fragment line: output 0 of the root becomes the pixel colour. */
  function ColorLine(n: NodeId): string {
    "color = " + Render(Identifier(n, Output, 0)) + ";\n"
  }

  /** The fragment snippets `build_shader` adds for root `n`. */
  function Fragments(es: seq<RawEdge>, procs: map<NodeId, Process>, ft: FloatText, n: NodeId): seq<string>
    requires Compilable(es, procs) && n in procs
  {
    [OneLine] + Texts(GatherNode(es, procs, ft, n, {}).pieces) + [ColorLine(n)]
  }

  /** `build_shader(n)`: the program that renders node `n`. */
  function Program(es: seq<RawEdge>, procs: map<NodeId, Process>, ft: FloatText, n: NodeId): Source
    requires Compilable(es, procs) && n in procs
  {
    Source(VertexText([VertexLine]), FragmentText("", Fragments(es, procs, ft, n)))
  }

  /** The program of `n` from the fragment snippets a walk from the empty visited set produced. */
  lemma ProgramFrom(es: seq<RawEdge>, procs: map<NodeId, Process>, ft: FloatText, n: NodeId, fragments: seq<string>)
    requires Compilable(es, procs) && n in procs
    requires fragments == [OneLine] + Texts(GatherNode(es, procs, ft, n, {}).pieces) + [ColorLine(n)]
    ensures Program(es, procs, ft, n) == Source(VertexText([VertexLine]), FragmentText("", fragments))
  {
  }

  // ---------------------------------------------------------------------
  // Emit once
  // ---------------------------------------------------------------------

  /** The nodes whose process text occurs among `ps`. */
  function BodyNodes(ps: seq<Piece>): set<NodeId> {
    set i | 0 <= i < |ps| && ps[i].Body? :: ps[i].node
  }

  /** No node's process text occurs twice. */
  predicate BodiesOnce(ps: seq<Piece>) {
    forall i, j :: 0 <= i < j < |ps| && ps[i].Body? && ps[j].Body? ==> ps[i].node != ps[j].node
  }

  lemma BodyNodesSingle(x: Piece)
    ensures BodyNodes([x]) == if x.Body? then {x.node} else {}
  {
    if x.Body? {
      assert [x][0] == x;
    }
  }

  lemma BodyNodesAppend(a: seq<Piece>, b: seq<Piece>)
    ensures BodyNodes(a + b) == BodyNodes(a) + BodyNodes(b)
  {
    var ab := a + b;
    forall x | x in BodyNodes(ab) ensures x in BodyNodes(a) + BodyNodes(b) {
      var i :| 0 <= i < |ab| && ab[i].Body? && ab[i].node == x;
      if i >= |a| {
        assert b[i - |a|] == ab[i];
      }
    }
    forall x | x in BodyNodes(a) + BodyNodes(b) ensures x in BodyNodes(ab) {
      if x in BodyNodes(a) {
        var i :| 0 <= i < |a| && a[i].Body? && a[i].node == x;
        assert ab[i] == a[i];
      } else {
        var i :| 0 <= i < |b| && b[i].Body? && b[i].node == x;
        assert ab[|a| + i] == b[i];
      }
    }
  }

  /** Bodies of two parts with no node in common occur once in the whole. */
  lemma BodiesOnceAppend(a: seq<Piece>, b: seq<Piece>)
    requires BodiesOnce(a) && BodiesOnce(b) && BodyNodes(a) !! BodyNodes(b)
    ensures BodiesOnce(a + b)
  {
    var ab := a + b;
    forall i, j | 0 <= i < j < |ab| && ab[i].Body? && ab[j].Body?
      ensures ab[i].node != ab[j].node
    {
      if i < |a| && j >= |a| {
        assert ab[i].node in BodyNodes(a);
        assert b[j - |a|] == ab[j];
        assert ab[j].node in BodyNodes(b);
      } else if i >= |a| {
        assert b[i - |a|] == ab[i] && b[j - |a|] == ab[j];
      }
    }
  }

  /** Two walks that each emit new bodies once, joined by a piece that is not a body. */
  lemma OnceAround(a: seq<Piece>, x: Piece, b: seq<Piece>, visited: set<NodeId>, v1: set<NodeId>, v2: set<NodeId>)
    requires v1 == visited + BodyNodes(a) && BodyNodes(a) !! visited && BodiesOnce(a)
    requires v2 == v1 + BodyNodes(b) && BodyNodes(b) !! v1 && BodiesOnce(b)
    requires !x.Body?
    ensures v2 == visited + BodyNodes(a + [x] + b) && BodyNodes(a + [x] + b) !! visited && BodiesOnce(a + [x] + b)
  {
    BodyNodesSingle(x);
    assert BodiesOnce([x]);
    BodyNodesAppend(a, [x]);
    BodiesOnceAppend(a, [x]);
    BodyNodesAppend(a + [x], b);
    BodiesOnceAppend(a + [x], b);
  }

  /**
   * A walk emits process text only for nodes it newly visits, each once,
   * and adds exactly those nodes to the visited set.
   */
  lemma {:induction false} GatherNodeOnce(es: seq<RawEdge>, procs: map<NodeId, Process>, ft: FloatText, n: NodeId, visited: set<NodeId>)
    requires Compilable(es, procs) && n in procs
    ensures var g := GatherNode(es, procs, ft, n, visited);
            && g.visited == visited + BodyNodes(g.pieces)
            && BodyNodes(g.pieces) !! visited
            && BodiesOnce(g.pieces)
            && n in g.visited
    decreases Ancestors(es, n), 1
  {
    if n !in visited {
      var p := procs[n];
      var ps := ParentsOf(es, n);
      var g := GatherParents(es, procs, ft, n, ps, visited + {n});
      GatherParentsOnce(es, procs, ft, n, ps, visited + {n});
      var ph := Placeholders(n, p.MaxIn());
      var body := [Body(n, p.Shader(ContextOf(es, p, n), ft))];
      assert BodyNodes(ph) == {} && BodiesOnce(ph);
      BodyNodesSingle(body[0]);
      assert BodiesOnce(body);
      BodyNodesAppend(ph, g.pieces);
      BodiesOnceAppend(ph, g.pieces);
      BodyNodesAppend(ph + g.pieces, body);
      BodiesOnceAppend(ph + g.pieces, body);
    } else {
      assert BodyNodes([]) == {};
    }
  }

  lemma {:induction false} GatherParentsOnce(es: seq<RawEdge>, procs: map<NodeId, Process>, ft: FloatText, n: NodeId,
                                             ps: seq<ParentEntry>, visited: set<NodeId>)
    requires Compilable(es, procs) && n in procs
    requires forall x | x in ps :: x in ParentsOf(es, n)
    ensures var g := GatherParents(es, procs, ft, n, ps, visited);
            && g.visited == visited + BodyNodes(g.pieces)
            && BodyNodes(g.pieces) !! visited
            && BodiesOnce(g.pieces)
    decreases Ancestors(es, n), 0, |ps|
  {
    if ps == [] {
      assert BodyNodes([]) == {};
    } else {
      var from := ps[0].0;
      ParentFacts(es, procs, n, ps[0]);
      AncestorsShrink(es, from.node, n);
      var g1 := GatherNode(es, procs, ft, from.node, visited);
      GatherNodeOnce(es, procs, ft, from.node, visited);
      var g2 := GatherParents(es, procs, ft, n, ps[1..], g1.visited);
      GatherParentsOnce(es, procs, ft, n, ps[1..], g1.visited);
      assert GatherParents(es, procs, ft, n, ps, visited) == Gathered(g1.pieces + [Copy(n, ps[0].1, from)] + g2.pieces, g2.visited);
      OnceAround(g1.pieces, Copy(n, ps[0].1, from), g2.pieces, visited, g1.visited, g2.visited);
    }
  }

  // ---------------------------------------------------------------------
  // Parents before the copies that read them
  // ---------------------------------------------------------------------

  /**
   * Every copy reads a node that is in `done` or whose process text occurs
   * earlier among `ps`.
   */
  predicate CopiesFed(ps: seq<Piece>, done: set<NodeId>) {
    forall j :: 0 <= j < |ps| && ps[j].Copy? ==> ps[j].from.node in done + BodyNodes(ps[..j])
  }

  lemma CopiesFedAppend(a: seq<Piece>, b: seq<Piece>, done: set<NodeId>)
    requires CopiesFed(a, done) && CopiesFed(b, done + BodyNodes(a))
    ensures CopiesFed(a + b, done)
  {
    var ab := a + b;
    forall j | 0 <= j < |ab| && ab[j].Copy?
      ensures ab[j].from.node in done + BodyNodes(ab[..j])
    {
      if j < |a| {
        assert ab[..j] == a[..j];
      } else {
        var k := j - |a|;
        assert ab[j] == b[k];
        assert ab[..j] == a + b[..k];
        BodyNodesAppend(a, b[..k]);
      }
    }
  }

  lemma {:induction false} GatherNodeFeeds(es: seq<RawEdge>, procs: map<NodeId, Process>, ft: FloatText, n: NodeId,
                                           visited: set<NodeId>, done: set<NodeId>)
    requires Compilable(es, procs) && n in procs
    requires done <= visited && forall m | m in visited - done :: Reaches(Arcs(es), n, m)
    ensures CopiesFed(GatherNode(es, procs, ft, n, visited).pieces, done)
    decreases Ancestors(es, n), 1
  {
    if n !in visited {
      var p := procs[n];
      var ps := ParentsOf(es, n);
      ReachesRefl(Arcs(es), n);
      var g := GatherParents(es, procs, ft, n, ps, visited + {n});
      GatherParentsFeeds(es, procs, ft, n, ps, visited + {n}, done);
      var ph := Placeholders(n, p.MaxIn());
      var body := [Body(n, p.Shader(ContextOf(es, p, n), ft))];
      assert BodyNodes(ph) == {};
      CopiesFedAppend(ph, g.pieces, done);
      CopiesFedAppend(ph + g.pieces, body, done);
    }
  }

  lemma {:induction false} GatherParentsFeeds(es: seq<RawEdge>, procs: map<NodeId, Process>, ft: FloatText, n: NodeId,
                                              ps: seq<ParentEntry>, visited: set<NodeId>, done: set<NodeId>)
    requires Compilable(es, procs) && n in procs
    requires forall x | x in ps :: x in ParentsOf(es, n)
    requires done <= visited && forall m | m in visited - done :: Reaches(Arcs(es), n, m)
    ensures CopiesFed(GatherParents(es, procs, ft, n, ps, visited).pieces, done)
    decreases Ancestors(es, n), 0, |ps|
  {
    if ps != [] {
      var arcs := Arcs(es);
      var from := ps[0].0;
      ParentFacts(es, procs, n, ps[0]);
      AncestorsShrink(es, from.node, n);
      ChildDoesNotReachParent(arcs, from.node, n);
      forall m | m in visited - done
        ensures Reaches(arcs, from.node, m)
      {
        ReachesArc(arcs, from.node, n);
        ReachesTrans(arcs, from.node, n, m);
      }
      var g1 := GatherNode(es, procs, ft, from.node, visited);
      GatherNodeFeeds(es, procs, ft, from.node, visited, done);
      GatherNodeOnce(es, procs, ft, from.node, visited);
      var copy := [Copy(n, ps[0].1, from)];
      assert from.node in done + BodyNodes(g1.pieces);
      assert CopiesFed(copy, done + BodyNodes(g1.pieces)) by {
        assert copy[..0] == [];
      }
      var g2 := GatherParents(es, procs, ft, n, ps[1..], g1.visited);
      GatherParentsFeeds(es, procs, ft, n, ps[1..], g1.visited, done + BodyNodes(g1.pieces));
      CopiesFedAppend(g1.pieces, copy, done);
      BodyNodesSingle(copy[0]);
      BodyNodesAppend(g1.pieces, copy);
      CopiesFedAppend(g1.pieces + copy, g2.pieces, done);
    }
  }

  // ---------------------------------------------------------------------
  // Every ancestor
  // ---------------------------------------------------------------------

  /** Every edge into a visited node outside `stack` comes from a visited node. */
  ghost predicate ParentsClosed(es: seq<RawEdge>, visited: set<NodeId>, stack: set<NodeId>) {
    forall e | e in es && e.dst in visited && e.dst !in stack :: e.src in visited
  }

  lemma {:induction false} GatherNodeCloses(es: seq<RawEdge>, procs: map<NodeId, Process>, ft: FloatText, n: NodeId,
                                            visited: set<NodeId>, stack: set<NodeId>)
    requires Compilable(es, procs) && n in procs && ParentsClosed(es, visited, stack)
    ensures ParentsClosed(es, GatherNode(es, procs, ft, n, visited).visited, stack)
    decreases Ancestors(es, n), 1
  {
    if n !in visited {
      var ps := ParentsOf(es, n);
      var g := GatherParents(es, procs, ft, n, ps, visited + {n});
      GatherParentsCloses(es, procs, ft, n, ps, visited + {n}, stack + {n});
      forall e | e in es && e.dst in g.visited && e.dst !in stack
        ensures e.src in g.visited
      {
        if e.dst == n {
          ParentsOfExact(es, n, ParentEntryOf(e));
        }
      }
    }
  }

  lemma {:induction false} GatherParentsCloses(es: seq<RawEdge>, procs: map<NodeId, Process>, ft: FloatText, n: NodeId,
                                               ps: seq<ParentEntry>, visited: set<NodeId>, stack: set<NodeId>)
    requires Compilable(es, procs) && n in procs
    requires forall x | x in ps :: x in ParentsOf(es, n)
    requires ParentsClosed(es, visited, stack)
    ensures var g := GatherParents(es, procs, ft, n, ps, visited);
            ParentsClosed(es, g.visited, stack) && forall x | x in ps :: x.0.node in g.visited
    decreases Ancestors(es, n), 0, |ps|
  {
    if ps != [] {
      var from := ps[0].0;
      ParentFacts(es, procs, n, ps[0]);
      AncestorsShrink(es, from.node, n);
      var g1 := GatherNode(es, procs, ft, from.node, visited);
      var g2 := GatherParents(es, procs, ft, n, ps[1..], g1.visited);
      assert GatherParents(es, procs, ft, n, ps, visited).visited == g2.visited;
      GatherNodeCloses(es, procs, ft, from.node, visited, stack);
      assert from.node in g1.visited by {
        GatherNodeOnce(es, procs, ft, from.node, visited);
      }
      GatherParentsCloses(es, procs, ft, n, ps[1..], g1.visited, stack);
      assert g1.visited <= g2.visited by {
        GatherParentsOnce(es, procs, ft, n, ps[1..], g1.visited);
      }
      forall x | x in ps
        ensures x.0.node in g2.visited
      {
        if x != ps[0] {
          assert x in ps[1..];
        }
      }
    }
  }

  lemma {:induction false} GatherNodeWithin(es: seq<RawEdge>, procs: map<NodeId, Process>, ft: FloatText, n: NodeId, visited: set<NodeId>)
    requires Compilable(es, procs) && n in procs
    ensures BodyNodes(GatherNode(es, procs, ft, n, visited).pieces) <= Ancestors(es, n)
    decreases Ancestors(es, n), 1
  {
    if n !in visited {
      var p := procs[n];
      var ps := ParentsOf(es, n);
      var g := GatherParents(es, procs, ft, n, ps, visited + {n});
      GatherParentsWithin(es, procs, ft, n, ps, visited + {n});
      var ph := Placeholders(n, p.MaxIn());
      var body := [Body(n, p.Shader(ContextOf(es, p, n), ft))];
      assert BodyNodes(ph) == {};
      BodyNodesSingle(body[0]);
      BodyNodesAppend(ph, g.pieces);
      BodyNodesAppend(ph + g.pieces, body);
      assert n in Ancestors(es, n);
    } else {
      assert BodyNodes([]) == {};
    }
  }

  lemma {:induction false} GatherParentsWithin(es: seq<RawEdge>, procs: map<NodeId, Process>, ft: FloatText, n: NodeId,
                                               ps: seq<ParentEntry>, visited: set<NodeId>)
    requires Compilable(es, procs) && n in procs
    requires forall x | x in ps :: x in ParentsOf(es, n)
    ensures BodyNodes(GatherParents(es, procs, ft, n, ps, visited).pieces) <= Ancestors(es, n)
    decreases Ancestors(es, n), 0, |ps|
  {
    if ps != [] {
      var from := ps[0].0;
      ParentFacts(es, procs, n, ps[0]);
      AncestorsShrink(es, from.node, n);
      var g1 := GatherNode(es, procs, ft, from.node, visited);
      GatherNodeWithin(es, procs, ft, from.node, visited);
      var g2 := GatherParents(es, procs, ft, n, ps[1..], g1.visited);
      GatherParentsWithin(es, procs, ft, n, ps[1..], g1.visited);
      var copy := [Copy(n, ps[0].1, from)];
      BodyNodesSingle(copy[0]);
      BodyNodesAppend(g1.pieces, copy);
      BodyNodesAppend(g1.pieces + copy, g2.pieces);
    } else {
      assert BodyNodes([]) == {};
    }
  }

  /** Walking a path backwards from a node of a parent-closed set stays in the set. */
  lemma {:induction false} ClosedHoldsPath(es: seq<RawEdge>, visited: set<NodeId>, p: seq<NodeId>)
    requires ParentsClosed(es, visited, {})
    requires IsPath(Arcs(es), p) && p[|p| - 1] in visited
    ensures p[0] in visited
    decreases |p|
  {
    if |p| > 1 {
      assert IsPath(Arcs(es), p[1..]);
      ClosedHoldsPath(es, visited, p[1..]);
      assert (p[0], p[1]) in Arcs(es);
      var e :| e in es && (e.src, e.dst) == (p[0], p[1]);
    }
  }

  /**
   * The walk from the root emits the process text of exactly the root's
   * ancestors, each once, and every copy comes after the process text of
   * the parent it reads: diamonds are emitted once.
   */
  lemma EveryAncestorOnce(es: seq<RawEdge>, procs: map<NodeId, Process>, ft: FloatText, n: NodeId)
    requires Compilable(es, procs) && n in procs
    ensures var ps := GatherNode(es, procs, ft, n, {}).pieces;
            && BodyNodes(ps) == Ancestors(es, n)
            && BodiesOnce(ps)
            && CopiesFed(ps, {})
  {
    var g := GatherNode(es, procs, ft, n, {});
    GatherNodeOnce(es, procs, ft, n, {});
    GatherNodeCloses(es, procs, ft, n, {}, {});
    GatherNodeWithin(es, procs, ft, n, {});
    GatherNodeFeeds(es, procs, ft, n, {}, {});
    forall m | m in Ancestors(es, n)
      ensures m in g.visited
    {
      if m != n {
        var e :| e in es && Reaches(Arcs(es), e.src, n) && e.src == m;
        var p :| IsPath(Arcs(es), p) && p[0] == m && p[|p| - 1] == n;
        ClosedHoldsPath(es, g.visited, p);
      }
    }
  }

  // ---------------------------------------------------------------------
  // What a program depends on
  // ---------------------------------------------------------------------

  /**
   * Nodes whose inputs did not change and whose process accepts at least
   * what it accepted before still do not panic.
   */
  lemma PaniclessFrame(es1: seq<RawEdge>, procs1: map<NodeId, Process>, es2: seq<RawEdge>, procs2: map<NodeId, Process>)
    requires Panicless(es1, procs1)
    requires forall x | x in procs2 ::
               && x in procs1 && procs2[x].MaxOut() == procs1[x].MaxOut() && ParentsOf(es2, x) == ParentsOf(es1, x)
               && forall ctx :: procs1[x].Fits(ctx) ==> procs2[x].Fits(ctx)
    ensures Panicless(es2, procs2)
  {
    forall x | x in procs2
      ensures procs2[x].Fits(ContextOf(es2, procs2[x], x))
    {
      assert ContextOf(es2, procs2[x], x) == ContextOf(es1, procs1[x], x);
    }
  }

  /** A new node with no edges yet does not panic, nor does any other. */
  lemma PaniclessAdd(es: seq<RawEdge>, procs: map<NodeId, Process>, n: NodeId, p: Process)
    requires Panicless(es, procs) && forall e | e in es :: e.dst != n
    ensures Panicless(es, procs[n := p])
  {
    var procs' := procs[n := p];
    forall x | x in procs'
      ensures procs'[x].Fits(ContextOf(es, procs'[x], x))
    {
      if x == n {
        if ParentsOf(es, n) != [] {
          ParentsOfExact(es, n, ParentsOf(es, n)[0]);
        }
        var ctx := ContextOf(es, p, n);
        assert forall i :: i !in ctx.inputs;
      }
    }
  }

  /** Deleting a node without outgoing edges, and the edges into it, keeps the rest compilable. */
  lemma CompilableDetached(es: seq<RawEdge>, procs: map<NodeId, Process>, n: NodeId)
    requires Compilable(es, procs) && forall e | e in es :: e.src != n
    ensures Compilable(Detached(es, n), procs - {n})
    ensures forall x | x in procs && x != n :: ParentsOf(Detached(es, n), x) == ParentsOf(es, x)
  {
    var es', procs' := Detached(es, n), procs - {n};
    forall e | e in es'
      ensures e in es && e.src != n && e.dst != n
    {
      DetachedExact(es, n, e);
    }
    assert Arcs(es') <= Arcs(es);
    AcyclicSubset(Arcs(es'), Arcs(es));
    forall x | x in procs'
      ensures ParentsOf(es', x) == ParentsOf(es, x)
    {
      ParentsOfDetached(es, n, x);
    }
    PaniclessFrame(es, procs, es', procs');
  }

  /** Every ancestor reaches the node. */
  lemma AncestorsReach(es: seq<RawEdge>, n: NodeId, x: NodeId)
    requires x in Ancestors(es, n)
    ensures Reaches(Arcs(es), x, n)
  {
    if x == n {
      ReachesRefl(Arcs(es), n);
    }
  }

  /** The ancestors of a known node of a compilable graph are known nodes. */
  lemma AncestorsKnown(es: seq<RawEdge>, procs: map<NodeId, Process>, n: NodeId)
    requires Compilable(es, procs) && n in procs
    ensures Ancestors(es, n) <= procs.Keys
  {
  }

  /** Two graphs that agree on `ps` as parent entries of `n` and on the ancestors of `n`. */
  ghost predicate AgreeAbove(es1: seq<RawEdge>, procs1: map<NodeId, Process>, es2: seq<RawEdge>, procs2: map<NodeId, Process>, n: NodeId) {
    forall x | x in Ancestors(es1, n) ::
      x in procs1 && x in procs2 && procs1[x] == procs2[x] && ParentsOf(es1, x) == ParentsOf(es2, x)
  }

  lemma AgreeAboveParent(es1: seq<RawEdge>, procs1: map<NodeId, Process>, es2: seq<RawEdge>, procs2: map<NodeId, Process>, p: NodeId, n: NodeId)
    requires Acyclic(Arcs(es1)) && (p, n) in Arcs(es1)
    requires AgreeAbove(es1, procs1, es2, procs2, n)
    ensures AgreeAbove(es1, procs1, es2, procs2, p)
  {
    AncestorsShrink(es1, p, n);
  }

  /**
   * The walk from `n` reads only the parent entries and processes of the
   * ancestors of `n`: two graphs that agree there give the same walk.
   */
  lemma {:induction false} GatherNodeFrame(es1: seq<RawEdge>, procs1: map<NodeId, Process>, es2: seq<RawEdge>, procs2: map<NodeId, Process>,
                                           ft: FloatText, n: NodeId, visited: set<NodeId>)
    requires Compilable(es1, procs1) && Compilable(es2, procs2) && n in procs1 && n in procs2
    requires AgreeAbove(es1, procs1, es2, procs2, n)
    ensures GatherNode(es1, procs1, ft, n, visited) == GatherNode(es2, procs2, ft, n, visited)
    decreases Ancestors(es1, n), 1
  {
    if n !in visited {
      assert n in Ancestors(es1, n);
      var ps := ParentsOf(es1, n);
      GatherParentsFrame(es1, procs1, es2, procs2, ft, n, ps, visited + {n});
    }
  }

  lemma {:induction false} GatherParentsFrame(es1: seq<RawEdge>, procs1: map<NodeId, Process>, es2: seq<RawEdge>, procs2: map<NodeId, Process>,
                                              ft: FloatText, n: NodeId, ps: seq<ParentEntry>, visited: set<NodeId>)
    requires Compilable(es1, procs1) && Compilable(es2, procs2) && n in procs1 && n in procs2
    requires AgreeAbove(es1, procs1, es2, procs2, n)
    requires forall x | x in ps :: x in ParentsOf(es1, n)
    ensures assert n in Ancestors(es1, n);
            GatherParents(es1, procs1, ft, n, ps, visited) == GatherParents(es2, procs2, ft, n, ps, visited)
    decreases Ancestors(es1, n), 0, |ps|
  {
    assert n in Ancestors(es1, n);
    if ps != [] {
      var from := ps[0].0;
      ParentFacts(es1, procs1, n, ps[0]);
      ParentFacts(es2, procs2, n, ps[0]);
      AncestorsShrink(es1, from.node, n);
      AgreeAboveParent(es1, procs1, es2, procs2, from.node, n);
      GatherNodeFrame(es1, procs1, es2, procs2, ft, from.node, visited);
      var g1 := GatherNode(es1, procs1, ft, from.node, visited);
      GatherParentsFrame(es1, procs1, es2, procs2, ft, n, ps[1..], g1.visited);
    }
  }

  /**
   * A program stays the same under a change of graph and processes that
   * touches only the nodes of `changed`, when none of them reaches the root.
   */
  lemma ProgramUnaffected(es1: seq<RawEdge>, procs1: map<NodeId, Process>, es2: seq<RawEdge>, procs2: map<NodeId, Process>,
                          ft: FloatText, changed: set<NodeId>, n: NodeId)
    requires Compilable(es1, procs1) && Compilable(es2, procs2) && n in procs1
    requires forall x | x in procs1 && x !in changed ::
               x in procs2 && procs1[x] == procs2[x] && ParentsOf(es1, x) == ParentsOf(es2, x)
    requires forall t | t in changed :: !Reaches(Arcs(es1), t, n)
    ensures n in procs2 && Program(es1, procs1, ft, n) == Program(es2, procs2, ft, n)
  {
    ReachesRefl(Arcs(es1), n);
    forall x | x in Ancestors(es1, n)
      ensures x in procs1 && x in procs2 && procs1[x] == procs2[x] && ParentsOf(es1, x) == ParentsOf(es2, x)
    {
      AncestorsKnown(es1, procs1, n);
      AncestorsReach(es1, n, x);
    }
    GatherNodeFrame(es1, procs1, es2, procs2, ft, n, {});
  }
}
