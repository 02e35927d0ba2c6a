/**
 * `TextureGenerator` of src/lib.rs: a port-numbered DAG of processes in
 * which every node caches the program that renders it. Every change to the
 * graph or to a process recompiles the node it touches and everything
 * below it, and each recompilation is announced to the listeners, kept
 * here as a ghost log of events.
 */
module Generator {
  import opened Wrappers
  import opened Strings
  import opened Naming
  import opened Assembler
  import opened Floats
  import Settings
  import opened Dag
  import opened Processes
  import opened Gather
  import opened Cascade

  /** `Node<T>`: the caller's data, the process, and the cached program. */
  datatype GenNode<T> = GenNode(data: T, process: Process, program: Option<Source>)

  /** Two node tables with the same nodes, data and processes; only programs may differ. */
  ghost predicate Reprogrammed<T>(before: map<NodeId, GenNode<T>>, after: map<NodeId, GenNode<T>>) {
    && before.Keys == after.Keys
    && forall m | m in after :: after[m].data == before[m].data && after[m].process == before[m].process
  }

  /** The process of every node. */
  ghost function ProcsOf<T>(nodes: map<NodeId, GenNode<T>>): map<NodeId, Process> {
    map n | n in nodes :: nodes[n].process
  }

  /** The nodes holding a program. */
  ghost function CachedOf<T>(nodes: map<NodeId, GenNode<T>>): set<NodeId> {
    set n | n in nodes && nodes[n].program.Some?
  }

  /**
   * `after` is `before` with the nodes of `order` (all of them present)
   * holding their current program over `es`, and every other program as it was.
   */
  ghost predicate Rebuilt<T>(before: map<NodeId, GenNode<T>>, after: map<NodeId, GenNode<T>>, order: seq<NodeId>,
                             es: seq<RawEdge>, ft: FloatText)
  {
    && Compilable(es, ProcsOf(before))
    && Reprogrammed(before, after)
    && Members(order) <= after.Keys
    && (forall m | m in after && m !in order :: after[m].program == before[m].program)
    && forall m {:trigger Program(es, ProcsOf(before), ft, m)} | m in order ::
         after[m].program == Some(Program(es, ProcsOf(before), ft, m))
  }

  /** Changing programs only leaves every process in place. */
  lemma ReprogrammedProcs<T>(before: map<NodeId, GenNode<T>>, after: map<NodeId, GenNode<T>>)
    requires Reprogrammed(before, after)
    ensures ProcsOf(after) == ProcsOf(before)
  {
  }

  /** Caching the program of `n` rebuilds exactly `n`. */
  lemma RebuiltOne<T>(nodes: map<NodeId, GenNode<T>>, n: NodeId, es: seq<RawEdge>, ft: FloatText)
    requires Compilable(es, ProcsOf(nodes)) && n in nodes
    ensures Rebuilt(nodes, nodes[n := nodes[n].(program := Some(Program(es, ProcsOf(nodes), ft, n)))], [n], es, ft)
  {
  }

  /** Two rebuilds in a row are one rebuild of both orders. */
  lemma RebuiltTrans<T>(a: map<NodeId, GenNode<T>>, b: map<NodeId, GenNode<T>>, c: map<NodeId, GenNode<T>>,
                        o1: seq<NodeId>, o2: seq<NodeId>, es: seq<RawEdge>, ft: FloatText)
    requires Rebuilt(a, b, o1, es, ft) && Rebuilt(b, c, o2, es, ft)
    ensures Rebuilt(a, c, o1 + o2, es, ft)
  {
    ReprogrammedProcs(a, b);
    EventsAppend(o1, o2, {});
  }

  /** Two rebuilds in a row, and what the listeners heard during each, compose. */
  lemma RebuiltThen<T>(nodes: map<NodeId, GenNode<T>>, mid: map<NodeId, GenNode<T>>, after: map<NodeId, GenNode<T>>,
                       done: seq<NodeId>, more: seq<NodeId>, es: seq<RawEdge>, ft: FloatText,
                       log0: seq<(NodeId, EventType)>, log1: seq<(NodeId, EventType)>, log2: seq<(NodeId, EventType)>)
    requires Rebuilt(nodes, mid, done, es, ft) && Rebuilt(mid, after, more, es, ft)
    requires log1 == log0 + Events(done, CachedOf(nodes)) && log2 == log1 + Events(more, CachedOf(mid))
    ensures Rebuilt(nodes, after, done + more, es, ft)
    ensures log2 == log0 + Events(done + more, CachedOf(nodes))
  {
    RebuiltCached(nodes, mid, done, es, ft);
    RebuiltTrans(nodes, mid, after, done, more, es, ft);
    EventsThen(log0, log1, log2, done, more, CachedOf(nodes), CachedOf(mid));
  }

  /** The rebuilt nodes join the cached ones. */
  lemma RebuiltCached<T>(before: map<NodeId, GenNode<T>>, after: map<NodeId, GenNode<T>>, order: seq<NodeId>,
                         es: seq<RawEdge>, ft: FloatText)
    requires Rebuilt(before, after, order, es, ft)
    ensures CachedOf(after) == CachedOf(before) + Members(order)
  {
    forall m | m in order
      ensures after[m].program.Some?
    {
      assert after[m].program == Some(Program(es, ProcsOf(before), ft, m));
    }
  }

  /** Every node holds the program `build_shader` makes for it from `es`. */
  ghost predicate Current<T>(nodes: map<NodeId, GenNode<T>>, es: seq<RawEdge>, ft: FloatText) {
    && Compilable(es, ProcsOf(nodes))
    && forall m {:trigger Program(es, ProcsOf(nodes), ft, m)} | m in nodes ::
         nodes[m].program == Some(Program(es, ProcsOf(nodes), ft, m))
  }

  /** When every program is current, every node holds one. */
  lemma CurrentCached<T>(nodes: map<NodeId, GenNode<T>>, es: seq<RawEdge>, ft: FloatText)
    requires Current(nodes, es, ft)
    ensures CachedOf(nodes) == nodes.Keys
  {
    forall m | m in nodes
      ensures nodes[m].program.Some?
    {
      assert nodes[m].program == Some(Program(es, ProcsOf(nodes), ft, m));
    }
  }

  /**
   * After a change to the nodes of `changed` (their process or the edges
   * into them), rebuilding an `order` that holds everything they reach
   * brings every program up to date: the programs it skips never depended
   * on the change.
   */
  lemma Revalidated<T>(es0: seq<RawEdge>, nodes0: map<NodeId, GenNode<T>>, es: seq<RawEdge>,
                       mid: map<NodeId, GenNode<T>>, nodes: map<NodeId, GenNode<T>>, ft: FloatText,
                       order: seq<NodeId>, changed: set<NodeId>)
    requires Current(nodes0, es0, ft) && Rebuilt(mid, nodes, order, es, ft)
    requires forall x | x in mid && x !in changed ::
               x in nodes0 && mid[x] == nodes0[x] && ParentsOf(es, x) == ParentsOf(es0, x)
    requires forall m, t | m in mid && m !in order && t in changed :: !Reaches(Arcs(es), t, m)
    ensures Current(nodes, es, ft)
  {
    ReprogrammedProcs(mid, nodes);
    var procs, procs0 := ProcsOf(mid), ProcsOf(nodes0);
    forall m | m in nodes
      ensures nodes[m].program == Some(Program(es, procs, ft, m))
    {
      if m !in order {
        ReachesRefl(Arcs(es), m);
        ProgramUnaffected(es, procs, es0, procs0, ft, changed, m);
      }
    }
  }

  /** The same for a change at one node followed by `update_dag` there. */
  lemma RevalidatedFrom<T>(es0: seq<RawEdge>, nodes0: map<NodeId, GenNode<T>>, es: seq<RawEdge>,
                           mid: map<NodeId, GenNode<T>>, nodes: map<NodeId, GenNode<T>>, ft: FloatText, root: NodeId)
    requires Current(nodes0, es0, ft) && Acyclic(Arcs(es)) && Rebuilt(mid, nodes, UpdateOrder(es, root), es, ft)
    requires forall x | x in mid && x != root ::
               x in nodes0 && mid[x] == nodes0[x] && ParentsOf(es, x) == ParentsOf(es0, x)
    ensures Current(nodes, es, ft)
  {
    forall m, t | m in mid && m !in UpdateOrder(es, root) && t in {root}
      ensures !Reaches(Arcs(es), t, m)
    {
      UpdateOrderReaches(es, root, m);
    }
    Revalidated(es0, nodes0, es, mid, nodes, ft, UpdateOrder(es, root), {root});
  }

  /** A new node without edges keeps the graph compilable. */
  lemma CompilableAdded<T>(es: seq<RawEdge>, nodes0: map<NodeId, GenNode<T>>, n: NodeId, w: GenNode<T>)
    requires Compilable(es, ProcsOf(nodes0)) && n !in nodes0
    ensures Compilable(es, ProcsOf(nodes0[n := w]))
  {
    assert ProcsOf(nodes0[n := w]) == ProcsOf(nodes0)[n := w.process];
    PaniclessAdd(es, ProcsOf(nodes0), n, w.process);
  }

  /**
   * `add` followed by `update_dag` on the new node: only the new node is
   * built, every program is current, and the listeners hear one addition.
   */
  lemma AddedCascaded<T>(es: seq<RawEdge>, nodes0: map<NodeId, GenNode<T>>, nodes: map<NodeId, GenNode<T>>,
                         ft: FloatText, n: NodeId, w: GenNode<T>,
                         log0: seq<(NodeId, EventType)>, log: seq<(NodeId, EventType)>)
    requires Current(nodes0, es, ft) && n !in nodes0 && w.program.None?
    requires Acyclic(Arcs(es)) && forall e | e in es :: e.src in nodes0 && e.dst in nodes0
    requires Rebuilt(nodes0[n := w], nodes, UpdateOrder(es, n), es, ft)
    requires log == log0 + Events(UpdateOrder(es, n), CachedOf(nodes0[n := w]))
    ensures Current(nodes, es, ft)
    ensures nodes.Keys == nodes0.Keys + {n} && nodes[n].data == w.data && nodes[n].process == w.process
    ensures forall m | m in nodes0 :: nodes[m] == nodes0[m]
    ensures log == log0 + [(n, Added)]
  {
    var mid := nodes0[n := w];
    UpdateOrderSink(es, n);
    RevalidatedFrom(es, nodes0, es, mid, nodes, ft, n);
    EventsOne(n, CachedOf(mid));
  }

  /**
   * A change at `root` that keeps every node and program in place, followed
   * by `update_dag(root)`: every program is current again, the nodes the
   * cascade skips are untouched, and every event is a change.
   */
  lemma Cascaded<T>(es0: seq<RawEdge>, nodes0: map<NodeId, GenNode<T>>, es: seq<RawEdge>,
                    mid: map<NodeId, GenNode<T>>, nodes: map<NodeId, GenNode<T>>, ft: FloatText, root: NodeId,
                    log0: seq<(NodeId, EventType)>, log: seq<(NodeId, EventType)>)
    requires Current(nodes0, es0, ft) && Compilable(es, ProcsOf(mid))
    requires Rebuilt(mid, nodes, UpdateOrder(es, root), es, ft)
    requires mid.Keys == nodes0.Keys
    requires forall x | x in mid ::
               && mid[x].program == nodes0[x].program
               && (x != root ==> mid[x] == nodes0[x] && ParentsOf(es, x) == ParentsOf(es0, x))
    requires log == log0 + Events(UpdateOrder(es, root), CachedOf(mid))
    ensures Current(nodes, es, ft)
    ensures forall m | m in nodes && m !in UpdateOrder(es, root) :: nodes[m] == mid[m]
    ensures log == log0 + Changes(UpdateOrder(es, root))
  {
    RevalidatedFrom(es0, nodes0, es, mid, nodes, ft, root);
    CurrentCached(nodes0, es0, ft);
    assert CachedOf(mid) == CachedOf(nodes0);
    EventsCached(UpdateOrder(es, root), CachedOf(mid));
  }

  /** Removing a node without outgoing edges leaves every other program current. */
  lemma CurrentDetached<T>(nodes: map<NodeId, GenNode<T>>, es: seq<RawEdge>, ft: FloatText, n: NodeId)
    requires Current(nodes, es, ft) && n in nodes && forall e | e in es :: e.src != n
    ensures Current(nodes - {n}, Detached(es, n), ft)
  {
    var es', nodes' := Detached(es, n), nodes - {n};
    var procs, procs' := ProcsOf(nodes), ProcsOf(nodes');
    CompilableDetached(es, procs, n);
    assert procs' == procs - {n};
    forall m | m in nodes'
      ensures nodes'[m].program == Some(Program(es', procs', ft, m))
    {
      ProgramUnaffected(es', procs', es, procs, ft, {}, m);
    }
  }

  /**
   * After `remove` has dropped the edges out of `n` and rebuilt its former
   * children's cascade, every program is current again and the listeners
   * have heard one change per rebuilt node.
   */
  lemma RootsCascaded<T>(es0: seq<RawEdge>, nodes0: map<NodeId, GenNode<T>>, nodes: map<NodeId, GenNode<T>>,
                         ft: FloatText, n: NodeId, log0: seq<(NodeId, EventType)>, log: seq<(NodeId, EventType)>)
    requires Current(nodes0, es0, ft) && Acyclic(Arcs(es0))
    requires Rebuilt(nodes0, nodes, RemovalOrder(es0, n), WithoutSource(es0, n), ft)
    requires log == log0 + Events(RemovalOrder(es0, n), CachedOf(nodes0))
    ensures Current(nodes, WithoutSource(es0, n), ft)
    ensures forall m | m in nodes && m !in RemovalOrder(es0, n) :: nodes[m] == nodes0[m]
    ensures log == log0 + Changes(RemovalOrder(es0, n))
  {
    var es1, roots := WithoutSource(es0, n), ChildNodes(ChildrenOf(es0, n));
    var order := RemovalOrder(es0, n);
    WithoutSourceAcyclic(es0, n);
    assert order == Cascades(es1, roots);
    forall x | x in nodes0 && x !in Members(roots)
      ensures ParentsOf(es1, x) == ParentsOf(es0, x)
    {
      ChildNodesExact(es0, n, x);
      ParentsOfWithoutSource(es0, n, x);
    }
    forall m, t | m in nodes0 && m !in order && t in Members(roots)
      ensures !Reaches(Arcs(es1), t, m)
    {
      CascadesReaches(es1, roots, m);
    }
    Revalidated(es0, nodes0, es1, nodes0, nodes, ft, order, Members(roots));
    CurrentCached(nodes0, es0, ft);
    EventsCached(order, CachedOf(nodes0));
  }

  lemma PlaceholdersStep(n: NodeId, s: nat)
    ensures Texts(Placeholders(n, s + 1)) == Texts(Placeholders(n, s)) + [PieceText(Placeholder(n, s))]
  {
    assert Placeholders(n, s + 1) == Placeholders(n, s) + [Placeholder(n, s)];
    TextsAppend(Placeholders(n, s), [Placeholder(n, s)]);
  }

  lemma TargetPortsStep(parents: seq<ParentEntry>, i: nat)
    requires i < |parents|
    ensures TargetPorts(parents[..i + 1]) == TargetPorts(parents[..i]) + [parents[i].1]
  {
  }

  /** One turn of the parent loop of `gather_shader`: the walk into the parent, then the copy line. */
  lemma GatherParentsUnfold(es: seq<RawEdge>, procs: map<NodeId, Process>, ft: FloatText, n: NodeId,
                            parents: seq<ParentEntry>, i: nat, visited: set<NodeId>)
    requires Compilable(es, procs) && n in procs && parents == ParentsOf(es, n) && i < |parents|
    ensures var from := parents[i].0;
            && from.node in procs && Ancestors(es, from.node) < Ancestors(es, n)
            && var g1 := GatherNode(es, procs, ft, from.node, visited);
               var rest := GatherParents(es, procs, ft, n, parents[i..], visited);
               var rest' := GatherParents(es, procs, ft, n, parents[i + 1..], g1.visited);
               && rest.pieces == g1.pieces + [Copy(n, parents[i].1, from)] + rest'.pieces
               && rest.visited == rest'.visited
  {
    ParentFacts(es, procs, n, parents[i]);
    AncestorsShrink(es, parents[i].0.node, n);
    assert parents[i..][1..] == parents[i + 1..];
  }

  lemma TextsCopy(a: seq<Piece>, x: Piece, b: seq<Piece>)
    ensures Texts(a + [x] + b) == Texts(a) + [PieceText(x)] + Texts(b)
  {
    TextsAppend(a + [x], b);
    TextsAppend(a, [x]);
  }

  /** After the parent loop the collected ports give the node its context, on which the process does not panic. */
  lemma GatherNodeLast(es: seq<RawEdge>, procs: map<NodeId, Process>, ft: FloatText, n: NodeId,
                       parents: seq<ParentEntry>, inputs: seq<nat>, visited: set<NodeId>, visited': set<NodeId>)
    requires Compilable(es, procs) && n in procs && n !in visited && parents == ParentsOf(es, n)
    requires inputs == TargetPorts(parents[..|parents|])
    requires GatherParents(es, procs, ft, n, parents, visited + {n}).visited == visited'
    ensures var ctx := Context.New(n, inputs, procs[n].MaxOut());
            && ctx == ContextOf(es, procs[n], n) && procs[n].Fits(ctx)
            && var whole := GatherParents(es, procs, ft, n, parents, visited + {n});
               var g := GatherNode(es, procs, ft, n, visited);
               && Texts(g.pieces) == Texts(Placeholders(n, procs[n].MaxIn())) + Texts(whole.pieces) + [procs[n].Shader(ctx, ft)]
               && g.visited == visited'
  {
    var p := procs[n];
    var ctx := Context.New(n, inputs, p.MaxOut());
    assert ctx == ContextOf(es, p, n) by {
      assert parents[..|parents|] == parents;
    }
    var ph := Placeholders(n, p.MaxIn());
    var whole := GatherParents(es, procs, ft, n, parents, visited + {n});
    var body := Body(n, p.Shader(ctx, ft));
    assert GatherNode(es, procs, ft, n, visited).pieces == ph + whole.pieces + [body];
    TextsAppend(ph, whole.pieces);
    TextsAppend(ph + whole.pieces, [body]);
  }

  lemma Regroup(f: seq<string>, t: seq<string>, line: string, p: seq<string>)
    ensures f + (t + [line] + p) == (f + t + [line]) + p
  {
  }

  lemma Regroup3(f: seq<string>, a: seq<string>, b: seq<string>, x: string)
    ensures f + a + b + [x] == f + (a + b + [x])
  {
  }

  class TextureGenerator<T> {
    const dag: PortNumbered<GenNode<T>>
    /** How floats print in the generated text. */
    const ft: FloatText
    /** What the listeners have been told, in order. */
    ghost var log: seq<(NodeId, EventType)>

    ghost function Procs(): map<NodeId, Process>
      reads this, dag
    {
      ProcsOf(dag.nodes)
    }

    ghost function Cached(): set<NodeId>
      reads this, dag
    {
      CachedOf(dag.nodes)
    }

    /** The graph is well formed and no node's process panics on its inputs. */
    ghost predicate Sound()
      reads this, dag
    {
      dag.Valid() && Compilable(dag.edges, Procs())
    }

    /** Between operations every node holds exactly the program `build_shader` makes for it now. */
    ghost predicate Valid()
      reads this, dag
    {
      dag.Valid() && Current(dag.nodes, dag.edges, ft)
    }

    /** `new`: an empty graph and no listener calls yet. */
    constructor (ft: FloatText)
      ensures Valid() && fresh(dag) && dag.nodes == map[] && dag.edges == [] && this.ft == ft && log == []
    {
      dag := new PortNumbered();
      this.ft := ft;
      log := [];
    }

    /**
     * `gather_shader`: append to `shader` the snippets of the walk from `n`,
     * skipping nodes already in `visited`, and return the grown visited set.
     */
    method GatherShader(shader: Shader, n: NodeId, visited: set<NodeId>) returns (visited': set<NodeId>)
      requires Sound() && n in dag.nodes
      modifies shader
      ensures var g := GatherNode(dag.edges, Procs(), ft, n, visited);
              shader.fragmentSnippets == old(shader.fragmentSnippets) + Texts(g.pieces) && visited' == g.visited
      ensures shader.vertexSnippets == old(shader.vertexSnippets)
      decreases Ancestors(dag.edges, n), 1
    {
      ghost var es, procs := dag.edges, Procs();
      if n in visited {
        return visited;
      }
      var process := dag.nodes[n].process;
      AddPlaceholders(shader, n, process.MaxIn());
      ghost var base := shader.fragmentSnippets;
      var parents := dag.Parents(n);
      var inputs;
      inputs, visited' := GatherParentsLoop(shader, n, parents, visited + {n});
      var ctx := Context.New(n, inputs, process.MaxOut());
      GatherNodeLast(es, procs, ft, n, parents, inputs, visited, visited');
      var text := process.Shader(ctx, ft);
      shader.AddFragment(text);
      ghost var ph, rest := Texts(Placeholders(n, process.MaxIn())), Texts(GatherParents(es, procs, ft, n, parents, visited + {n}).pieces);
      assert Texts(GatherNode(es, procs, ft, n, visited).pieces) == ph + rest + [text];
      Regroup3(old(shader.fragmentSnippets), ph, rest, text);
    }

    /** The first loop of `gather_shader`: declare every input port of `n` as zero. */
    static method AddPlaceholders(shader: Shader, n: NodeId, count: nat)
      modifies shader
      ensures shader.fragmentSnippets == old(shader.fragmentSnippets) + Texts(Placeholders(n, count))
      ensures shader.vertexSnippets == old(shader.vertexSnippets)
    {
      var s := 0;
      while s < count
        invariant s <= count
        invariant shader.fragmentSnippets == old(shader.fragmentSnippets) + Texts(Placeholders(n, s))
        invariant shader.vertexSnippets == old(shader.vertexSnippets)
      {
        shader.AddFragment(PieceText(Placeholder(n, s)));
        PlaceholdersStep(n, s);
        s := s + 1;
      }
    }

    /**
     * The second loop of `gather_shader`: for each parent entry, walk the
     * parent and copy its output into the input port, collecting the ports.
     */
    method GatherParentsLoop(shader: Shader, n: NodeId, parents: seq<ParentEntry>, visited: set<NodeId>)
      returns (inputs: seq<nat>, visited': set<NodeId>)
      requires Sound() && n in dag.nodes && parents == ParentsOf(dag.edges, n)
      modifies shader
      ensures var g := GatherParents(dag.edges, Procs(), ft, n, parents, visited);
              && shader.fragmentSnippets == old(shader.fragmentSnippets) + Texts(g.pieces)
              && visited' == g.visited
      ensures inputs == TargetPorts(parents[..|parents|])
      ensures shader.vertexSnippets == old(shader.vertexSnippets)
      decreases Ancestors(dag.edges, n), 0
    {
      ghost var es, procs := dag.edges, Procs();
      ghost var base := shader.fragmentSnippets;
      ghost var whole := GatherParents(es, procs, ft, n, parents, visited);
      ghost var pending := Texts(whole.pieces);
      inputs, visited' := [], visited;
      var i := 0;
      while i < |parents|
        invariant i <= |parents|
        invariant inputs == TargetPorts(parents[..i])
        invariant var rest := GatherParents(es, procs, ft, n, parents[i..], visited');
                  pending == Texts(rest.pieces) && rest.visited == whole.visited
        invariant base + Texts(whole.pieces) == shader.fragmentSnippets + pending
        invariant shader.vertexSnippets == old(shader.vertexSnippets)
      {
        var (from, target) := parents[i];
        GatherParentsUnfold(es, procs, ft, n, parents, i, visited');
        TargetPortsStep(parents, i);
        ghost var before := shader.fragmentSnippets;
        ghost var g1 := GatherNode(es, procs, ft, from.node, visited');
        visited' := GatherShader(shader, from.node, visited');
        var line := PieceText(Copy(n, target, from));
        shader.AddFragment(line);
        ghost var rest' := GatherParents(es, procs, ft, n, parents[i + 1..], visited');
        ghost var pending' := Texts(rest'.pieces);
        TextsCopy(g1.pieces, Copy(n, target, from), rest'.pieces);
        Regroup(before, Texts(g1.pieces), line, pending');
        pending := pending';
        inputs := inputs + [target];
        i := i + 1;
      }
      assert parents[i..] == [];
    }

    /** `build_shader`: the program rendering `n`, from a fresh assembler and visited set. */
    method BuildShader(n: NodeId) returns (s: Source)
      requires Sound() && n in dag.nodes
      ensures s == Program(dag.edges, Procs(), ft, n)
    {
      ghost var es, procs := dag.edges, Procs();
      var shader := new Shader();
      shader.AddVertex(VertexLine);
      shader.AddFragment(OneLine);
      var visited := GatherShader(shader, n, {});
      shader.AddFragment(ColorLine(n));
      ProgramFrom(es, procs, ft, n, shader.fragmentSnippets);
      s := shader.Build();
    }

    /**
     * `update_dag`: rebuild `n`, tell the listeners whether its program is
     * new or changed, cache it, then cascade into each child in turn.
     */
    method UpdateDag(n: NodeId)
      requires Sound() && n in dag.nodes
      modifies this, dag
      ensures dag.Valid() && dag.edges == old(dag.edges) && dag.next == old(dag.next)
      ensures Rebuilt(old(dag.nodes), dag.nodes, UpdateOrder(dag.edges, n), dag.edges, ft)
      ensures log == old(log) + Events(UpdateOrder(dag.edges, n), old(Cached()))
      decreases Descendants(dag.edges, n), 1
    {
      ghost var es, nodes, cached := dag.edges, dag.nodes, Cached();
      var s := BuildShader(n);
      var w := dag.nodes[n];
      var event := if w.program.None? then Added else Changed;
      assert n in cached <==> w.program.Some?;
      EventsOne(n, cached);
      log := log + [(n, event)];
      dag.SetNodeWeight(n, w.(program := Some(s)));
      RebuiltOne(nodes, n, es, ft);
      ghost var mid := dag.nodes;
      ReprogrammedProcs(nodes, mid);
      ghost var log1 := log;
      var cs := dag.Children(n);
      UpdateChildrenLoop(n, cs);
      ghost var rest := UpdateChildren(es, n, cs);
      RebuiltThen(nodes, mid, dag.nodes, [n], rest, es, ft, old(log), log1, log);
      assert UpdateOrder(es, n) == [n] + rest;
    }

    /** The loop of `update_dag` over the children `cs` of `n`. */
    method UpdateChildrenLoop(n: NodeId, cs: seq<ChildEntry>)
      requires Sound() && n in dag.nodes && cs == ChildrenOf(dag.edges, n)
      modifies this, dag
      ensures dag.Valid() && dag.edges == old(dag.edges) && dag.next == old(dag.next)
      ensures Rebuilt(old(dag.nodes), dag.nodes, UpdateChildren(dag.edges, n, cs), dag.edges, ft)
      ensures log == old(log) + Events(UpdateChildren(dag.edges, n, cs), old(Cached()))
      decreases Descendants(dag.edges, n), 0
    {
      ghost var es, nodes := dag.edges, dag.nodes;
      ghost var done: seq<NodeId> := [];
      var i := 0;
      while i < |cs|
        invariant i <= |cs|
        invariant dag.Valid() && dag.edges == es && dag.next == old(dag.next)
        invariant done == UpdateChildren(es, n, cs[..i])
        invariant Rebuilt(nodes, dag.nodes, done, es, ft)
        invariant log == old(log) + Events(done, CachedOf(nodes))
      {
        var c := cs[i].1.node;
        ChildShrinks(es, n, cs, i);
        ghost var mid, log1 := dag.nodes, log;
        ReprogrammedProcs(nodes, mid);
        UpdateDag(c);
        RebuiltThen(nodes, mid, dag.nodes, done, UpdateOrder(es, c), es, ft, old(log), log1, log);
        UpdateChildrenStep(es, n, cs, i);
        done := done + UpdateOrder(es, c);
        i := i + 1;
      }
      assert cs[..i] == cs;
    }

    /** `add`: a new node with no program yet, then `update_dag` on it. */
    method Add(process: Process, data: T) returns (n: NodeId)
      requires Valid()
      modifies this, dag
      ensures Valid() && dag.edges == old(dag.edges) && n !in old(dag.nodes)
      ensures dag.nodes.Keys == old(dag.nodes).Keys + {n} && dag.nodes[n].data == data && dag.nodes[n].process == process
      ensures forall m | m in old(dag.nodes) :: dag.nodes[m] == old(dag.nodes)[m]
      ensures log == old(log) + [(n, Added)]
    {
      ghost var es, nodes0 := dag.edges, dag.nodes;
      n := dag.AddNode(GenNode(data, process, None));
      CompilableAdded(es, nodes0, n, GenNode(data, process, None));
      UpdateDag(n);
      AddedCascaded(es, nodes0, dag.nodes, ft, n, GenNode(data, process, None), old(log), log);
    }

    /**
     * `connect`: route output `from` into input `to`, unless that closes a
     * cycle; on success rebuild from `to`'s node.
     */
    method Connect(from: Port, to: Port) returns (ok: bool)
      requires Valid() && from.node in dag.nodes && to.node in dag.nodes
      requires !WouldCreateCycle(dag.edges, from, to) ==> Panicless(Updated(dag.edges, from, to), Procs())
      modifies this, dag
      ensures Valid() && Reprogrammed(old(dag.nodes), dag.nodes)
      ensures ok <==> !WouldCreateCycle(old(dag.edges), from, to)
      ensures !ok ==> dag.edges == old(dag.edges) && dag.nodes == old(dag.nodes) && log == old(log)
      ensures ok ==>
                && dag.edges == Updated(old(dag.edges), from, to)
                && (forall m | m in dag.nodes && m !in UpdateOrder(dag.edges, to.node) :: dag.nodes[m] == old(dag.nodes[m]))
                && log == old(log) + Changes(UpdateOrder(dag.edges, to.node))
    {
      ghost var es0, nodes0 := dag.edges, dag.nodes;
      var r := dag.UpdateEdge(from, to);
      if r.Err? {
        return false;
      }
      ghost var es, log0 := dag.edges, log;
      assert Sound();
      UpdateDag(to.node);
      forall x | x in nodes0 && x != to.node
        ensures ParentsOf(es, x) == ParentsOf(es0, x)
      {
        ParentsOfUpdated(es0, from, to, x);
      }
      Cascaded(es0, nodes0, es, nodes0, dag.nodes, ft, to.node, log0, log);
      ok := true;
    }

    /** `disconnect`: drop the edge feeding input `to`, if any, and rebuild from its node. */
    method Disconnect(to: Port) returns (r: Option<Port>)
      requires Valid()
      requires PortEdge(dag.edges, to).Some? ==> Panicless(RemoveAt(dag.edges, PortEdge(dag.edges, to).value), Procs())
      modifies this, dag
      ensures Valid() && Reprogrammed(old(dag.nodes), dag.nodes)
      ensures PortEdge(old(dag.edges), to).None? ==>
                r.None? && dag.edges == old(dag.edges) && dag.nodes == old(dag.nodes) && log == old(log)
      ensures PortEdge(old(dag.edges), to).Some? ==>
                var e := old(dag.edges)[PortEdge(old(dag.edges), to).value];
                && r == Some(Port(e.src, e.weight.source))
                && dag.edges == RemoveAt(old(dag.edges), PortEdge(old(dag.edges), to).value)
                && (forall m | m in dag.nodes && m !in UpdateOrder(dag.edges, to.node) :: dag.nodes[m] == old(dag.nodes[m]))
                && log == old(log) + Changes(UpdateOrder(dag.edges, to.node))
    {
      ghost var es0, nodes0 := dag.edges, dag.nodes;
      r := dag.RemoveEdgeToPort(to);
      if r.None? {
        return;
      }
      ghost var i := PortEdge(es0, to).value;
      assert es0[i] in es0 && Occupies(es0[i], to);
      ghost var es, log0 := dag.edges, log;
      assert Sound();
      UpdateDag(to.node);
      forall x | x in nodes0 && x != to.node
        ensures ParentsOf(es, x) == ParentsOf(es0, x)
      {
        ParentsOfRemoveAt(es0, i, x);
      }
      Cascaded(es0, nodes0, es, nodes0, dag.nodes, ft, to.node, log0, log);
    }

    /**
     * `modify`: change setting number `key` of `n`'s process to the value
     * `parse` reads from `value`; on success rebuild from `n`.
     */
    method Modify(n: NodeId, key: nat, value: string, parse: (Settings.Kind, string) -> Option<Settings.Setting>)
      returns (ok: bool)
      requires Valid()
      modifies this, dag
      ensures Valid() && dag.edges == old(dag.edges) && dag.nodes.Keys == old(dag.nodes).Keys
      ensures ok <==> n in old(dag.nodes) && Processes.Modify(old(dag.nodes)[n].process, key, value, parse).Some?
      ensures !ok ==> dag.nodes == old(dag.nodes) && log == old(log)
      ensures ok ==>
                && dag.nodes[n].data == old(dag.nodes)[n].data
                && dag.nodes[n].process == Processes.Modify(old(dag.nodes)[n].process, key, value, parse).value
                && (forall m | m in dag.nodes && m != n ::
                      dag.nodes[m].data == old(dag.nodes)[m].data && dag.nodes[m].process == old(dag.nodes)[m].process)
                && (forall m | m in dag.nodes && m !in UpdateOrder(dag.edges, n) :: dag.nodes[m] == old(dag.nodes[m]))
                && log == old(log) + Changes(UpdateOrder(dag.edges, n))
    {
      if n !in dag.nodes {
        return false;
      }
      var w := dag.nodes[n];
      var p := Processes.Modify(w.process, key, value, parse);
      if p.None? {
        return false;
      }
      ghost var es, nodes0, log0 := dag.edges, dag.nodes, log;
      dag.SetNodeWeight(n, w.(process := p.value));
      ghost var mid := dag.nodes;
      PaniclessFrame(es, ProcsOf(nodes0), es, ProcsOf(mid));
      assert Sound();
      UpdateDag(n);
      Cascaded(es, nodes0, es, mid, dag.nodes, ft, n, log0, log);
      ok := true;
    }

    /**
     * `remove`: drop the edges out of `n`, rebuild each former child in
     * turn, then delete `n`, announcing its program as removed.
     */
    method Remove(n: NodeId) returns (r: Option<Process>)
      requires Valid() && Panicless(WithoutSource(dag.edges, n), Procs())
      modifies this, dag
      ensures Valid()
      ensures n !in old(dag.nodes) ==>
                r.None? && dag.edges == old(dag.edges) && dag.nodes == old(dag.nodes) && log == old(log)
      ensures n in old(dag.nodes) ==>
                var order := RemovalOrder(old(dag.edges), n);
                && r == Some(old(dag.nodes)[n].process)
                && dag.edges == Detached(old(dag.edges), n)
                && Reprogrammed(old(dag.nodes) - {n}, dag.nodes)
                && (forall m | m in dag.nodes && m !in order :: dag.nodes[m] == old(dag.nodes[m]))
                && log == old(log) + Changes(order) + [(n, Removed)]
    {
      ghost var es0, nodes0 := dag.edges, dag.nodes;
      DetachChildren(n);
      ghost var es1, nodes1, log1 := dag.edges, dag.nodes, log;
      var removed := dag.RemoveNode(n);
      if removed.None? {
        assert ChildNodes(ChildrenOf(es0, n)) == [] by {
          var roots := ChildNodes(ChildrenOf(es0, n));
          if roots != [] {
            ChildNodesExact(es0, n, roots[0]);
          }
        }
        WithoutSourceNone(es0, n);
        return None;
      }
      r := Some(removed.value.process);
      assert removed.value.program.Some? by {
        CurrentCached(nodes1, es1, ft);
        assert n in CachedOf(nodes1);
      }
      log := log + [(n, Removed)];
      forall e | e in es1
        ensures e.src != n
      {
        WithoutSourceExact(es0, n, e);
      }
      CurrentDetached(nodes1, es1, ft, n);
      DetachedWithoutSource(es0, n);
    }

    /**
     * The first part of `remove`: drop the edges out of `n` and run
     * `update_dag` on each former child.
     */
    method DetachChildren(n: NodeId)
      requires Valid() && Panicless(WithoutSource(dag.edges, n), Procs())
      modifies this, dag
      ensures Valid() && dag.next == old(dag.next)
      ensures dag.edges == WithoutSource(old(dag.edges), n)
      ensures Reprogrammed(old(dag.nodes), dag.nodes)
      ensures forall m | m in dag.nodes && m !in RemovalOrder(old(dag.edges), n) :: dag.nodes[m] == old(dag.nodes[m])
      ensures log == old(log) + Changes(RemovalOrder(old(dag.edges), n))
    {
      ghost var es0, nodes0 := dag.edges, dag.nodes;
      var cs := dag.Children(n);
      var roots := ChildNodes(cs);
      dag.RemoveOutgoingEdges(n);
      forall x | x in roots
        ensures x in nodes0
      {
        ChildNodesExact(es0, n, x);
      }
      assert Sound();
      UpdateRoots(roots);
      assert Cascades(dag.edges, roots) == RemovalOrder(es0, n);
      RootsCascaded(es0, nodes0, dag.nodes, ft, n, old(log), log);
    }

    /** The loop of `remove` over the former children: `update_dag` on each root in turn. */
    method UpdateRoots(roots: seq<NodeId>)
      requires Sound() && forall x | x in roots :: x in dag.nodes
      modifies this, dag
      ensures dag.Valid() && dag.edges == old(dag.edges) && dag.next == old(dag.next)
      ensures Rebuilt(old(dag.nodes), dag.nodes, Cascades(dag.edges, roots), dag.edges, ft)
      ensures log == old(log) + Events(Cascades(dag.edges, roots), old(Cached()))
    {
      ghost var es, nodes, cached := dag.edges, dag.nodes, Cached();
      var i := 0;
      while i < |roots|
        invariant i <= |roots|
        invariant dag.Valid() && dag.edges == es && dag.next == old(dag.next)
        invariant Rebuilt(nodes, dag.nodes, Cascades(es, roots[..i]), es, ft)
        invariant log == old(log) + Events(Cascades(es, roots[..i]), cached)
      {
        ghost var done, mid, log1 := Cascades(es, roots[..i]), dag.nodes, log;
        ReprogrammedProcs(nodes, mid);
        UpdateDag(roots[i]);
        RebuiltThen(nodes, mid, dag.nodes, done, UpdateOrder(es, roots[i]), es, ft, old(log), log1, log);
        CascadesStep(es, roots, i);
        i := i + 1;
      }
      assert roots[..i] == roots;
    }
  }
}
