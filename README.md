# texturegen core in Dafny

texturegen builds procedural textures from a graph of *processes*: sources
(a constant colour, stripes, noise), combiners (blend modes) and modifiers
(edge detection, select, invert). Each process is a node of a
port-numbered DAG. An edge joins an output port of one node to an input
port of another, and each input port is fed by at most one edge. Every
node caches a GLSL program (vertex and fragment shader text) that renders
it. The generator compiles eagerly: adding a node, connecting, disconnecting
or modifying a node rebuilds that node's program. Removing a node rebuilds
its former children. Each rebuild also recompiles every node below it, and
every new program is announced to the registered listeners.

This project models that core:

- `Dag` (src/dag.rs): the port-numbered DAG over daggy, as a class with a
  node map, a counter for fresh handles and an edge sequence in storage
  order. daggy's cycle check is a depth-first search, proved to answer
  the reachability question. `update_edge`, `remove_edge_to_port`,
  `remove_outgoing_edges` and the `edges`/`parents`/`children` walks are
  loops proved against specification functions.
- `Assembler`, `AssemblerTg`, `Naming` (src/shader/mod.rs,
  texturegen/src/shader/mod.rs): the shader assembler (a class whose
  `Build` loops are proved to produce header, snippets in order, closing
  brace) and the per-node `Context` with its variable names. The newer
  assembler adds the noise library text and numbered temporaries.
- `Settings`, `Processes`, `Inputs`, `Combiners`, `BlendModes`,
  `Modifiers`, `InputsTg`, `ModifiersTg` (src/process/*,
  texturegen/src/process/*): the `Setting` kinds and their text, and every
  process of both catalogs. For each process the model states its
  settings table, its arity and the GLSL text its `shader` emits.
- `Colors`, `Strings` (src/utils.rs): `decode_color`/`encode_color`,
  Rust's `split`, `trim` and decimal printing.
- `Gather`, `Cascade`, `Generator` (src/lib.rs): `TextureGenerator`.
  - `Gather.Program` is the program `build_shader` makes, with parents
    visited in edge storage order (see "Left out"). The recursive
    walk `gather_shader` emits each ancestor's process text exactly once,
    and each copy into an input variable after the parent's text.
  - `Cascade.UpdateOrder` is the order in which `update_dag` rebuilds
    nodes. It holds exactly the nodes reachable from the changed node.
  - The class invariant `Valid()` says the DAG is well formed and every
    node holds the program `Gather.Program` makes for it now.
  - Every public operation is proved to keep the invariant, and to tell
    the listeners exactly one event per rebuild.

The listeners are modelled as a ghost log of `(node, event)` pairs.
Floating-point text (Rust's `{}` of `f32`/`f64` and texturegen's `col`)
comes from a `FloatText` record of printing functions passed as a
parameter. Parsing a setting's text is likewise a caller-supplied parser.

## Model

| member | source | states |
|---|---|---|
| Naming.TypeName | src/shader/mod.rs:110-119 | every variable prefix is at least two characters long and contains no `_` |
| Naming.Render | src/shader/mod.rs:128-131 | a name is the role prefix, node id and index joined by `_`, and splitting it at `_` gives those three fields back |
| Naming.RenderInjective | src/shader/mod.rs:122-131 | two identifiers print the same name exactly when role, node and index all agree, so variables of different nodes never clash |
| Strings.NatToString | src/shader/mod.rs:128-131 | integers print as a non-empty run of decimal digits with no leading zero |
| Strings.DigitsValueOfNatToString | src/process/mod.rs:37 | reading the decimal text back gives the number (printing loses nothing) |
| Strings.NatToStringInjective | src/shader/mod.rs:128-131 | distinct numbers print differently |
| Strings.Split | src/utils.rs:4 | `split(c)` yields at least one piece, no piece contains `c`, and joining the pieces with `c` gives the input back |
| Strings.SplitJoin | src/utils.rs:4 | splitting a `c`-join of `c`-free pieces gives exactly those pieces back |
| Strings.SplitAppend | src/utils.rs:4 | splitting at a separator already present splits each side independently |
| Assembler.Shader.constructor | src/shader/mod.rs:16-21 | a new shader has no vertex or fragment snippets and no library text |
| Assembler.Shader.WithLibrary | texturegen/src/shader/mod.rs:20-25 | the newer shader starts empty and carries the library text its build inserts |
| Assembler.Shader.AddVertex | src/shader/mod.rs:23-25 | the snippet is appended to the vertex snippets; fragment snippets unchanged |
| Assembler.Shader.AddFragment | src/shader/mod.rs:27-29 | the snippet is appended to the fragment snippets; vertex snippets unchanged |
| Assembler.Shader.Build | src/shader/mod.rs:31-55 | the two loops yield header, every snippet in order, then `}`, for both shaders |
| Assembler.VertexAppend | src/shader/mod.rs:32-43 | adding a vertex snippet inserts it just before the closing brace, after all earlier ones |
| Assembler.FragmentAppend | src/shader/mod.rs:45-54 | the same for fragment snippets, whatever the library text |
| Assembler.FragmentDetermines | src/shader/mod.rs:45-54 | the built fragment text determines the library and the concatenated snippets |
| Assembler.Dedup | src/shader/mod.rs:74-80 | collecting input indices into a map keeps exactly the same indices, with no repetition |
| Assembler.DistinctCard | src/shader/mod.rs:94-96 | a repetition-free index list has as many entries as distinct indices |
| Assembler.Context.New | src/shader/mod.rs:74-80 | the context keeps the node id and output count, and knows exactly the given input ports, each once |
| Assembler.Context.Input | src/shader/mod.rs:82-84 | `input(i)` is present exactly when port `i` is connected, and then names input `i` of this node |
| Assembler.Context.FirstInput | src/shader/mod.rs:86-88 | the first input is one of the connected inputs (the source panics when there is none) |
| Assembler.Context.InputLen | src/shader/mod.rs:94-96 | the number of distinct connected ports; zero exactly when none is connected |
| Assembler.Context.Output | src/shader/mod.rs:98-100 | `output(i)` names output `i` of this node; other indices panic in the source |
| AssemblerTg.TgContext.constructor | texturegen/src/shader/mod.rs:180-187 | the newer context has the older context's lookups and no temporaries yet |
| AssemblerTg.TgContext.Temporary | texturegen/src/shader/mod.rs:209-217 | the k-th call returns temporary k of this node, and the counter goes up by one |
| AssemblerTg.TemporariesFresh | texturegen/src/shader/mod.rs:209-217 | different calls give different names, and no temporary name equals an input or output name of the context |
| AssemblerTg.LibraryInPlace | texturegen/src/shader/mod.rs:49-157 | the library text sits between the fragment header and `void main() {`, whatever the snippets |
| Settings.ToString | src/process/mod.rs:32-44 | each kind's text reads back as its value: text unchanged, integers as decimal digits whose value is the number, flags as `1` exactly when set and `0` exactly when clear, blend types by a name that looks up the same variant |
| Settings.ColorShownAsFourFields | src/process/mod.rs:40 | a colour is shown as four comma-separated fields, red, green, blue, alpha |
| BlendModes.FromName | src/process/combiners.rs:51-70 | a name found in the type names belongs to the variant returned |
| BlendModes.NamesRoundTrip | src/process/combiners.rs:51-70 | every variant is in the variant list and its name reads back as that variant |
| BlendModes.NamesInjective | src/process/combiners.rs:51-70 | two variants have the same name exactly when they are the same variant |
| BlendModes.ForEachChannel | src/process/combiners.rs:116-134 | the `first`-flag loop returns the lone expression for one channel, and otherwise `vec<n>(`, the channel expressions joined by `,\n`, and `)` |
| BlendModes.Blend | src/process/combiners.rs:73-114 | the formula of each mode over input 0 and input 1 swizzled to the channels: `Normal` is input 1 alone, the arithmetic, `abs`, `min`, `max` and screen modes put input 0 first, and `Overlay`, `Hard` and `Soft` are built channel by channel through `for_each_channel`; both inputs must be connected, as the `unwrap`s demand |
| BlendModes.ConditionOperand | src/process/combiners.rs:88-110 | `Overlay` tests input 0 per channel, `Hard` and `Soft` test input 1, and `Overlay` and `Hard` share their two alternatives |
| Combiners.Blend.SettingOf | src/process/combiners.rs:14-21 | both keys hold a blend type; with `Combiners.Blend.WriteBack` and the field equations of `WithSetting`, `blend` reads the colour type and `alpha` the alpha type |
| Combiners.Blend.WithSetting | src/process/combiners.rs:22-29 | assigning through `setting_mut` changes that key and leaves the other; `blend` sets the colour type and `alpha` the alpha type, the ones `Shader` uses over `rgb` and over `a` |
| Combiners.Blend.WriteBack | src/process/combiners.rs:14-29 | assigning back what `setting` reads for a key leaves the blend unchanged, so `setting` reads the field `setting_mut` writes |
| Combiners.Blend.Shader | src/process/combiners.rs:35-48 | output 0 is declared first; it is zero exactly when no input is connected, a copy of the input when one is, and otherwise one `vec4` of the colour formula over `rgb` and the alpha formula over `a` |
| Inputs.Constant.SettingOf | src/process/inputs.rs:17-23 | the one key holds a colour |
| Inputs.Constant.WriteBack | src/process/inputs.rs:17-30 | assigning back the colour `setting` reads leaves the process unchanged, so `setting` reads the stored colour |
| Inputs.Constant.WithSetting | src/process/inputs.rs:24-30 | assigning the colour sets it |
| Inputs.Constant.Shader | src/process/inputs.rs:36-39 | the text declares output 0 first |
| Inputs.Stripes.SettingOf | src/process/inputs.rs:61-70 | horizontal and vertical hold integers and the two colours hold colours; with `Inputs.Stripes.WriteBack` and the field equations of `WithSetting`, each key reads its own field |
| Inputs.Stripes.WriteBack | src/process/inputs.rs:61-80 | assigning back what `setting` reads for a key leaves the process unchanged, so `setting` reads the field `setting_mut` writes |
| Inputs.Stripes.WithSetting | src/process/inputs.rs:71-80 | assigning a key changes that setting and no other: `horizontal` sets `hor`, `vertical` sets `ver`, and the two colour keys set the even and the odd colour |
| Inputs.Stripes.Emit | src/process/inputs.rs:86-99 | the whole text: output 0 declared without a value, the `if` comparing the column parity along x (from `ver`) with the row parity along y (from `hor`), then the odd colour in the then-branch and the even one in the else-branch |
| Inputs.Stripes.Shader | src/process/inputs.rs:86-99 | the text declares output 0 first |
| Modifiers.EdgeDetect.SettingOf | src/process/modifiers.rs:24-30 | the one key holds a float |
| Modifiers.EdgeDetect.WriteBack | src/process/modifiers.rs:24-37 | assigning back the threshold `setting` reads leaves the process unchanged, detection type included |
| Modifiers.EdgeDetect.WithSetting | src/process/modifiers.rs:31-37 | assigning the threshold sets it and keeps the detection type |
| Modifiers.EdgeDetect.Shader | src/process/modifiers.rs:45-49 | the text declares output 0 first |
| Modifiers.EdgeDetectIgnoresInputs | src/process/modifiers.rs:45-49 | the text depends only on the node, never on which input is connected |
| InputsTg.ConstantShader | texturegen/src/process/inputs.rs:40-42 | output 0 is declared as the colour printed by `col` |
| InputsTg.StripesShader | texturegen/src/process/inputs.rs:94-111 | output 0 is declared first and the text ends with the odd/even `if` over colours printed by `col` |
| InputsTg.CatalogsAgree | texturegen/src/process/inputs.rs:40-111 | when `col` prints as the older `vec4` literal, both catalogs emit the same text for `Constant` and `Stripes` |
| InputsTg.VoronoiNoise.SettingOf | texturegen/src/process/inputs.rs:136-146 | seed, horizontal and vertical are integers; grid and control are floats; with `InputsTg.VoronoiNoise.WriteBack` and the field equations of `WithSetting`, each key reads its own field |
| InputsTg.VoronoiNoise.WithSetting | texturegen/src/process/inputs.rs:147-157 | assigning a key changes that setting and no other: `seed` sets `seed`, `horizontal` sets `hor`, `vertical` sets `ver`, `grid` sets `grid` and `control` sets `control`, the fields `Text` prints |
| InputsTg.VoronoiNoise.WriteBack | texturegen/src/process/inputs.rs:136-157 | assigning back what `setting` reads for a key leaves the process unchanged, so `setting` reads the field `setting_mut` writes |
| InputsTg.VoronoiNoise.Text | texturegen/src/process/inputs.rs:167-182 | the text ends by writing the temporary, grey and opaque, to output 0 |
| InputsTg.VoronoiNoise.Shader | texturegen/src/process/inputs.rs:167-182 | exactly one temporary is taken, and the text is the one for that temporary and output 0 |
| InputsTg.Noise.SettingOf | texturegen/src/process/inputs.rs:203-211 | all three keys are integers; with `InputsTg.Noise.WriteBack` and the field equations of `WithSetting`, each key reads its own field |
| InputsTg.Noise.WithSetting | texturegen/src/process/inputs.rs:212-220 | assigning a key changes that setting and no other: `seed` sets `seed`, `horizontal` sets `hor` and `vertical` sets `ver` |
| InputsTg.Noise.WriteBack | texturegen/src/process/inputs.rs:203-220 | assigning back what `setting` reads for a key leaves the process unchanged, so `setting` reads the field `setting_mut` writes |
| InputsTg.Noise.Text | texturegen/src/process/inputs.rs:230-245 | the text ends by writing the temporary, grey and opaque, to output 0 |
| InputsTg.Noise.Shader | texturegen/src/process/inputs.rs:230-245 | exactly one temporary is taken, and the text is the one for that temporary and output 0 |
| ModifiersTg.Select.SettingOf | texturegen/src/process/modifiers.rs:80-86 | the one key holds a float |
| ModifiersTg.Select.WriteBack | texturegen/src/process/modifiers.rs:80-93 | assigning back the threshold `setting` reads leaves the process unchanged |
| ModifiersTg.Select.WithSetting | texturegen/src/process/modifiers.rs:87-93 | assigning the threshold sets it |
| ModifiersTg.Select.Shader | texturegen/src/process/modifiers.rs:103-117 | output 0 is zero exactly when one of inputs 0, 1, 2 is missing; otherwise the whole text: output 0 declared as input 0, an `if` testing input 1's luminance (0.33 of each of r, g, b) against the threshold, and inside it output 0 assigned input 2 |
| ModifiersTg.Invert.New | texturegen/src/process/modifiers.rs:126-128 | a new invert, given input 0, emits one minus r, g and b and keeps alpha |
| ModifiersTg.Invert.SettingOf | texturegen/src/process/modifiers.rs:132-138 | the one key holds a boolean |
| ModifiersTg.Invert.WriteBack | texturegen/src/process/modifiers.rs:132-145 | assigning back the flag `setting` reads leaves the process unchanged |
| ModifiersTg.Invert.WithSetting | texturegen/src/process/modifiers.rs:139-145 | assigning the flag sets it |
| ModifiersTg.Invert.Shader | texturegen/src/process/modifiers.rs:155-173 | zero exactly when input 0 is missing; otherwise one minus alpha with `alpha` set, one minus r, g and b without |
| Processes.Process.WithSetting | src/process/mod.rs:23-30 | assigning a setting keeps the key list, the arity and the contexts accepted, and sets that key |
| Processes.Process.Shader | src/process/mod.rs:52 | every process's text starts by declaring its output 0 |
| Processes.WithSettingKeepsOthers | src/process/mod.rs:23-30 | assigning one setting leaves every other setting as it was |
| Processes.BlendInputs | src/process/combiners.rs:42-47 | with only ports 0 and 1 and two distinct inputs, both ports are connected |
| Processes.PortsBelowMaxInFit | src/process/mod.rs:49-52 | a process does not panic on a context whose input ports are all below its `max_in` |
| Processes.Modify | src/lib.rs:54 | `modify(key, value)` succeeds exactly when `key` indexes the settings and the text parses to a value of that setting's kind; it then sets that setting and keeps the key list and the arity |
| Colors.TrimStart | src/utils.rs:8-10 | the result is a suffix that does not start with whitespace, and everything cut off is whitespace |
| Colors.TrimEnd | src/utils.rs:8-10 | the result is a prefix that does not end with whitespace, and everything cut off is whitespace |
| Colors.Trim | src/utils.rs:8-10 | the result is a slice of the input with no whitespace at either end, and only whitespace around it |
| Colors.TrimIdempotent | src/utils.rs:8-10 | trimming twice is trimming once |
| Colors.DecodeColor | src/utils.rs:3-11 | `Internal` exactly when there are fewer than three fields; success exactly when the first three trimmed fields parse, yielding them in order |
| Colors.EncodeColor | src/utils.rs:13-15 | when printed numbers contain no comma, the text splits back into the three printed numbers |
| Colors.RoundTrip | src/utils.rs:3-15 | decoding an encoded colour gives the colour back when printed numbers contain no comma and parse back |
| Colors.ExtraFieldsIgnored | src/utils.rs:3-11 | fields after the third do not affect decoding |
| Dag.AcyclicAddArc | src/dag.rs:45 | adding an arc whose target does not reach its source keeps the graph acyclic |
| Dag.HasPathConnecting | src/dag.rs:45 | the depth-first search answers true exactly when `to` can be reached from `from` |
| Dag.Find | src/dag.rs:44 | the index found is the first edge satisfying the test; none exactly when no edge does |
| Dag.RemoveAtWellFormed | src/dag.rs:54-62 | removing one edge keeps the DAG well formed |
| Dag.Overwritten | src/dag.rs:45 | daggy's `update_edge` overwrites the existing edge between the two nodes, or appends one, touching nothing else |
| Dag.UpdateEdgeAsWrittenDeletesReconnection | src/dag.rs:43-51 | reconnecting a node pair into the port its edge already feeds is accepted and leaves no edge at all |
| Dag.UpdatedAsWrittenAgrees | src/dag.rs:43-51 | the code as written and the corrected update differ only when the edge on the target port is the one overwritten |
| Dag.UpdatedWellFormed | src/dag.rs:43-51 | a successful update keeps node pairs joined once, every port fed once, and the graph acyclic |
| Dag.UpdatedFeedsTarget | src/dag.rs:43-51 | after the update the new connection exists and is the only one feeding the target port |
| Dag.UpdatedKeepsOtherInputs | src/dag.rs:43-51 | edges into other nodes are exactly as before |
| Dag.UpdatedDropsOldProducer | src/dag.rs:43-51 | the edge that fed the target port from another node is gone |
| Dag.UpdatedMovesPairToNewPort | src/dag.rs:43-51 | connecting an already joined pair on another input port leaves the old port empty |
| Dag.ParentsOfUpdated | src/dag.rs:43-51 | parent lists of nodes other than the target are unchanged |
| Dag.ParentsOfExact | src/dag.rs:129-141 | `parents(n)` lists exactly one entry per edge into `n` |
| Dag.ChildrenOfExact | src/dag.rs:143-155 | `children(n)` lists exactly one entry per edge out of `n` |
| Dag.WithoutSourceExact | src/dag.rs:64-69 | after removing the outgoing edges, exactly the edges not leaving `n` remain |
| Dag.WithoutSourceAcyclic | src/dag.rs:64-69 | removing edges keeps the graph acyclic |
| Dag.DetachedExact | src/dag.rs:77-79 | removing a node leaves exactly the edges touching neither end at it |
| Dag.DetachedWithoutSource | src/lib.rs:68-72 | removing the outgoing edges first does not change which edges removing the node leaves |
| Dag.PortNumbered.constructor | src/dag.rs:25-29 | a new DAG is well formed, with no nodes and no edges |
| Dag.PortNumbered.AddNode | src/dag.rs:73-75 | the node gets a fresh handle; edges unchanged; well formedness kept |
| Dag.PortNumbered.RemoveNode | src/dag.rs:77-79 | a present node is returned and removed with every edge touching it; an absent one changes nothing |
| Dag.PortNumbered.NodeWeight | src/dag.rs:81-83 | the weight is present exactly for a present node |
| Dag.PortNumbered.SetNodeWeight | src/dag.rs:85-87 | only that node's weight changes |
| Dag.PortNumbered.FindEdge | src/dag.rs:44 | the walk returns the first edge satisfying the test |
| Dag.PortNumbered.EdgeCount | src/dag.rs:93-95 | in a valid DAG the edge count equals the number of fed input ports and the number of joined node pairs |
| Dag.PortNumbered.UpdateEdge | src/dag.rs:43-51 | fails with `WouldCycle`, changing nothing, exactly when the new edge would close a cycle; otherwise the edges become the corrected update and the returned index holds the new edge |
| Dag.PortNumbered.RemoveEdgeToPort | src/dag.rs:54-62 | with an edge on the port, removes it and returns its source port; otherwise returns none and changes nothing |
| Dag.PortNumbered.RemoveOutgoingEdges | src/dag.rs:64-69 | the loop leaves exactly the edges not leaving `n`, in order |
| Dag.PortNumbered.Edges | src/dag.rs:114-127 | one pair of ports per stored edge, in storage order, as many as `edge_count` |
| Dag.PortNumbered.Parents | src/dag.rs:129-141 | the loop yields `ParentsOf`, one entry per edge into `n` |
| Dag.PortNumbered.Children | src/dag.rs:143-155 | the loop yields `ChildrenOf`, one entry per edge out of `n` |
| Gather.AncestorsShrink | src/lib.rs:144-161 | a parent has strictly fewer ancestors than its child, so the recursive walk terminates |
| Gather.ProgramFrom | src/lib.rs:135-142 | the program is the one-line vertex shader and the fragment shader built from `one`, the walk's snippets and the colour line |
| Gather.GatherNodeOnce | src/lib.rs:144-161 | a walk emits process text only for nodes it newly visits, each once, and adds exactly those nodes to the visited set |
| Gather.GatherNodeCloses | src/lib.rs:144-161 | after a walk, the parents of every visited node are visited |
| Gather.GatherNodeWithin | src/lib.rs:144-161 | a walk emits process text only for ancestors of its root |
| Gather.GatherNodeFeeds | src/lib.rs:144-161 | every copy into an input variable comes after the process text of the parent it reads |
| Gather.EveryAncestorOnce | src/lib.rs:135-161 | from the root, the process text of exactly its ancestors is emitted, each once, and every copy reads an output already computed |
| Gather.GatherNodeFrame | src/lib.rs:144-161 | the walk depends only on the processes and parent lists of the root's ancestors |
| Gather.ProgramUnaffected | src/lib.rs:118-133 | a node that no changed node reaches keeps the same program |
| Gather.PaniclessAdd | src/lib.rs:45-49 | a new node without edges panics nowhere, nor does any other |
| Gather.CompilableDetached | src/lib.rs:66-82 | removing a node without outgoing edges keeps the rest compilable with the same parent lists |
| Cascade.DescendantsShrink | src/lib.rs:130-132 | a child has strictly fewer descendants than its parent, so the cascade terminates |
| Cascade.UpdateOrderReaches | src/lib.rs:118-133 | `update_dag(n)` rebuilds exactly the nodes reachable from `n` |
| Cascade.UpdateOrderSink | src/lib.rs:118-133 | a node without children rebuilds alone |
| Cascade.CascadesReaches | src/lib.rs:69-71 | the cascades of several roots rebuild exactly the nodes some root reaches |
| Cascade.ChildNodesExact | src/lib.rs:67 | the collected children of `n` are exactly the ends of the edges out of `n` |
| Cascade.EventsExact | src/lib.rs:121-128 | one event per rebuild, naming the node; `Added` exactly on a node's first program, never `Removed` |
| Cascade.EventsCached | src/lib.rs:121-125 | when every rebuilt node already held a program, every event is `Changed` |
| Generator.CurrentCached | src/lib.rs:72-78 | when every program is current, every node holds one |
| Generator.Revalidated | src/lib.rs:118-133 | after a change, rebuilding an order that holds everything the change reaches makes every program current |
| Generator.Cascaded | src/lib.rs:118-133 | a change at one node followed by `update_dag` there leaves every program current, untouches the nodes it skips, and reports only changes |
| Generator.AddedCascaded | src/lib.rs:45-49 | after adding, only the new node is built, every program is current and one `Added` event is heard |
| Generator.CurrentDetached | src/lib.rs:72-78 | removing a node without outgoing edges leaves every other program current |
| Generator.RootsCascaded | src/lib.rs:66-71 | after dropping the outgoing edges and rebuilding the former children's cascades, every program is current and one change per rebuild is heard |
| Generator.TextureGenerator.constructor | src/lib.rs:30-35 | a new generator is valid, empty, and has told the listeners nothing |
| Generator.TextureGenerator.AddPlaceholders | src/lib.rs:150-152 | one zeroed input line per port below `max_in`, in port order |
| Generator.TextureGenerator.GatherParentsLoop | src/lib.rs:153-158 | the loop appends the walk into each parent and its copy line, and collects the input ports in order |
| Generator.TextureGenerator.GatherShader | src/lib.rs:144-161 | the appended snippets and the grown visited set are those of `GatherNode` |
| Generator.TextureGenerator.BuildShader | src/lib.rs:135-142 | the result is `Program`, the program of the node over the current graph |
| Generator.TextureGenerator.UpdateDag | src/lib.rs:118-133 | caches the current program on every node of `UpdateOrder`, leaves other programs, and logs one event per rebuild |
| Generator.TextureGenerator.UpdateChildrenLoop | src/lib.rs:130-132 | the child loop rebuilds each child's cascade in turn, with its events |
| Generator.TextureGenerator.Add | src/lib.rs:45-49 | a fresh node with the process and data, other nodes untouched, all programs current, one `Added` event |
| Generator.TextureGenerator.Connect | src/lib.rs:84-91 | true exactly when no cycle would form; then the edges are the corrected update, the target's cascade is rebuilt and reported as changes; otherwise nothing changes |
| Generator.TextureGenerator.Disconnect | src/lib.rs:93-100 | with an edge on the port, removes it, returns its source and rebuilds the target's cascade; otherwise nothing changes |
| Generator.TextureGenerator.Modify | src/lib.rs:51-64 | true exactly when the node exists and the process accepts the setting; then only that process changes and its cascade is rebuilt; otherwise nothing changes |
| Generator.TextureGenerator.DetachChildren | src/lib.rs:67-71 | drops the edges out of `n` and rebuilds each former child's cascade, reporting changes |
| Generator.TextureGenerator.UpdateRoots | src/lib.rs:69-71 | rebuilds the cascades of the roots in turn, with their events |
| Generator.TextureGenerator.Remove | src/lib.rs:66-82 | an absent node changes nothing; a present one is detached and removed, its process returned, programs stay current, and the listeners hear the cascade's changes then one `Removed` |

## Left out

- Float formatting and parsing: Rust's `{}` of `f32`/`f64`, texturegen's `col` and `str::parse` are not modelled. They are parameters (`Floats.FloatText`, the `parse` functions of `Colors.DecodeColor` and `Processes.Modify`). An `f32` is kept as its bit pattern and never computed with.
- The listeners are closures called with the generator; the model records what each is told as a ghost log of `(node, event)` pairs. The shader text passed with each event is the node's new cached program, stated through `Generator.Rebuilt`.
- `Rc<RefCell<…>>` sharing of processes and cached programs, and `clone_box`, are not modelled. A node holds its process and program by value, so a caller cannot change a process behind the generator's back.
- petgraph removes nodes and edges by swapping the last one into the freed slot. The model keeps the surviving edges in their order and never reuses a node handle, so a handle held across a removal is not invalidated as it can be in the source. The consequences for behaviour follow.
- Gather.Program, Dag.PortNumbered.Parents, Dag.PortNumbered.Children, Dag.ParentsOf and Dag.ChildrenOf: parents and children come in edge storage order. daggy's walkers follow petgraph's per-node edge lists, newest edge first. So for a node with two or more parents, the order of the parent blocks in the fragment text (src/lib.rs:154-158) can differ from the model's. For a node with two or more children, the order of the cascade's rebuilds and events (`Cascade.UpdateOrder`) can differ as well. The set of nodes rebuilt, and each node's text up to that order, are as in the source.
- Dag.PortNumbered.RemoveOutgoingEdges: removes every outgoing edge. The source's walker (src/dag.rs:64-69) keeps the index of the next edge, and petgraph's `remove_edge` can swap another edge into that slot. When earlier removals have permuted the edge storage, the walk can stop early and leave an outgoing edge in place. For example: edges 9->8, 0->1, 0->2; remove 9->8; then `remove_outgoing_edges(0)` leaves 0->1.
- Generator.TextureGenerator.Remove: follows the model's `RemoveOutgoingEdges`. In the source, a child whose edge survived the walk is rebuilt while still connected, and its program is not rebuilt once `remove_node` drops the edge. That program is then stale. The model proves every program current after `remove`; the source does not keep that promise in this case.
- Dag.PortNumbered.UpdateEdge: returns the position of the new edge. In the source, when daggy appends the new edge and the `replaced` edge is then removed, petgraph moves the new edge into the freed slot. The returned `EdgeIndex` (src/dag.rs:44-50) then names no edge. `connect` ignores it (src/lib.rs:85).
- Rust's `HashMap`/`HashSet` iteration order is unspecified. The connected inputs of a `Context` are kept in order of first appearance; `first_input` returns the first of them.
- Panics become preconditions: `Generator.TextureGenerator.Connect`, `Disconnect` and `Remove` require that no process panics on the contexts of the resulting graph (`Gather.Panicless`). The only panic in a `shader` is the `unwrap` in `Type::blend` (src/process/combiners.rs:75-76): a blend with two or more connected ports, of which port 0 or port 1 is not one. A connection to a port at or above `max_in` does not panic: no process compares ports with `max_in`, and each reads its inputs through `input(i)` as an option. `Generator.TextureGenerator.Connect` and `Dag.PortNumbered.UpdateEdge` also require both nodes to be present, where daggy and petgraph panic in `add_edge` on a missing node.
- The source calls `update_edge` and `remove_edge_to_port` with a node and a port as separate arguments where src/dag.rs takes `Port` values; the model passes `Port` values.
- Process `modify(key, value)` is not part of the files modelled. `Processes.Modify` reads `key` as an index into `settings()` and parses `value` as that setting's kind.
- `get`, `get_mut`, `iter`, `iter_connections`, `connections`, `register_shader_listener`, `raw_nodes` and `graph` only delegate to daggy or the node map; they are not modelled separately.
- The noise library text of texturegen/src/shader/mod.rs is a parameter (`Assembler.Shader.WithLibrary`), not its GLSL.
- texturegen-gui (main.rs, math.rs) is not part of this model, and neither is texturegen/src/lib.rs, which is not among the files modelled.
- Integer widths: `u32` ports, seeds and indices and `usize` counts are unbounded naturals; wrap-around at their limits is not modelled.
- The `EdgeDetect` detection type is stored but not exposed as a setting, as in the source.
- Inputs.Constant.Shader: states only that output 0 is declared first. The declared value is the float printer's text of the colour.
- Inputs.Stripes.Shader: states only that output 0 is declared first. `Inputs.Stripes.Emit` states the whole text for any colour printer.
- Modifiers.EdgeDetect.Shader: states only that output 0 is declared first. `Modifiers.EdgeDetectIgnoresInputs` states that no input is read.
- Processes.Process.Shader: states only what every process shares, that output 0 is declared first. The per-process members state more.

## Findings

| source | as written | input that shows it | evidently intended | confidence | as-written member | corrected member |
|---|---|---|---|---|---|---|
| src/dag.rs:43-51 | `update_edge` removes the edge found on the target port after daggy's `update_edge` succeeded, even when that edge is the one daggy just overwrote | edge node 0 port 0 -> node 1 port 0, then `update_edge(port(0, 1), port(1, 0))`: daggy overwrites edge 0, which is also the edge found on port 1:0, so it is removed; `Ok` is returned and no edge remains | keep the overwritten edge; remove the one on the target port only when it is a different edge | not executed | Dag.UpdateEdgeAsWrittenDeletesReconnection | Dag.UpdatedFeedsTarget |
