/**
 * The shader assembler of src/shader/mod.rs: snippets are collected in
 * order and rendered inside fixed GLSL boilerplate, and a `Context` names
 * the input and output variables of one node.
 */
module Assembler {
  import opened Strings
  import opened Naming
  import opened Wrappers

  /** A finished program: vertex and fragment shader text. */
  datatype Source = Source(vertex: string, fragment: string)

  const VertexHeader: string :=
    "#version 140\n" + "in vec2 position;\n" + "in vec2 tex_coords;\n" + "uniform mat4 matrix;\n"
    + "out vec2 v_tex_coords;\n" + "void main() {\n" + "v_tex_coords = tex_coords;\n"

  const FragmentHeader: string := "#version 140\n" + "in vec2 v_tex_coords;\n" + "out vec4 color;\n"

  const MainOpen: string := "void main() {\n"

  /** The vertex shader built from `snippets`. */
  function VertexText(snippets: seq<string>): string {
    VertexHeader + Concat(snippets) + "}"
  }

  /** The fragment shader built from `snippets`, with `library` placed before `main`. */
  function FragmentText(library: string, snippets: seq<string>): string {
    FragmentHeader + library + MainOpen + Concat(snippets) + "}"
  }

  /** `Shader`: the two snippet lists of a program under construction. */
  class Shader {
    var vertexSnippets: seq<string>
    var fragmentSnippets: seq<string>
    /** Text between the fragment header and `main`: empty here, the noise library in the newer assembler. */
    const library: string

    /** `Shader::new` of src/shader/mod.rs. */
    constructor ()
      ensures vertexSnippets == [] && fragmentSnippets == [] && library == ""
    {
      vertexSnippets, fragmentSnippets, library := [], [], "";
    }

    /** `Shader::new` of texturegen/src/shader/mod.rs, whose build adds the noise library. */
    constructor WithLibrary(library: string)
      ensures vertexSnippets == [] && fragmentSnippets == [] && this.library == library
    {
      vertexSnippets, fragmentSnippets, this.library := [], [], library;
    }

    method AddVertex(snippet: string)
      modifies this
      ensures vertexSnippets == old(vertexSnippets) + [snippet]
      ensures fragmentSnippets == old(fragmentSnippets)
    {
      vertexSnippets := vertexSnippets + [snippet];
    }

    method AddFragment(snippet: string)
      modifies this
      ensures fragmentSnippets == old(fragmentSnippets) + [snippet]
      ensures vertexSnippets == old(vertexSnippets)
    {
      fragmentSnippets := fragmentSnippets + [snippet];
    }

    /** `build`: append header, every snippet in order, then the closing brace. */
    method Build() returns (s: Source)
      ensures s == Source(VertexText(vertexSnippets), FragmentText(library, fragmentSnippets))
    {
      var vertex := VertexHeader;
      var i := 0;
      while i < |vertexSnippets|
        invariant 0 <= i <= |vertexSnippets|
        invariant vertex == VertexHeader + Concat(vertexSnippets[..i])
      {
        assert vertexSnippets[..i + 1][..i] == vertexSnippets[..i];
        vertex := vertex + vertexSnippets[i];
        i := i + 1;
      }
      assert vertexSnippets[..i] == vertexSnippets;
      vertex := vertex + "}";

      var fragment := FragmentHeader + library + MainOpen;
      i := 0;
      while i < |fragmentSnippets|
        invariant 0 <= i <= |fragmentSnippets|
        invariant fragment == FragmentHeader + library + MainOpen + Concat(fragmentSnippets[..i])
      {
        assert fragmentSnippets[..i + 1][..i] == fragmentSnippets[..i];
        fragment := fragment + fragmentSnippets[i];
        i := i + 1;
      }
      assert fragmentSnippets[..i] == fragmentSnippets;
      fragment := fragment + "}";
      s := Source(vertex, fragment);
    }
  }

  /** An added snippet lands just before the closing brace, after all earlier ones. */
  lemma FragmentAppend(library: string, snippets: seq<string>, x: string)
    ensures var before := FragmentText(library, snippets);
            FragmentText(library, snippets + [x]) == before[..|before| - 1] + x + "}"
  {
    ConcatAppend(snippets, [x]);
    var before := FragmentText(library, snippets);
    assert before[..|before| - 1] == FragmentHeader + library + MainOpen + Concat(snippets);
  }

  /** The same for the vertex shader. */
  lemma VertexAppend(snippets: seq<string>, x: string)
    ensures var before := VertexText(snippets);
            VertexText(snippets + [x]) == before[..|before| - 1] + x + "}"
  {
    ConcatAppend(snippets, [x]);
    var before := VertexText(snippets);
    assert before[..|before| - 1] == VertexHeader + Concat(snippets);
  }

  /** The built fragment determines the library and snippet text it was built from. */
  lemma FragmentDetermines(l1: string, s1: seq<string>, l2: string, s2: seq<string>)
    requires |l1| == |l2|
    requires FragmentText(l1, s1) == FragmentText(l2, s2)
    ensures l1 == l2 && Concat(s1) == Concat(s2)
  {
    var f := FragmentText(l1, s1);
    var h := |FragmentHeader|;
    assert l1 == f[h..h + |l1|];
    assert l2 == f[h..h + |l2|];
    var m := h + |l1| + |MainOpen|;
    assert Concat(s1) == f[m..|f| - 1];
    assert Concat(s2) == f[m..|f| - 1];
  }

  // ---------------------------------------------------------------------
  // Context
  // ---------------------------------------------------------------------

  /** The indices of `s` with later repetitions dropped. */
  function Dedup(s: seq<nat>): (r: seq<nat>)
    ensures forall x :: x in r <==> x in s
    ensures forall i, j :: 0 <= i < j < |r| ==> r[i] != r[j]
  {
    if s == [] then []
    else
      var init := Dedup(s[..|s| - 1]);
      assert forall x :: x in s <==> x in s[..|s| - 1] || x == s[|s| - 1];
      if s[|s| - 1] in init then init else init + [s[|s| - 1]]
  }

  /** A sequence without repetitions has as many elements as its set. */
  lemma {:induction false} DistinctCard(s: seq<nat>)
    requires forall i, j :: 0 <= i < j < |s| ==> s[i] != s[j]
    ensures |set x: nat | x in s| == |s|
  {
    if s != [] {
      var init, last := s[..|s| - 1], s[|s| - 1];
      DistinctCard(init);
      assert s == init + [last];
      var a, b := set x: nat | x in init, set x: nat | x in s;
      assert last !in a;
      assert b == a + {last};
      assert |b| == |a| + 1;
    }
  }

  /**
   * `Context`: the variables of node `id`. `inputs` holds the connected input
   * ports in the order the map yields them (a Rust `HashMap`, whose order is
   * unspecified; here, order of first appearance), `outputs` the number of
   * output ports.
   */
  datatype Context = Context(id: nat, inputs: seq<nat>, outputs: nat) {

    /** `Context::new`: duplicate input indices collapse, as keys of a map do. */
    static function New(id: nat, inputs: seq<nat>, outputs: nat): (c: Context)
      ensures c.id == id && c.outputs == outputs
      ensures forall i :: i in c.inputs <==> i in inputs
      ensures c.Distinct()
    {
      Context(id, Dedup(inputs), outputs)
    }

    predicate Distinct() {
      forall i, j :: 0 <= i < j < |inputs| ==> inputs[i] != inputs[j]
    }

    /** `input(i)`: the variable of input port `i`, if that port is connected. */
    function Input(i: nat): (r: Option<Identifier>)
      ensures r.Some? <==> i in inputs
      ensures r.Some? ==> r.value.itype == Naming.Input && r.value.id == id && r.value.index == i
    {
      if i in inputs then Some(Identifier(id, Naming.Input, i)) else None
    }

    /** `first_input`: the first connected input; with none, the source panics. */
    function FirstInput(): (r: Identifier)
      requires inputs != []
      ensures Input(r.index) == Some(r)
    {
      Identifier(id, Naming.Input, inputs[0])
    }

    /** `input_len`: the number of connected input ports. */
    function InputLen(): (n: nat)
      requires Distinct()
      ensures n == |set i: nat | i in inputs|
      ensures n == 0 <==> inputs == []
    {
      DistinctCard(inputs);
      |inputs|
    }

    /** `output(i)`: the variable of output port `i`; other indices panic in the source. */
    function Output(i: nat): (r: Identifier)
      requires i < outputs
      ensures r.itype == Naming.Output && r.id == id && r.index == i
    {
      Identifier(id, Naming.Output, i)
    }
  }

  /** `vec4 <x> = <value>;\n`: the declaration every process emits for its output. */
  function Declare(x: Identifier, value: string): string {
    "vec4 " + Render(x) + " = " + value + ";\n"
  }

  /** `s` begins by declaring the variable `x`. */
  predicate DeclaresFirst(s: string, x: Identifier) {
    var d := "vec4 " + Render(x);
    |d| <= |s| && s[..|d|] == d
  }

  /** The declared value can be read back from a declaration. */
  lemma DeclareCancel(x: Identifier, v1: string, v2: string)
    ensures Declare(x, v1) == Declare(x, v2) <==> v1 == v2
  {
    var p := "vec4 " + Render(x) + " = ";
    assert Declare(x, v1) == p + v1 + ";\n";
    assert Declare(x, v2) == p + v2 + ";\n";
    assert v1 == Declare(x, v1)[|p|..|Declare(x, v1)| - 2];
    assert v2 == Declare(x, v2)[|p|..|Declare(x, v2)| - 2];
  }

  /** Every declaration declares its variable first. */
  lemma DeclareDeclaresFirst(x: Identifier, v: string)
    ensures DeclaresFirst(Declare(x, v), x)
  {
    var d := "vec4 " + Render(x);
    assert Declare(x, v) == d + (" = " + v + ";\n");
  }
}
