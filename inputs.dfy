/** The source processes of src/process/inputs.rs: they have no inputs and one output. */
module Inputs {
  import opened Strings
  import opened Naming
  import opened Assembler
  import opened Floats
  import opened Settings

  /** A colour as a GLSL `vec4(r, g, b, a)` literal. */
  function VecLiteral(c: Col, ft: FloatText): string {
    "vec4(" + ft.show(c.red) + ", " + ft.show(c.green) + ", " + ft.show(c.blue) + ", " + ft.show(c.alpha) + ")"
  }

  /** `Constant`: a single colour everywhere. */
  datatype Constant = Constant(color: Col) {

    function Settings(): seq<string> {
      ["color"]
    }

    /** `setting`: the colour is a colour. */
    function SettingOf(key: string): (s: Setting)
      requires key in Settings()
      ensures s.Color?
    {
      Color(color)
    }

    function WithSetting(key: string, v: Setting): (p: Constant)
      requires key in Settings() && KindOf(v) == KindOf(SettingOf(key))
      ensures p.SettingOf(key) == v
    {
      Constant(v.color)
    }

    /** Writing back the value `setting` reads leaves the process as it was. */
    lemma WriteBack(key: string)
      requires key in Settings()
      ensures WithSetting(key, SettingOf(key)) == this
    {
    }

    function MaxIn(): nat { 0 }

    function MaxOut(): nat { 1 }

    /** Output 0 declared as the colour, printed by `col`. */
    function Emit(ctx: Context, col: Col -> string): (r: string)
      requires 1 <= ctx.outputs
      ensures DeclaresFirst(r, ctx.Output(0))
    {
      DeclareDeclaresFirst(ctx.Output(0), col(color));
      Declare(ctx.Output(0), col(color))
    }

    /** `shader`: output 0 is the colour as a `vec4` literal of its four channels. */
    function Shader(ctx: Context, ft: FloatText): (r: string)
      requires 1 <= ctx.outputs
      ensures DeclaresFirst(r, ctx.Output(0))
    {
      Emit(ctx, c => VecLiteral(c, ft))
    }
  }

  /**
   * `Stripes`: a checkerboard of `ver` columns and `hor` rows alternating
   * between two colours.
   */
  datatype Stripes = Stripes(ver: nat, hor: nat, evenCol: Col, oddCol: Col) {

    function Settings(): seq<string> {
      ["horizontal", "vertical", "even color", "odd color"]
    }

    /** `setting`: horizontal is `hor`, vertical is `ver`; the two counts are integers, the others colours. */
    function SettingOf(key: string): (s: Setting)
      requires key in Settings()
      ensures s.Integer? <==> key in ["horizontal", "vertical"]
      ensures s.Color? <==> key in ["even color", "odd color"]
    {
      if key == "horizontal" then Integer(hor)
      else if key == "vertical" then Integer(ver)
      else if key == "even color" then Color(evenCol)
      else Color(oddCol)
    }

    function WithSetting(key: string, v: Setting): (p: Stripes)
      requires key in Settings() && KindOf(v) == KindOf(SettingOf(key))
      ensures p.SettingOf(key) == v
      ensures forall k | k in Settings() && k != key :: p.SettingOf(k) == SettingOf(k)
      ensures key == "horizontal" ==> p == Stripes(ver, v.number, evenCol, oddCol)
      ensures key == "vertical" ==> p == Stripes(v.number, hor, evenCol, oddCol)
      ensures key == "even color" ==> p == Stripes(ver, hor, v.color, oddCol)
      ensures key == "odd color" ==> p == Stripes(ver, hor, evenCol, v.color)
    {
      if key == "horizontal" then this.(hor := v.number)
      else if key == "vertical" then this.(ver := v.number)
      else if key == "even color" then this.(evenCol := v.color)
      else this.(oddCol := v.color)
    }

    /** Writing back the value `setting` reads leaves the process as it was. */
    lemma WriteBack(key: string)
      requires key in Settings()
      ensures WithSetting(key, SettingOf(key)) == this
    {
    }

    function MaxIn(): nat { 0 }

    function MaxOut(): nat { 1 }

    /**
     * The test choosing the odd colour: the cell's column parity along x,
     * with columns `1/ver` wide, differs from its row parity along y, with
     * rows `1/hor` high.
     */
    function Test(ft: FloatText): string {
      "if(mod(v_tex_coords.x, " + ft.twiceRecip64(ver) + ") < " + ft.recip64(ver)
      + " != mod(v_tex_coords.y, " + ft.twiceRecip64(hor) + ") < " + ft.recip64(hor) + ") {\n"
    }

    /** The two branches of the `if`: the odd colour when the test holds, the even one otherwise. */
    function Branches(out: string, col: Col -> string): string {
      out + " = " + col(oddCol) + ";\n" + "} else {\n" + out + " = " + col(evenCol) + ";\n" + "}\n"
    }

    /**
     * Output 0 declared without a value, then an `if` on the cell parity
     * whose then-branch assigns the odd colour and whose else-branch
     * assigns the even colour.
     */
    function Emit(ctx: Context, ft: FloatText, col: Col -> string): (r: string)
      requires 1 <= ctx.outputs
      ensures DeclaresFirst(r, ctx.Output(0))
      ensures var b := Branches(Render(ctx.Output(0)), col);
              |b| <= |r| && r[|r| - |b|..] == b
      ensures r == "vec4 " + Render(ctx.Output(0)) + ";\n" + Test(ft) + Branches(Render(ctx.Output(0)), col)
    {
      var out := Render(ctx.Output(0));
      var d := "vec4 " + out;
      var head := d + ";\n" + Test(ft);
      var b := Branches(out, col);
      assert (head + b)[..|d|] == d;
      assert (head + b)[|head|..] == b;
      head + b
    }

    /** `shader`: the colours as `vec4` literals of their four channels. */
    function Shader(ctx: Context, ft: FloatText): (r: string)
      requires 1 <= ctx.outputs
      ensures DeclaresFirst(r, ctx.Output(0))
    {
      Emit(ctx, ft, c => VecLiteral(c, ft))
    }
  }
}
