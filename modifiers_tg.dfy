/**
 * The modifiers of texturegen/src/process/modifiers.rs added to the
 * catalog: `Select` and `Invert`. Their text branches on which inputs are
 * connected. (`EdgeDetect` prints the same text as in the older catalog and
 * is `Modifiers.EdgeDetect`.)
 */
module ModifiersTg {
  import opened Naming
  import opened Assembler
  import opened Floats
  import opened Settings

  /** `Select`: input 0 where input 1 is dark, input 2 where its luminance exceeds the threshold. */
  datatype Select = Select(threshold: F32) {

    function Settings(): seq<string> {
      ["threshold"]
    }

    /** `setting`: the threshold is a float. */
    function SettingOf(key: string): (s: Setting)
      requires key in Settings()
      ensures s.Float?
    {
      Float(threshold)
    }

    function WithSetting(key: string, v: Setting): (p: Select)
      requires key in Settings() && KindOf(v) == KindOf(SettingOf(key))
      ensures p.SettingOf(key) == v
    {
      Select(v.float)
    }

    /** Writing back the value `setting` reads leaves the process as it was. */
    lemma WriteBack(key: string)
      requires key in Settings()
      ensures WithSetting(key, SettingOf(key)) == this
    {
    }

    function MaxIn(): nat { 3 }

    function MaxOut(): nat { 1 }

    /**
     * `shader`: with inputs 0, 1 and 2 all connected, output 0 starts as
     * input 0 and is reassigned input 2 inside an `if` on input 1's
     * luminance; with any of them missing it is zero.
     */
    function Shader(ctx: Context, ft: FloatText): (r: string)
      requires 1 <= ctx.outputs
      ensures DeclaresFirst(r, ctx.Output(0))
      ensures r == Declare(ctx.Output(0), "vec4(0)") <==> !(0 in ctx.inputs && 1 in ctx.inputs && 2 in ctx.inputs)
      ensures 0 in ctx.inputs && 1 in ctx.inputs && 2 in ctx.inputs ==>
        var first := Declare(ctx.Output(0), Render(ctx.Input(0).value));
        var last := "  " + Render(ctx.Output(0)) + " = " + Render(ctx.Input(2).value) + ";\n" + "}\n";
        && |first| + |last| <= |r| && r[..|first|] == first && r[|r| - |last|..] == last
      ensures 0 in ctx.inputs && 1 in ctx.inputs && 2 in ctx.inputs ==>
        var t := Render(ctx.Input(1).value);
        r == Declare(ctx.Output(0), Render(ctx.Input(0).value))
             + ("if((" + t + ".r * 0.33 + " + t + ".g * 0.33 + " + t + ".b * 0.33) > " + ft.show(threshold) + ") {\n")
             + ("  " + Render(ctx.Output(0)) + " = " + Render(ctx.Input(2).value) + ";\n" + "}\n")
    {
      var out := ctx.Output(0);
      match (ctx.Input(0), ctx.Input(1), ctx.Input(2))
      case (Some(a), Some(t), Some(b)) =>
        var first := Declare(out, Render(a));
        var test := "if((" + Render(t) + ".r * 0.33 + " + Render(t) + ".g * 0.33 + " + Render(t) + ".b * 0.33) > "
          + ft.show(threshold) + ") {\n";
        var last := "  " + Render(out) + " = " + Render(b) + ";\n" + "}\n";
        DeclareDeclaresFirst(out, Render(a));
        DeclareLength(out, "vec4(0)", first + test + last);
        first + test + last
      case _ =>
        DeclareDeclaresFirst(out, "vec4(0)");
        Declare(out, "vec4(0)")
    }
  }

  /** A declaration ends in `;` and a newline, which no text of the connected branch does. */
  lemma DeclareLength(x: Identifier, v: string, s: string)
    requires |s| >= 2 && s[|s| - 2..] == "}\n"
    ensures s != Declare(x, v)
  {
    var d := Declare(x, v);
    assert d[|d| - 2..] == ";\n";
  }

  /** `Invert`: one minus the colour channels, or one minus alpha alone. */
  datatype Invert = Invert(alpha: bool) {

    /** `Invert::new`: colour channels are inverted by default. */
    static function New(): (p: Invert)
      ensures !p.alpha
      ensures forall ctx: Context | 1 <= ctx.outputs && 0 in ctx.inputs ::
                var i := Render(ctx.Input(0).value);
                p.Shader(ctx) == Declare(ctx.Output(0), "vec4(1 - " + i + ".r, 1 - " + i + ".g, 1 - " + i + ".b, " + i + ".a)")
    {
      Invert(false)
    }

    function Settings(): seq<string> {
      ["alpha"]
    }

    /** `setting`: the alpha flag is a boolean. */
    function SettingOf(key: string): (s: Setting)
      requires key in Settings()
      ensures s.Boolean?
    {
      Boolean(alpha)
    }

    function WithSetting(key: string, v: Setting): (p: Invert)
      requires key in Settings() && KindOf(v) == KindOf(SettingOf(key))
      ensures p.SettingOf(key) == v
    {
      Invert(v.flag)
    }

    /** Writing back the value `setting` reads leaves the process as it was. */
    lemma WriteBack(key: string)
      requires key in Settings()
      ensures WithSetting(key, SettingOf(key)) == this
    {
    }

    function MaxIn(): nat { 1 }

    function MaxOut(): nat { 1 }

    /**
     * `shader`: with input 0 connected, `alpha` keeps rgb and inverts a,
     * otherwise r, g and b are inverted and a kept; with no input, zero.
     */
    function Shader(ctx: Context): (r: string)
      requires 1 <= ctx.outputs
      ensures DeclaresFirst(r, ctx.Output(0))
      ensures r == Declare(ctx.Output(0), "vec4(0)") <==> 0 !in ctx.inputs
      ensures 0 in ctx.inputs && alpha ==>
        var i := Render(ctx.Input(0).value);
        r == Declare(ctx.Output(0), "vec4(" + i + ".rgb, 1 - " + i + ".a)")
      ensures 0 in ctx.inputs && !alpha ==>
        var i := Render(ctx.Input(0).value);
        r == Declare(ctx.Output(0), "vec4(1 - " + i + ".r, 1 - " + i + ".g, 1 - " + i + ".b, " + i + ".a)")
    {
      var out := ctx.Output(0);
      var v := match ctx.Input(0)
        case Some(x) =>
          var i := Render(x);
          if alpha then "vec4(" + i + ".rgb, 1 - " + i + ".a)"
          else "vec4(1 - " + i + ".r, 1 - " + i + ".g, 1 - " + i + ".b, " + i + ".a)"
        case None => "vec4(0)";
      DeclareDeclaresFirst(out, v);
      DeclareCancel(out, v, "vec4(0)");
      assert 0 in ctx.inputs ==> v[5] != '0';
      Declare(out, v)
    }
  }
}
