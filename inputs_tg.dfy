/**
 * The source processes of texturegen/src/process/inputs.rs. `Constant` and
 * `Stripes` keep the settings tables and arities of the older catalog and
 * print colours with `col`; the two noise sources each take one temporary
 * from the context and spread it over the colour channels.
 */
module InputsTg {
  import opened Strings
  import opened Naming
  import opened Assembler
  import opened AssemblerTg
  import opened Floats
  import opened Settings
  import Inputs

  /** `Constant::shader` of the newer catalog: the colour printed by `col`. */
  function ConstantShader(p: Inputs.Constant, ctx: Context, ft: FloatText): (r: string)
    requires 1 <= ctx.outputs
    ensures DeclaresFirst(r, ctx.Output(0))
    ensures r == Declare(ctx.Output(0), ft.col(p.color))
  {
    p.Emit(ctx, ft.col)
  }

  /** `Stripes::shader` of the newer catalog: the same `if`, colours printed by `col`. */
  function StripesShader(p: Inputs.Stripes, ctx: Context, ft: FloatText): (r: string)
    requires 1 <= ctx.outputs
    ensures DeclaresFirst(r, ctx.Output(0))
    ensures var b := p.Branches(Render(ctx.Output(0)), ft.col);
            |b| <= |r| && r[|r| - |b|..] == b
  {
    p.Emit(ctx, ft, ft.col)
  }

  /** The two catalogs print the same text when `col` prints a colour as the older literal does. */
  lemma CatalogsAgree(c: Inputs.Constant, s: Inputs.Stripes, ctx: Context, ft: FloatText)
    requires 1 <= ctx.outputs
    requires forall x :: ft.col(x) == Inputs.VecLiteral(x, ft)
    ensures ConstantShader(c, ctx, ft) == c.Shader(ctx, ft)
    ensures StripesShader(s, ctx, ft) == s.Shader(ctx, ft)
  {
    var lit := (x => Inputs.VecLiteral(x, ft));
    assert ft.col(c.color) == lit(c.color);
    assert ft.col(s.oddCol) == lit(s.oddCol) && ft.col(s.evenCol) == lit(s.evenCol);
  }

  /** The output line of both noise sources: the temporary in the colour channels, alpha 1. */
  function Gray(out: Identifier, t: Identifier): (r: string)
    ensures DeclaresFirst(r, out)
  {
    var v := "vec4(" + Render(t) + ", " + Render(t) + ", " + Render(t) + ", 1.)";
    DeclareDeclaresFirst(out, v);
    Declare(out, v)
  }

  /** `VoronoiNoise`: cellular noise over a `hor` by `ver` grid. */
  datatype VoronoiNoise = VoronoiNoise(seed: nat, ver: nat, hor: nat, grid: F32, control: F32) {

    function Settings(): seq<string> {
      ["seed", "horizontal", "vertical", "grid", "control"]
    }

    /** `setting`: three integers, then two floats. */
    function SettingOf(key: string): (s: Setting)
      requires key in Settings()
      ensures s.Integer? <==> key in ["seed", "horizontal", "vertical"]
      ensures s.Float? <==> key in ["grid", "control"]
    {
      if key == "horizontal" then Integer(hor)
      else if key == "vertical" then Integer(ver)
      else if key == "seed" then Integer(seed)
      else if key == "grid" then Float(grid)
      else Float(control)
    }

    function WithSetting(key: string, v: Setting): (p: VoronoiNoise)
      requires key in Settings() && KindOf(v) == KindOf(SettingOf(key))
      ensures p.SettingOf(key) == v
      ensures forall k | k in Settings() && k != key :: p.SettingOf(k) == SettingOf(k)
      ensures key == "seed" ==> p == VoronoiNoise(v.number, ver, hor, grid, control)
      ensures key == "horizontal" ==> p == VoronoiNoise(seed, ver, v.number, grid, control)
      ensures key == "vertical" ==> p == VoronoiNoise(seed, v.number, hor, grid, control)
      ensures key == "grid" ==> p == VoronoiNoise(seed, ver, hor, v.float, control)
      ensures key == "control" ==> p == VoronoiNoise(seed, ver, hor, grid, v.float)
    {
      if key == "horizontal" then this.(hor := v.number)
      else if key == "vertical" then this.(ver := v.number)
      else if key == "seed" then this.(seed := v.number)
      else if key == "grid" then this.(grid := v.float)
      else this.(control := v.float)
    }

    /** Writing back the value `setting` reads leaves the process as it was. */
    lemma WriteBack(key: string)
      requires key in Settings()
      ensures WithSetting(key, SettingOf(key)) == this
    {
    }

    function MaxIn(): nat { 0 }

    function MaxOut(): nat { 1 }

    /** The text for output `out` and temporary `t`. */
    function Text(out: Identifier, t: Identifier, ft: FloatText): (r: string)
      ensures var g := Gray(out, t); |g| <= |r| && r[|r| - |g|..] == g
    {
      "float " + Render(t) + " = iqnoise(v_tex_coords / vec2(" + ft.recip32(hor) + ", " + ft.recip32(ver) + "), "
      + ft.show(grid) + ", " + ft.show(control) + ");\n"
      + Gray(out, t)
    }

    /** `shader`: takes exactly one temporary and writes it, grey and opaque, to output 0. */
    method Shader(ctx: TgContext, ft: FloatText) returns (r: string)
      requires 1 <= ctx.base.outputs
      modifies ctx
      ensures ctx.temps == old(ctx.temps) + 1
      ensures r == Text(ctx.base.Output(0), TemporaryOf(ctx.base, old(ctx.temps)), ft)
    {
      var t := ctx.Temporary();
      r := Text(ctx.base.Output(0), t, ft);
    }
  }

  /** `Noise`: simplex noise seeded by `seed`. */
  datatype Noise = Noise(seed: nat, ver: nat, hor: nat) {

    function Settings(): seq<string> {
      ["seed", "horizontal", "vertical"]
    }

    /** `setting`: all three are integers. */
    function SettingOf(key: string): (s: Setting)
      requires key in Settings()
      ensures s.Integer?
    {
      if key == "horizontal" then Integer(hor)
      else if key == "vertical" then Integer(ver)
      else Integer(seed)
    }

    function WithSetting(key: string, v: Setting): (p: Noise)
      requires key in Settings() && KindOf(v) == KindOf(SettingOf(key))
      ensures p.SettingOf(key) == v
      ensures forall k | k in Settings() && k != key :: p.SettingOf(k) == SettingOf(k)
      ensures key == "seed" ==> p == Noise(v.number, ver, hor)
      ensures key == "horizontal" ==> p == Noise(seed, ver, v.number)
      ensures key == "vertical" ==> p == Noise(seed, v.number, hor)
    {
      if key == "horizontal" then this.(hor := v.number)
      else if key == "vertical" then this.(ver := v.number)
      else this.(seed := v.number)
    }

    /** Writing back the value `setting` reads leaves the process as it was. */
    lemma WriteBack(key: string)
      requires key in Settings()
      ensures WithSetting(key, SettingOf(key)) == this
    {
    }

    function MaxIn(): nat { 0 }

    function MaxOut(): nat { 1 }

    /** The text for output `out` and temporary `t`; the seed is printed in decimal. */
    function Text(out: Identifier, t: Identifier, ft: FloatText): (r: string)
      ensures var g := Gray(out, t); |g| <= |r| && r[|r| - |g|..] == g
    {
      "float " + Render(t) + " = snoise(" + NatToString(seed) + ", v_tex_coords / vec2("
      + ft.recip32(hor) + ", " + ft.recip32(ver) + "));\n"
      + Gray(out, t)
    }

    /** `shader`: takes exactly one temporary and writes it, grey and opaque, to output 0. */
    method Shader(ctx: TgContext, ft: FloatText) returns (r: string)
      requires 1 <= ctx.base.outputs
      modifies ctx
      ensures ctx.temps == old(ctx.temps) + 1
      ensures r == Text(ctx.base.Output(0), TemporaryOf(ctx.base, old(ctx.temps)), ft)
    {
      var t := ctx.Temporary();
      r := Text(ctx.base.Output(0), t, ft);
    }
  }
}
