/** The `Blend` process of src/process/combiners.rs: it mixes input 0 and input 1. */
module Combiners {
  import opened Naming
  import opened Assembler
  import opened Settings
  import BM = BlendModes

  /** The channels of the colour formula and of the alpha formula. */
  const ColorChannels: string := "rgb"
  const AlphaChannel: string := "a"

  /** A blend: one formula for the colour channels, one for alpha. */
  datatype Blend = Blend(color: BM.BlendType, alpha: BM.BlendType) {

    function Settings(): seq<string> {
      ["blend", "alpha"]
    }

    /** `setting`: both keys hold a blend type; other keys panic in the source. */
    function SettingOf(key: string): (s: Setting)
      requires key in Settings()
      ensures s.Blend?
    {
      if key == "blend" then Setting.Blend(color) else Setting.Blend(alpha)
    }

    /** `setting_mut` followed by an assignment through the returned reference. */
    function WithSetting(key: string, v: Setting): (p: Blend)
      requires key in Settings() && KindOf(v) == KindOf(SettingOf(key))
      ensures p.SettingOf(key) == v
      ensures forall k | k in Settings() && k != key :: p.SettingOf(k) == SettingOf(k)
      ensures key == "blend" ==> p.color == v.blend && p.alpha == alpha
      ensures key == "alpha" ==> p.alpha == v.blend && p.color == color
    {
      if key == "blend" then this.(color := v.blend) else this.(alpha := v.blend)
    }

    /** Writing back the value `setting` reads leaves the process as it was. */
    lemma WriteBack(key: string)
      requires key in Settings()
      ensures WithSetting(key, SettingOf(key)) == this
    {
    }

    function MaxIn(): nat { 2 }

    function MaxOut(): nat { 1 }

    /**
     * `shader`: with no input the output is zero, with one input a copy of
     * it, otherwise the colour formula over `rgb` and the alpha formula
     * over `a` combined into one vector. The formulas need inputs 0 and 1.
     */
    function Shader(ctx: Context): (r: string)
      requires ctx.Distinct() && 1 <= ctx.outputs
      requires ctx.InputLen() >= 2 ==> ctx.Input(0).Some? && ctx.Input(1).Some?
      ensures DeclaresFirst(r, ctx.Output(0))
      ensures r == Declare(ctx.Output(0), "vec4(0)") <==> ctx.InputLen() == 0
      ensures ctx.InputLen() == 1 ==> r == Declare(ctx.Output(0), Render(ctx.FirstInput()))
      ensures ctx.InputLen() >= 2 ==>
                r == Declare(ctx.Output(0), "vec4(" + BM.Blend(color, ctx, "rgb") + ",\n" + BM.Blend(alpha, ctx, "a") + ")")
    {
      var out := ctx.Output(0);
      var v := if ctx.InputLen() == 0 then "vec4(0)"
        else if ctx.InputLen() == 1 then Render(ctx.FirstInput())
        else "vec4(" + BM.Blend(color, ctx, ColorChannels) + ",\n" + BM.Blend(alpha, ctx, AlphaChannel) + ")";
      DeclareDeclaresFirst(out, v);
      DeclareCancel(out, v, "vec4(0)");
      assert ctx.InputLen() == 1 ==> v[0] == 'i';
      Declare(out, v)
    }
  }
}
