/** The `EdgeDetect` process of src/process/modifiers.rs. */
module Modifiers {
  import opened Naming
  import opened Assembler
  import opened Floats
  import opened Settings

  /** The detection method; stored but not exposed as a setting. */
  datatype EdgeDetectType = Sobel | FreiChen

  datatype EdgeDetect = EdgeDetect(threshold: F32, edtype: EdgeDetectType) {

    function Settings(): seq<string> {
      ["threshold"]
    }

    /** `setting`: the threshold is a float. */
    function SettingOf(key: string): (s: Setting)
      requires key in Settings()
      ensures s.Float?
    {
      Float(threshold)
    }

    function WithSetting(key: string, v: Setting): (p: EdgeDetect)
      requires key in Settings() && KindOf(v) == KindOf(SettingOf(key))
      ensures p.SettingOf(key) == v && p.edtype == edtype
    {
      this.(threshold := v.float)
    }

    /** Writing back the value `setting` reads leaves the process as it was. */
    lemma WriteBack(key: string)
      requires key in Settings()
      ensures WithSetting(key, SettingOf(key)) == this
    {
    }

    function MaxIn(): nat { 1 }

    function MaxOut(): nat { 1 }

    /** `shader`: output 0 is the threshold in all four channels; the input is not read. */
    function Shader(ctx: Context, ft: FloatText): (r: string)
      requires 1 <= ctx.outputs
      ensures DeclaresFirst(r, ctx.Output(0))
    {
      var t := ft.show(threshold);
      DeclareDeclaresFirst(ctx.Output(0), "vec4(" + t + ", " + t + ", " + t + ", " + t + ")");
      Declare(ctx.Output(0), "vec4(" + t + ", " + t + ", " + t + ", " + t + ")")
    }
  }

  /** The emitted text depends only on the node, not on which input is connected. */
  lemma EdgeDetectIgnoresInputs(p: EdgeDetect, c1: Context, c2: Context, ft: FloatText)
    requires 1 <= c1.outputs && 1 <= c2.outputs && c1.id == c2.id
    ensures p.Shader(c1, ft) == p.Shader(c2, ft)
  {
  }
}
