/**
 * The `Process` capability of src/process/mod.rs over the src catalog:
 * a settings table, an arity, and the text a node emits into the shader.
 * Each trait object becomes one variant of `Process`.
 */
module Processes {
  import opened Wrappers
  import opened Assembler
  import opened Floats
  import opened Settings
  import Inputs
  import Combiners
  import Modifiers

  datatype Process =
    | ConstantProcess(constant: Inputs.Constant)
    | StripesProcess(stripes: Inputs.Stripes)
    | BlendProcess(blend: Combiners.Blend)
    | EdgeDetectProcess(edgeDetect: Modifiers.EdgeDetect)
  {
    /** `settings`: the keys `setting` and `setting_mut` accept. */
    function Settings(): seq<string> {
      match this
      case ConstantProcess(p) => p.Settings()
      case StripesProcess(p) => p.Settings()
      case BlendProcess(p) => p.Settings()
      case EdgeDetectProcess(p) => p.Settings()
    }

    /** `setting`: other keys panic in every process. */
    function SettingOf(key: string): Setting
      requires key in Settings()
    {
      match this
      case ConstantProcess(p) => p.SettingOf(key)
      case StripesProcess(p) => p.SettingOf(key)
      case BlendProcess(p) => p.SettingOf(key)
      case EdgeDetectProcess(p) => p.SettingOf(key)
    }

    /** `setting_mut` and an assignment of a value of the same kind. */
    function WithSetting(key: string, v: Setting): (r: Process)
      requires key in Settings() && KindOf(v) == KindOf(SettingOf(key))
      ensures r.Settings() == Settings() && r.MaxIn() == MaxIn() && r.MaxOut() == MaxOut()
      ensures forall ctx :: r.Fits(ctx) <==> Fits(ctx)
      ensures r.SettingOf(key) == v
    {
      match this
      case ConstantProcess(p) => ConstantProcess(p.WithSetting(key, v))
      case StripesProcess(p) => StripesProcess(p.WithSetting(key, v))
      case BlendProcess(p) => BlendProcess(p.WithSetting(key, v))
      case EdgeDetectProcess(p) => EdgeDetectProcess(p.WithSetting(key, v))
    }

    function MaxIn(): nat {
      match this
      case ConstantProcess(p) => p.MaxIn()
      case StripesProcess(p) => p.MaxIn()
      case BlendProcess(p) => p.MaxIn()
      case EdgeDetectProcess(p) => p.MaxIn()
    }

    function MaxOut(): nat {
      match this
      case ConstantProcess(p) => p.MaxOut()
      case StripesProcess(p) => p.MaxOut()
      case BlendProcess(p) => p.MaxOut()
      case EdgeDetectProcess(p) => p.MaxOut()
    }

    /**
     * The contexts `shader` accepts without panicking: the generator's
     * contexts are duplicate-free with `max_out` outputs, and a blend with
     * two or more inputs reads ports 0 and 1.
     */
    predicate Fits(ctx: Context) {
      && ctx.Distinct() && ctx.outputs == MaxOut()
      && (BlendProcess? && ctx.InputLen() >= 2 ==> ctx.Input(0).Some? && ctx.Input(1).Some?)
    }

    /** `shader`: the node's text, which starts by declaring output 0. */
    function Shader(ctx: Context, ft: FloatText): (r: string)
      requires Fits(ctx)
      ensures DeclaresFirst(r, ctx.Output(0))
    {
      match this
      case ConstantProcess(p) => p.Shader(ctx, ft)
      case StripesProcess(p) => p.Shader(ctx, ft)
      case BlendProcess(p) => p.Shader(ctx)
      case EdgeDetectProcess(p) => p.Shader(ctx, ft)
    }
  }

  /** With at most ports 0 and 1 and at least two distinct inputs, both ports are connected. */
  lemma BlendInputs(ctx: Context)
    requires ctx.Distinct() && forall i | i in ctx.inputs :: i < 2
    ensures ctx.InputLen() >= 2 ==> ctx.Input(0).Some? && ctx.Input(1).Some?
  {
    if |ctx.inputs| >= 2 {
      var a, b := ctx.inputs[0], ctx.inputs[1];
      assert a in ctx.inputs && b in ctx.inputs;
      assert a != b && a < 2 && b < 2;
      assert 0 in ctx.inputs && 1 in ctx.inputs;
    }
  }

  /** A process never panics on a context whose inputs are all below its `max_in`. */
  lemma PortsBelowMaxInFit(p: Process, ctx: Context)
    requires ctx.Distinct() && ctx.outputs == p.MaxOut()
    requires forall i | i in ctx.inputs :: i < p.MaxIn()
    ensures p.Fits(ctx)
  {
    if p.BlendProcess? {
      BlendInputs(ctx);
    }
  }

  /** Assigning a setting changes that setting and no other. */
  lemma WithSettingKeepsOthers(p: Process, key: string, v: Setting, other: string)
    requires key in p.Settings() && KindOf(v) == KindOf(p.SettingOf(key))
    requires other in p.Settings() && other != key
    ensures p.WithSetting(key, v).SettingOf(other) == p.SettingOf(other)
  {
  }

  /**
   * `modify(key, value)`: `key` indexes `settings()`, and `value` is read
   * by `parse` as a value of that setting's kind. Fails when the index is
   * out of range, the text does not parse, or it parses to another kind.
   */
  function Modify(p: Process, key: nat, value: string, parse: (Kind, string) -> Option<Setting>): (r: Option<Process>)
    ensures r.Some? <==>
      key < |p.Settings()| && parse(KindOf(p.SettingOf(p.Settings()[key])), value).Some?
      && KindOf(parse(KindOf(p.SettingOf(p.Settings()[key])), value).value) == KindOf(p.SettingOf(p.Settings()[key]))
    ensures r.Some? ==> r.value.Settings() == p.Settings() && r.value.MaxIn() == p.MaxIn() && r.value.MaxOut() == p.MaxOut()
    ensures r.Some? ==> forall ctx :: r.value.Fits(ctx) <==> p.Fits(ctx)
    ensures r.Some? ==> r.value.SettingOf(p.Settings()[key]) == parse(KindOf(p.SettingOf(p.Settings()[key])), value).value
  {
    if key >= |p.Settings()| then None
    else
      var k := p.Settings()[key];
      var kind := KindOf(p.SettingOf(k));
      match parse(kind, value)
      case None => None
      case Some(v) => if KindOf(v) != kind then None else Some(p.WithSetting(k, v))
  }
}
