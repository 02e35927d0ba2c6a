/**
 * The newer assembler of texturegen/src/shader/mod.rs. Its `Shader` is the
 * older one built with the noise library between the fragment header and
 * `main` (`Assembler.Shader.WithLibrary`); its `Context` adds a counter of
 * temporaries, so a process can ask for fresh scratch variables.
 */
module AssemblerTg {
  import opened Naming
  import opened Assembler

  /** A `Context` of the newer assembler: the older lookups plus the `temps` counter. */
  class TgContext {
    const base: Context
    var temps: nat

    /** `Context::new`: inputs collapse as before; no temporaries yet. */
    constructor (id: nat, inputs: seq<nat>, outputs: nat)
      ensures base == Context.New(id, inputs, outputs) && temps == 0
    {
      base := Context.New(id, inputs, outputs);
      temps := 0;
    }

    /** `temporary`: `tmp_<id>_<k>` for the k-th call, then count it. */
    method Temporary() returns (x: Identifier)
      modifies this
      ensures x == TemporaryOf(base, old(temps))
      ensures temps == old(temps) + 1
    {
      x := TemporaryOf(base, temps);
      temps := temps + 1;
    }
  }

  /** The identifier the `k`-th `temporary` call of a context returns. */
  function TemporaryOf(ctx: Context, k: nat): (x: Identifier)
    ensures x.itype == Naming.Temporary && x.id == ctx.id && x.index == k
  {
    Identifier(ctx.id, Naming.Temporary, k)
  }

  /**
   * Temporaries of one context never clash: two different calls give
   * different names, and no temporary prints like an input or an output
   * of the same context.
   */
  lemma TemporariesFresh(ctx: Context, k: nat, k': nat)
    ensures Render(TemporaryOf(ctx, k)) == Render(TemporaryOf(ctx, k')) <==> k == k'
    ensures forall i: nat :: ctx.Input(i).Some? ==> Render(TemporaryOf(ctx, k)) != Render(ctx.Input(i).value)
    ensures forall i: nat | i < ctx.outputs :: Render(TemporaryOf(ctx, k)) != Render(ctx.Output(i))
  {
    RenderInjective(TemporaryOf(ctx, k), TemporaryOf(ctx, k'));
    forall i: nat | ctx.Input(i).Some?
      ensures Render(TemporaryOf(ctx, k)) != Render(ctx.Input(i).value)
    {
      RenderInjective(TemporaryOf(ctx, k), ctx.Input(i).value);
    }
    forall i: nat | i < ctx.outputs
      ensures Render(TemporaryOf(ctx, k)) != Render(ctx.Output(i))
    {
      RenderInjective(TemporaryOf(ctx, k), ctx.Output(i));
    }
  }

  /**
   * Whatever the snippets, the library text sits between the fragment
   * header (ending in `out vec4 color;`) and `void main() {`.
   */
  lemma LibraryInPlace(library: string, snippets: seq<string>)
    ensures var f := FragmentText(library, snippets);
            var h := |FragmentHeader|;
            && f[..h] == FragmentHeader
            && f[h..h + |library|] == library
            && f[h + |library|..h + |library| + |MainOpen|] == MainOpen
  {
    var f := FragmentText(library, snippets);
    assert f == FragmentHeader + library + MainOpen + (Strings.Concat(snippets) + "}");
  }
}
