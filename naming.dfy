/**
 * Shader variable names. Every value a process reads or writes in the
 * generated GLSL is an identifier `<in|tmp|out>_<node id>_<index>`; both
 * shader modules render them the same way.
 */
module Naming {
  import opened Strings

  /** The role of a variable: an input port, a temporary, or an output port. */
  datatype IdType = Input | Temporary | Output

  /** `Type` Display: the prefix of the variable name. */
  function TypeName(t: IdType): (s: string)
    ensures |s| >= 2 && '_' !in s
  {
    match t
    case Input => "in"
    case Temporary => "tmp"
    case Output => "out"
  }

  /** A variable of node `id`: its role and the port or temporary number. */
  datatype Identifier = Identifier(id: nat, itype: IdType, index: nat)

  /**
   * `Identifier` Display: the role's prefix, the node id and the index,
   * separated by `_`; splitting at `_` gives the three fields back.
   */
  function Render(x: Identifier): (r: string)
    ensures Split(r, '_') == [TypeName(x.itype), NatToString(x.id), NatToString(x.index)]
  {
    var parts := [TypeName(x.itype), NatToString(x.id), NatToString(x.index)];
    NoSeparatorInDigits(parts[1]);
    NoSeparatorInDigits(parts[2]);
    JoinCons(parts, "_");
    JoinCons(parts[1..], "_");
    SplitJoin(parts, '_');
    TypeName(x.itype) + "_" + NatToString(x.id) + "_" + NatToString(x.index)
  }

  lemma NoSeparatorInDigits(s: string)
    requires AllDigits(s)
    ensures '_' !in s
  {
  }

  /**
   * Rendering is injective: two variables print the same exactly when
   * they agree on role, node and index, so different nodes' variables
   * never clash in one fragment shader.
   */
  lemma RenderInjective(x: Identifier, y: Identifier)
    ensures Render(x) == Render(y) <==> x == y
  {
    if Render(x) == Render(y) {
      var tx, ix, nx := TypeName(x.itype), NatToString(x.id), NatToString(x.index);
      var ty, iy, ny := TypeName(y.itype), NatToString(y.id), NatToString(y.index);
      NoSeparatorInDigits(ix);
      NoSeparatorInDigits(iy);
      assert Render(x) == tx + ['_'] + (ix + ['_'] + nx);
      assert Render(y) == ty + ['_'] + (iy + ['_'] + ny);
      SplitAtFirst(tx, ix + ['_'] + nx, ty, iy + ['_'] + ny, '_');
      SplitAtFirst(ix, nx, iy, ny, '_');
      assert x.itype == y.itype by {
        match x.itype
        case Input =>
        case Temporary =>
        case Output =>
      }
      NatToStringInjective(x.id, y.id);
      NatToStringInjective(x.index, y.index);
    }
  }
}
