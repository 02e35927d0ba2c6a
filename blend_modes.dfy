/**
 * Blend formulas of src/process/combiners.rs: the blend `Type`, the GLSL
 * expression each type produces for a set of colour channels, and
 * `for_each_channel`, which assembles per-channel expressions.
 */
module BlendModes {
  import opened Strings
  import opened Wrappers
  import opened Naming
  import opened Assembler

  datatype BlendType =
    Normal | Multiply | Divide | Add | Substract | Difference | Darken | Lighten | Screen | Overlay | Hard | Soft

  /** The variants in declaration order, as the derived `Types` iterator yields them. */
  const AllTypes: seq<BlendType> :=
    [Normal, Multiply, Divide, Add, Substract, Difference, Darken, Lighten, Screen, Overlay, Hard, Soft]

  /** The variant's name: its `Debug` text and its entry in `TypeNames`. */
  function Name(t: BlendType): string {
    match t
    case Normal => "Normal"
    case Multiply => "Multiply"
    case Divide => "Divide"
    case Add => "Add"
    case Substract => "Substract"
    case Difference => "Difference"
    case Darken => "Darken"
    case Lighten => "Lighten"
    case Screen => "Screen"
    case Overlay => "Overlay"
    case Hard => "Hard"
    case Soft => "Soft"
  }

  /** The variant with the given name, if any. */
  function FromName(s: string): (r: Option<BlendType>)
    ensures r.Some? ==> Name(r.value) == s
  {
    if s == "Normal" then Some(Normal)
    else if s == "Multiply" then Some(Multiply)
    else if s == "Divide" then Some(Divide)
    else if s == "Add" then Some(Add)
    else if s == "Substract" then Some(Substract)
    else if s == "Difference" then Some(Difference)
    else if s == "Darken" then Some(Darken)
    else if s == "Lighten" then Some(Lighten)
    else if s == "Screen" then Some(Screen)
    else if s == "Overlay" then Some(Overlay)
    else if s == "Hard" then Some(Hard)
    else if s == "Soft" then Some(Soft)
    else None
  }

  /** Every variant is listed once, and its name reads back as that variant, so names are distinct. */
  lemma NamesRoundTrip(t: BlendType)
    ensures FromName(Name(t)) == Some(t)
    ensures t in AllTypes
  {
  }

  lemma NamesInjective(t: BlendType, u: BlendType)
    ensures Name(t) == Name(u) <==> t == u
  {
    NamesRoundTrip(t);
    NamesRoundTrip(u);
  }

  // ---------------------------------------------------------------------
  // for_each_channel
  // ---------------------------------------------------------------------

  /** The per-channel expressions, one per character of `channels`. */
  function MapChars(channels: string, fun: char -> string): (r: seq<string>)
    ensures |r| == |channels|
    ensures forall i :: 0 <= i < |r| ==> r[i] == fun(channels[i])
  {
    seq(|channels|, i requires 0 <= i < |channels| => fun(channels[i]))
  }

  /** One more channel extends the joined expressions by one, after a separator unless it is the first. */
  lemma PushChannel(open: string, channels: string, fun: char -> string, i: nat, result: string)
    requires i < |channels| && result == open + Join(MapChars(channels[..i], fun), ",\n")
    ensures (if i == 0 then result else result + ",\n") + fun(channels[i]) ==
            open + Join(MapChars(channels[..i + 1], fun), ",\n")
  {
    var parts := MapChars(channels[..i], fun);
    assert MapChars(channels[..i + 1], fun) == parts + [fun(channels[i])];
    JoinSnoc(parts, fun(channels[i]), ",\n");
  }

  /** What `for_each_channel` returns: the lone expression, or all of them in a `vec<n>` constructor. */
  function EachChannel(channels: string, fun: char -> string): string
    requires 1 <= |channels| <= 4
  {
    if |channels| == 1 then fun(channels[0])
    else "vec" + NatToString(|channels|) + "(\n" + Join(MapChars(channels, fun), ",\n") + ")"
  }

  /** The opening, the expressions joined by `,\n`, then `)` when a constructor was opened. */
  lemma EachChannelParts(channels: string, fun: char -> string, open: string)
    requires 1 <= |channels| <= 4
    requires open == if |channels| == 1 then "" else "vec" + NatToString(|channels|) + "(\n"
    ensures EachChannel(channels, fun) ==
            open + Join(MapChars(channels, fun), ",\n") + (if |channels| > 1 then ")" else "")
  {
    var parts := MapChars(channels, fun);
    if |channels| == 1 {
      assert Join(parts, ",\n") == fun(channels[0]);
      assert open == "";
    } else {
      assert EachChannel(channels, fun) == open + Join(parts, ",\n") + ")";
    }
  }

  /**
   * `for_each_channel`: pick the opening by the number of channels (other
   * numbers panic), append the expressions separated by `,\n` using a
   * `first` flag, and close the constructor when there is more than one.
   */
  method ForEachChannel(channels: string, fun: char -> string) returns (result: string)
    requires 1 <= |channels| <= 4
    ensures result == EachChannel(channels, fun)
  {
    var open := if |channels| == 1 then "" else "vec" + NatToString(|channels|) + "(\n";
    result := open;
    var first := true;
    var i := 0;
    while i < |channels|
      invariant 0 <= i <= |channels|
      invariant first <==> i == 0
      invariant result == open + Join(MapChars(channels[..i], fun), ",\n")
    {
      PushChannel(open, channels, fun, i, result);
      if !first {
        result := result + ",\n";
      }
      result := result + fun(channels[i]);
      first := false;
      i := i + 1;
    }
    assert channels[..i] == channels;
    if |channels| > 1 {
      result := result + ")";
    }
    EachChannelParts(channels, fun, open);
  }

  // ---------------------------------------------------------------------
  // Type::blend
  // ---------------------------------------------------------------------

  /** `<x>.<channels>`: a swizzle of a variable. */
  function Swizzle(x: Identifier, channels: string): string {
    Render(x) + "." + channels
  }

  /** The blend types that build their expression channel by channel. */
  predicate PerChannel(t: BlendType) {
    t.Overlay? || t.Hard? || t.Soft?
  }

  /** The condition opening a per-channel expression: which operand is compared with one half. */
  function Condition(operand: string): string {
    operand + " < 0.5?\n"
  }

  /** The operand a per-channel type compares with one half: input 0 for `Overlay`, input 1 otherwise. */
  function Tested(t: BlendType, a: Identifier, b: Identifier): Identifier {
    if t.Overlay? then a else b
  }

  /** The two alternatives of a per-channel expression, after its condition. */
  function Branches(t: BlendType, a: Identifier, b: Identifier, c: char): string
    requires PerChannel(t)
  {
    var a, b, one := Swizzle(a, [c]), Swizzle(b, [c]), "one." + [c];
    if t.Soft? then
      "(2 * " + a + " * " + b + " + " + a + " * " + a + " - 2 * " + a + " * " + a + " * " + b + "):\n(2 * sqrt(" + a + ") * " + b + " - sqrt(" + a + ") + 2 * " + a + " - 2 * " + a + " * " + b + ")"
    else
      "(2 * " + a + " * " + b + "):\n(" + one + " - 2 * (" + one + " - " + a + ") * (" + one + " - " + b + "))"
  }

  /** The per-channel expression of `Overlay`, `Hard` or `Soft` for the channel `c`. */
  function ChannelTerm(t: BlendType, a: Identifier, b: Identifier, c: char): string
    requires PerChannel(t)
  {
    Condition(Swizzle(Tested(t, a, b), [c])) + Branches(t, a, b, c)
  }

  /** The expression blending `a` (input 0) with `b` (input 1) over `channels`. */
  function Formula(t: BlendType, a: Identifier, b: Identifier, channels: string): string
    requires PerChannel(t) ==> 1 <= |channels| <= 4
  {
    var sa, sb, one := Swizzle(a, channels), Swizzle(b, channels), "one." + channels;
    match t
    case Normal => sb
    case Multiply => sa + " * " + sb
    case Divide => sa + " / " + sb
    case Add => sa + " + " + sb
    case Substract => sa + " - " + sb
    case Difference => "abs(" + sa + " - " + sb + ")"
    case Darken => "min(" + sa + ", " + sb + ")"
    case Lighten => "max(" + sa + ", " + sb + ")"
    case Screen => one + " - (" + one + " - " + sa + ") * (" + one + " - " + sb + ")"
    case _ => EachChannel(channels, ChannelFun(t, a, b))
  }

  /** The per-channel expression builder passed to `for_each_channel`. */
  function ChannelFun(t: BlendType, a: Identifier, b: Identifier): char -> string
    requires PerChannel(t)
  {
    c => ChannelTerm(t, a, b, c)
  }

  /**
   * `Type::blend`: the formula over inputs 0 and 1 of the context; the
   * source unwraps both inputs and panics when either is not connected.
   */
  function Blend(t: BlendType, ctx: Context, channels: string): (r: string)
    requires ctx.Input(0).Some? && ctx.Input(1).Some?
    requires PerChannel(t) ==> 1 <= |channels| <= 4
    ensures var a, b := ctx.Input(0).value, ctx.Input(1).value;
            var sa, sb, one := Swizzle(a, channels), Swizzle(b, channels), "one." + channels;
            match t
            case Normal => r == sb
            case Multiply => r == sa + " * " + sb
            case Divide => r == sa + " / " + sb
            case Add => r == sa + " + " + sb
            case Substract => r == sa + " - " + sb
            case Difference => r == "abs(" + sa + " - " + sb + ")"
            case Darken => r == "min(" + sa + ", " + sb + ")"
            case Lighten => r == "max(" + sa + ", " + sb + ")"
            case Screen => r == one + " - (" + one + " - " + sa + ") * (" + one + " - " + sb + ")"
            case _ => r == EachChannel(channels, ChannelFun(t, a, b))
  {
    Formula(t, ctx.Input(0).value, ctx.Input(1).value, channels)
  }

  /**
   * `Overlay` tests input 0 per channel, `Hard` and `Soft` test input 1, and
   * `Overlay` and `Hard` choose between the same two alternatives.
   */
  lemma ConditionOperand(a: Identifier, b: Identifier, c: char)
    ensures var ca, cb := Condition(Swizzle(a, [c])), Condition(Swizzle(b, [c]));
            var o, h, s := ChannelTerm(Overlay, a, b, c), ChannelTerm(Hard, a, b, c), ChannelTerm(Soft, a, b, c);
            && |ca| <= |o| && o[..|ca|] == ca
            && |cb| <= |h| && h[..|cb|] == cb
            && |cb| <= |s| && s[..|cb|] == cb
            && o[|ca|..] == h[|cb|..]
  {
    var ca, cb := Condition(Swizzle(a, [c])), Condition(Swizzle(b, [c]));
    var o, h, s := ChannelTerm(Overlay, a, b, c), ChannelTerm(Hard, a, b, c), ChannelTerm(Soft, a, b, c);
    assert o == ca + Branches(Overlay, a, b, c);
    assert h == cb + Branches(Hard, a, b, c);
    assert s == cb + Branches(Soft, a, b, c);
    assert Branches(Overlay, a, b, c) == Branches(Hard, a, b, c);
  }
}
