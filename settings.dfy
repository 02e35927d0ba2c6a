/**
 * Process settings (src/process/mod.rs): the value a process exposes under
 * a setting key, and its text form. `SettingMut`, a mutable reference of
 * the same six kinds, is modelled by assigning a `Setting` of the same kind.
 */
module Settings {
  import opened Strings
  import opened Floats
  import opened BlendModes
  import opened Wrappers

  /** The six kinds shared by `Setting` and `SettingMut`, in declaration order. */
  datatype Kind = TextKind | IntegerKind | BooleanKind | FloatKind | ColorKind | BlendKind

  datatype Setting =
    | Text(text: string)
    | Integer(number: nat)
    | Boolean(flag: bool)
    | Float(float: F32)
    | Color(color: Col)
    | Blend(blend: BlendType)

  function KindOf(s: Setting): Kind {
    match s
    case Text(_) => TextKind
    case Integer(_) => IntegerKind
    case Boolean(_) => BooleanKind
    case Float(_) => FloatKind
    case Color(_) => ColorKind
    case Blend(_) => BlendKind
  }

  /** The four channels of a colour as text, in the order the source prints them. */
  function ColorParts(c: Col, ft: FloatText): seq<string> {
    [ft.show(c.red), ft.show(c.green), ft.show(c.blue), ft.show(c.alpha)]
  }

  /**
   * `Setting::to_string`. Each kind's text reads back as the value: text
   * is shown unchanged, an integer in decimal digits, a flag as the single
   * digit `1` or `0`, and a blend type by its variant name.
   */
  function ToString(s: Setting, ft: FloatText): (r: string)
    ensures s.Text? ==> r == s.text
    ensures s.Integer? ==> AllDigits(r) && DigitsValue(r) == s.number
    ensures s.Boolean? ==> (r == "1" <==> s.flag) && (r == "0" <==> !s.flag)
    ensures s.Blend? ==> FromName(r) == Some(s.blend)
  {
    match s
    case Text(t) => t
    case Integer(i) => DigitsValueOfNatToString(i); NatToString(i)
    case Boolean(b) => if b then "1" else "0"
    case Float(f) => ft.show(f)
    case Color(c) => Join(ColorParts(c, ft), ",")
    case Blend(b) => NamesRoundTrip(b); Name(b)
  }

  /**
   * A colour is shown as its four channels joined by commas without
   * spaces: when no channel's text holds a comma, splitting at the commas
   * gives the four channel texts back.
   */
  lemma ColorShownAsFourFields(c: Col, ft: FloatText)
    requires forall f :: ',' !in ft.show(f)
    ensures Split(ToString(Color(c), ft), ',') == ColorParts(c, ft)
  {
    SplitJoin(ColorParts(c, ft), ',');
  }
}
