/**
 * The colour text codec of src/utils.rs: three numbers separated by
 * commas. Number formatting and parsing are not modelled; they are the
 * `show` and `parse` parameters.
 */
module Colors {
  import opened Strings
  import opened Wrappers
  import opened Floats

  /** Why a colour did not decode: too few fields, or a field that is not a number. */
  datatype ParseError = Internal | Number

  /** The characters with the Unicode `White_Space` property, which `str::trim` removes. */
  predicate IsWhitespace(c: char) {
    || ('\t' <= c <= '\r') || c == ' ' || c == '\U{85}' || c == '\U{A0}' || c == '\U{1680}'
    || ('\U{2000}' <= c <= '\U{200A}') || c == '\U{2028}' || c == '\U{2029}' || c == '\U{202F}'
    || c == '\U{205F}' || c == '\U{3000}'
  }

  function TrimStart(s: string): (r: string)
    ensures |r| <= |s| && r == s[|s| - |r|..]
    ensures r == [] || !IsWhitespace(r[0])
    ensures forall i :: 0 <= i < |s| - |r| ==> IsWhitespace(s[i])
  {
    if s != [] && IsWhitespace(s[0]) then TrimStart(s[1..]) else s
  }

  function TrimEnd(s: string): (r: string)
    ensures |r| <= |s| && r == s[..|r|]
    ensures r == [] || !IsWhitespace(r[|r| - 1])
    ensures forall i :: |r| <= i < |s| ==> IsWhitespace(s[i])
  {
    if s != [] && IsWhitespace(s[|s| - 1]) then TrimEnd(s[..|s| - 1]) else s
  }

  /**
   * `str::trim`: `s` without its leading and trailing white space: a
   * slice `s[i..i + |r|]` with only white space around it and none at its
   * own ends.
   */
  function Trim(s: string): (r: string)
    ensures r == [] || (!IsWhitespace(r[0]) && !IsWhitespace(r[|r| - 1]))
    ensures var i := |s| - |TrimStart(s)|;
            && i + |r| <= |s| && s[i..i + |r|] == r
            && (forall k :: 0 <= k < i ==> IsWhitespace(s[k]))
            && (forall k :: i + |r| <= k < |s| ==> IsWhitespace(s[k]))
  {
    var t := TrimStart(s);
    var r := TrimEnd(t);
    TrimEndInSlice(s, t, r);
    r
  }

  lemma TrimEndInSlice(s: string, t: string, r: string)
    requires |t| <= |s| && t == s[|s| - |t|..]
    requires |r| <= |t| && r == t[..|r|]
    requires forall i :: |r| <= i < |t| ==> IsWhitespace(t[i])
    ensures var i := |s| - |t|; s[i..i + |r|] == r
    ensures forall k :: |s| - |t| + |r| <= k < |s| ==> IsWhitespace(s[k])
  {
    var i := |s| - |t|;
    forall k | i + |r| <= k < |s|
      ensures IsWhitespace(s[k])
    {
      assert s[k] == t[k - i];
    }
  }

  /** Trimming twice is trimming once. */
  lemma TrimIdempotent(s: string)
    ensures Trim(Trim(s)) == Trim(s)
  {
    var r := Trim(s);
    assert TrimStart(r) == r;
    assert TrimEnd(r) == r;
  }

  /**
   * `decode_color`: split at the commas; fewer than three fields is an
   * internal error; otherwise the first three fields, trimmed, must each
   * parse, and any further fields are ignored.
   */
  function DecodeColor(s: string, parse: string -> Option<F32>): (r: Result<(F32, F32, F32), ParseError>)
    ensures var fields := Split(s, ',');
            && (r == Err(Internal) <==> |fields| < 3)
            && (r.Ok? <==> |fields| >= 3 && parse(Trim(fields[0])).Some? && parse(Trim(fields[1])).Some? && parse(Trim(fields[2])).Some?)
            && (r.Ok? ==> r.value == (parse(Trim(fields[0])).value, parse(Trim(fields[1])).value, parse(Trim(fields[2])).value))
  {
    var input := Split(s, ',');
    if |input| < 3 then Err(Internal)
    else
      match (parse(Trim(input[0])), parse(Trim(input[1])), parse(Trim(input[2])))
      case (Some(r), Some(g), Some(b)) => Ok((r, g, b))
      case _ => Err(Number)
  }

  /** `encode_color`: the three numbers, comma separated, with no spaces. */
  function EncodeColor(c: (F32, F32, F32), show: F32 -> string): (r: string)
    ensures (forall f :: ',' !in show(f)) ==> Split(r, ',') == [show(c.0), show(c.1), show(c.2)]
  {
    var parts := [show(c.0), show(c.1), show(c.2)];
    JoinCons(parts, ",");
    JoinCons(parts[1..], ",");
    SplitParts(parts);
    Join(parts, ",")
  }

  lemma SplitParts(parts: seq<string>)
    requires |parts| >= 1
    ensures (forall i :: 0 <= i < |parts| ==> ',' !in parts[i]) ==> Split(Join(parts, ","), ',') == parts
  {
    if forall i :: 0 <= i < |parts| ==> ',' !in parts[i] {
      SplitJoin(parts, ',');
    }
  }

  /** Decoding an encoded colour gives it back when printed numbers contain no comma and parse back. */
  lemma RoundTrip(c: (F32, F32, F32), show: F32 -> string, parse: string -> Option<F32>)
    requires forall f :: ',' !in show(f) && parse(Trim(show(f))) == Some(f)
    ensures DecodeColor(EncodeColor(c, show), parse) == Ok(c)
  {
  }

  /** Text after a third field is ignored. */
  lemma ExtraFieldsIgnored(s: string, rest: string, parse: string -> Option<F32>)
    requires |Split(s, ',')| >= 3
    ensures DecodeColor(s + "," + rest, parse) == DecodeColor(s, parse)
  {
    SplitAppend(s, rest, ',');
  }
}
