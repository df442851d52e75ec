/** The dynamic values a caller puts into `Params` or `Query` (Go's
    `interface{}`), and the type switches that turn them into text. */
module Scalars {
  import opened Wrappers
  import opened Decimal

  /** Go's `int`, 64 bits wide on the platforms the client targets. */
  type GoInt = i: int | -0x8000_0000_0000_0000 <= i < 0x8000_0000_0000_0000

  /** The dynamic type of a parameter value. `float32`, `int32` and `int64`
      are told apart from `VOther` only because the type switches give them
      their own, empty, `case` arms. */
  datatype Value =
    | VString(s: string)
    | VInt(i: GoInt)
    | VFloat64(f: Float64)
    | VBool(b: bool)
    | VFloat32
    | VInt32
    | VInt64
    | VOther

  /** The tags the path switch formats: `int`, `float64` and `string`. */
  predicate PathTag(v: Value) {
    v.VInt? || v.VFloat64? || v.VString?
  }

  /** The tags the query switch formats: the path tags and `bool`. */
  predicate QueryTag(v: Value) {
    PathTag(v) || v.VBool?
  }

  /** The text `p` the path switch computes (request.go `parsePath`,
      client.go `parseParams`): `%.6f`, `%d` or `%s` for the formatted tags.
      Go cases do not fall through, so the empty `float32`, `int32` and
      `int64` arms leave `p` empty, as does `default` (which `bool` reaches). */
  function PathText(v: Value): (p: string)
    ensures p != "" <==> PathTag(v) && v != VString("")
    ensures v.VString? ==> p == v.s
  {
    match v
    case VFloat64(f) => FormatFixed6(f)
    case VInt(i) => FormatInt(i)
    case VString(s) => s
    case _ => ""
  }

  /** The text of a number reads back as that number. */
  lemma PathTextParses(v: Value)
    ensures v.VInt? ==> ParseInt(PathText(v)) == Some(v.i as int)
    ensures v.VFloat64? ==> ParseFixed6(PathText(v)) == Some(v.f)
  {
    match v
    case VFloat64(f) => FormatFixed6RoundTrip(f);
    case VInt(i) => FormatIntRoundTrip(i);
    case _ =>
  }

  /** The value the query switch adds (both `parseQuery` functions), or
      `None` where the switch adds nothing. Unlike the path switch it keeps
      empty strings and renders booleans with `%t`. */
  function QueryText(v: Value): (t: Option<string>)
    ensures t.Some? <==> QueryTag(v)
    ensures PathTag(v) ==> t == Some(PathText(v))
    ensures v.VBool? ==> t == Some(if v.b then "true" else "false")
  {
    match v
    case VFloat64(f) => Some(FormatFixed6(f))
    case VInt(i) => Some(FormatInt(i))
    case VString(s) => Some(s)
    case VBool(b) => Some(if b then "true" else "false")
    case _ => None
  }

  /** Distinct values of one formatted tag never render alike, so the text
      substituted or sent identifies the value. */
  lemma PathTextInjective(v: Value, w: Value)
    requires PathTag(v) && PathTag(w)
    requires (v.VInt? && w.VInt?) || (v.VFloat64? && w.VFloat64?) || (v.VString? && w.VString?)
    requires PathText(v) == PathText(w)
    ensures v == w
  {
    PathTextParses(v);
    PathTextParses(w);
  }
}
