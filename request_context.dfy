/** net/request_context.h: the protocol version checks of a request context.
    The context stores the HTTP major and minor versions as size_t; the
    checks take them as short, and each comparison converts the short to
    size_t, so a negative argument stands for a value near 2^64. */
module RequestContexts {

  const SizeModulus: int := 0x1_0000_0000_0000_0000

  /** A C++ size_t (64 bits). */
  newtype uint64 = x: int | 0 <= x < 0x1_0000_0000_0000_0000

  /** A C++ short. */
  newtype int16 = x: int | -0x8000 <= x < 0x8000

  /** The conversion of a short to size_t in a mixed comparison. */
  function AsSize(x: int16): (u: uint64)
    ensures x >= 0 ==> u as int == x as int
    ensures x < 0 ==> u as int == x as int + SizeModulus
  {
    (x as int % SizeModulus) as uint64
  }

  /** The protocol version fields of RequestContext. */
  datatype RequestContext = RequestContext(majorV: uint64, minorV: uint64)

  /** A (major, minor) pair on a single scale: major is the high digit in
      base 2^64. */
  function Key(major: uint64, minor: uint64): int {
    major as int * SizeModulus + minor as int
  }

  /** proto_v_eq_to: both fields equal the (converted) arguments. */
  function ProtoVEqTo(ctx: RequestContext, major: int16, minor: int16): (b: bool)
    ensures b <==> Key(ctx.majorV, ctx.minorV) == Key(AsSize(major), AsSize(minor))
  {
    KeyOrder(ctx.majorV, ctx.minorV, AsSize(major), AsSize(minor));
    ctx.majorV == AsSize(major) && ctx.minorV == AsSize(minor)
  }

  /** proto_v_gt: a larger major version, or the same major version and a
      larger minor one. */
  function ProtoVGt(ctx: RequestContext, major: int16, minor: int16): (b: bool)
    ensures b <==> Key(ctx.majorV, ctx.minorV) > Key(AsSize(major), AsSize(minor))
  {
    KeyOrder(ctx.majorV, ctx.minorV, AsSize(major), AsSize(minor));
    ctx.majorV > AsSize(major) || (!(AsSize(major) > ctx.majorV) && ctx.minorV > AsSize(minor))
  }

  /** proto_v_lt: a smaller major version, or the same major version and a
      smaller minor one. */
  function ProtoVLt(ctx: RequestContext, major: int16, minor: int16): (b: bool)
    ensures b <==> Key(ctx.majorV, ctx.minorV) < Key(AsSize(major), AsSize(minor))
  {
    KeyOrder(ctx.majorV, ctx.minorV, AsSize(major), AsSize(minor));
    ctx.majorV < AsSize(major) || (!(AsSize(major) < ctx.majorV) && ctx.minorV < AsSize(minor))
  }

  /** proto_v_gte: equal or greater. */
  function ProtoVGte(ctx: RequestContext, major: int16, minor: int16): (b: bool)
    ensures b <==> Key(ctx.majorV, ctx.minorV) >= Key(AsSize(major), AsSize(minor))
  {
    ProtoVEqTo(ctx, major, minor) || ProtoVGt(ctx, major, minor)
  }

  /** proto_v_lte: equal or less. */
  function ProtoVLte(ctx: RequestContext, major: int16, minor: int16): (b: bool)
    ensures b <==> Key(ctx.majorV, ctx.minorV) <= Key(AsSize(major), AsSize(minor))
  {
    ProtoVEqTo(ctx, major, minor) || ProtoVLt(ctx, major, minor)
  }

  /** The key order is the lexicographic order of (major, minor). */
  lemma KeyOrder(a1: uint64, b1: uint64, a2: uint64, b2: uint64)
    ensures Key(a1, b1) == Key(a2, b2) <==> a1 == a2 && b1 == b2
    ensures Key(a1, b1) < Key(a2, b2) <==> a1 < a2 || (a1 == a2 && b1 < b2)
  {
  }

  /** Exactly one of eq_to, gt and lt holds; gte is the negation of lt and
      lte the negation of gt. */
  lemma ProtoVTrichotomy(ctx: RequestContext, major: int16, minor: int16)
    ensures ProtoVEqTo(ctx, major, minor) || ProtoVGt(ctx, major, minor) || ProtoVLt(ctx, major, minor)
    ensures !(ProtoVGt(ctx, major, minor) && ProtoVLt(ctx, major, minor))
    ensures !(ProtoVEqTo(ctx, major, minor) && (ProtoVGt(ctx, major, minor) || ProtoVLt(ctx, major, minor)))
    ensures ProtoVGte(ctx, major, minor) <==> !ProtoVLt(ctx, major, minor)
    ensures ProtoVLte(ctx, major, minor) <==> !ProtoVGt(ctx, major, minor)
  {
  }

  /** For the versions that occur (non-negative arguments) the checks compare
      (major_v, minor_v) with (major, minor) lexicographically. */
  lemma ProtoVLexicographic(ctx: RequestContext, major: int16, minor: int16)
    requires major >= 0 && minor >= 0
    ensures ProtoVGt(ctx, major, minor) <==>
      ctx.majorV as int > major as int || (ctx.majorV as int == major as int && ctx.minorV as int > minor as int)
    ensures ProtoVLt(ctx, major, minor) <==>
      ctx.majorV as int < major as int || (ctx.majorV as int == major as int && ctx.minorV as int < minor as int)
  {
    KeyOrder(ctx.majorV, ctx.minorV, AsSize(major), AsSize(minor));
    KeyOrder(AsSize(major), AsSize(minor), ctx.majorV, ctx.minorV);
  }

  /** A negative major argument becomes a size_t near 2^64, so any context
      with a realistic major version is below it. */
  lemma NegativeMajorIsHuge(ctx: RequestContext, major: int16, minor: int16)
    requires major < 0 && ctx.majorV as int < 0x8000_0000_0000_0000
    ensures ProtoVLt(ctx, major, minor) && !ProtoVGte(ctx, major, minor)
  {
    KeyOrder(ctx.majorV, ctx.minorV, AsSize(major), AsSize(minor));
  }
}
