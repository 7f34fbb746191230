/**
 * query-bench's `parseDuration`: the `-range` flag accepts everything Go's
 * `time.ParseDuration` accepts, plus a trailing `d` for days, which is turned
 * into hours and multiplied by 24.
 *
 * `time.ParseDuration` itself is not modelled; it is a parameter `primitive`
 * of `ParseRange` and of the lemmas about it, so each property below holds for
 * any such parser.
 */
module Durations {
  import opened Wrappers
  import opened Strings

  const MinInt64: int := -0x8000_0000_0000_0000
  const MaxInt64: int := 0x7FFF_FFFF_FFFF_FFFF

  /** Go's `time.Duration`: a signed 64-bit count of nanoseconds. */
  newtype Int64 = x: int | -0x8000_0000_0000_0000 <= x < 0x8000_0000_0000_0000

  /** A Go result pair `(time.Duration, error)`; `err == None` is a nil error. */
  datatype Parsed = Parsed(span: Int64, err: Option<string>)

  /** A parser with the signature of `time.ParseDuration`. */
  type Primitive = string -> Parsed

  /** Nanoseconds in one hour. */
  const Hour: int := 3_600_000_000_000

  /**
   * Two's-complement multiplication result of Go's `int64`: the one value of
   * the 64-bit range congruent to `x` modulo 2^64.
   */
  function Wrap64(x: int): (r: Int64)
    ensures (r as int - x) % 0x1_0000_0000_0000_0000 == 0
    ensures MinInt64 <= x <= MaxInt64 ==> r as int == x
  {
    var m := x % 0x1_0000_0000_0000_0000;
    if m <= MaxInt64 then m as Int64 else (m - 0x1_0000_0000_0000_0000) as Int64
  }

  /** The text handed to the primitive parser: `NNd` becomes `NNh`, anything else is unchanged. */
  function Rewritten(s: string): (r: string)
    ensures !HasSuffix(r, "d")
    ensures HasSuffix(s, "d") ==> r == s[..|s| - 1] + "h"
    ensures !HasSuffix(s, "d") ==> r == s
  {
    if HasSuffix(s, "d") then TrimSuffix(s, "d") + "h" else s
  }

  /** `parseDuration` (query-bench.go:91-101). */
  function ParseRange(primitive: Primitive, s: string): (r: Parsed)
    ensures r.err == primitive(Rewritten(s)).err
  {
    if HasSuffix(s, "d") then
      var days := TrimSuffix(s, "d");
      var p := primitive(days + "h");
      if p.err.Some? then Parsed(0, p.err) else Parsed(Wrap64(p.span as int * 24), None)
    else
      primitive(s)
  }

  /** A `d`-suffixed range that parses is 24 times the same number of hours. */
  lemma DaysAreTwentyFourHours(primitive: Primitive, s: string)
    requires HasSuffix(s, "d")
    requires primitive(s[..|s| - 1] + "h").err == None
    ensures ParseRange(primitive, s).err == None
    ensures ParseRange(primitive, s).span == Wrap64(24 * primitive(s[..|s| - 1] + "h").span as int)
    ensures MinInt64 <= 24 * primitive(s[..|s| - 1] + "h").span as int <= MaxInt64 ==>
              ParseRange(primitive, s).span as int == 24 * primitive(s[..|s| - 1] + "h").span as int
  {
    assert TrimSuffix(s, "d") == s[..|s| - 1];
  }

  /** A `d`-suffixed range whose hour form is rejected fails with that error and the value 0. */
  lemma DaysErrorHasNoSpan(primitive: Primitive, s: string)
    requires HasSuffix(s, "d")
    requires primitive(s[..|s| - 1] + "h").err.Some?
    ensures ParseRange(primitive, s) == Parsed(0, primitive(s[..|s| - 1] + "h").err)
  {
    assert TrimSuffix(s, "d") == s[..|s| - 1];
  }

  /** Any other range is passed to the primitive parser unchanged, value and error alike. */
  lemma OtherRangesPassThrough(primitive: Primitive, s: string)
    requires !HasSuffix(s, "d")
    ensures ParseRange(primitive, s) == primitive(s)
  {
  }

  /**
   * The primitive parser is consulted on `Rewritten(s)` only: two parsers that
   * agree there give the same result, and that text never ends in `d`.
   */
  lemma ConsultsOnlyRewritten(p1: Primitive, p2: Primitive, s: string)
    requires p1(Rewritten(s)) == p2(Rewritten(s))
    ensures ParseRange(p1, s) == ParseRange(p2, s)
  {
    if HasSuffix(s, "d") {
      assert TrimSuffix(s, "d") + "h" == Rewritten(s);
    }
  }

  /**
   * The multiplication by 24 wraps around like Go's `int64`: with a primitive
   * parser that reads `106752h` as 106752 hours (which fits in 64 bits), the
   * range `106752d` comes out negative.
   */
  lemma DaysOverflowWraps(primitive: Primitive)
    requires primitive("106752h") == Parsed((106752 * Hour) as Int64, None)
    ensures ParseRange(primitive, "106752d").err == None
    ensures ParseRange(primitive, "106752d").span < 0
  {
    assert HasSuffix("106752d", "d");
    assert TrimSuffix("106752d", "d") + "h" == "106752h";
    var x := 106752 * Hour * 24;
    assert x % 0x1_0000_0000_0000_0000 == x;
  }
}
