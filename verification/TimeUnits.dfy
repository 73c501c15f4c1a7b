/** Time bounds of a query (presto/domain.go): the unit of a bigint is inferred from its magnitude. */
module TimeUnits {
  import opened ByteStrings
  import opened Varints
  import opened ColumnData

  /** 2010-01-01 UTC, in seconds */
  const WATERMARK := 1262304000

  /** toTime, as nanoseconds since 1970. time.Unix(0, t * 1000) multiplies in an int64. */
  function ToTime(t: Int64, ok: bool): int {
    if !ok then t * 1_000_000_000
    else if t > WATERMARK * 1_000_000_000 then t
    else if t > WATERMARK * 1_000_000 then ToInt64(t * 1000)
    else if t > WATERMARK * 1000 then ToInt64(t * 1_000_000)
    else t * 1_000_000_000
  }

  /** Forty years of 365 days and ten leap days after 1970. */
  lemma WatermarkIs2010() ensures WATERMARK == (40 * 365 + 10) * 24 * 60 * 60 { }

  datatype Unit = Seconds | Millis | Micros | Nanos

  /** Nanoseconds in a unit. */
  function Scale(u: Unit): int {
    match u
    case Seconds => 1_000_000_000
    case Millis => 1_000_000
    case Micros => 1000
    case Nanos => 1
  }

  /** ToInt64 subtracts a whole number of 2^64. */
  lemma Wraps(x: int) returns (k: int)
    ensures ToInt64(x) == x - k * TWO_64
  {
    k := if x % TWO_64 < TWO_63 then x / TWO_64 else x / TWO_64 + 1;
  }

  /** A product that leaves the int64 range does not come back to the right instant by accident: the factor
      is odd up to a power of two, and the constants are its inverse. */
  lemma MicrosAreNotMillis(t: Int64)
    requires 0 < t <= WATERMARK * 1_000_000
    ensures ToInt64(t * 1_000_000) != t * 1000
  {
    var k := Wraps(t * 1_000_000);
    var d := 124875 * t - k * 0x2000_0000_0000_0000;
    assert t == 1622390218022290915 * d + (1622390218022290915 * k - 87862 * t) * 0x2000_0000_0000_0000;
  }

  lemma NanosAreNotMicros(t: Int64)
    requires 0 < t
    ensures ToInt64(t * 1000) != t
  {
    var k := Wraps(t * 1000);
    var d := 999 * t - k * TWO_64;
    assert t == 13719650497263460311 * d + (13719650497263460311 * k - 743 * t) * TWO_64;
  }

  lemma NanosAreNotMillis(t: Int64)
    requires 0 < t
    ensures ToInt64(t * 1_000_000) != t
  {
    var k := Wraps(t * 1_000_000);
    var d := 999999 * t - k * TWO_64;
    assert t == 1672254362768354751 * d + (1672254362768354751 * k - 90653 * t) * TWO_64;
  }

  /** Exactly which instants survive. `x` is any instant whose nanoseconds fit an int64, handed over as `t` units:
      toTime gives back the instant rounded down to its unit if and only if the unit is seconds, or the rounded
      instant lies strictly after 2010-01-01, or it is 0. */
  lemma UnitInferredIff(x: Int64, u: Unit)
    ensures var t := x / Scale(u);
      ToTime(t, true) == t * Scale(u) <==> u == Seconds || t * Scale(u) > 1_262_304_000 * 1_000_000_000 || t == 0
  {
    hide ToInt64;
    var t := x / Scale(u);
    match u
    case Seconds =>
    case Millis =>
      if t > WATERMARK * 1000 { Fits(t * 1_000_000); }
    case Micros =>
      if t > WATERMARK * 1_000_000 { Fits(t * 1000); }
      else if t > WATERMARK * 1000 { MicrosAreNotMillis(t); }
    case Nanos =>
      if WATERMARK * 1_000_000 < t <= WATERMARK * 1_000_000_000 { NanosAreNotMicros(t); }
      else if WATERMARK * 1000 < t <= WATERMARK * 1_000_000 { NanosAreNotMillis(t); }
  }

  lemma Fits(x: int)
    requires 0 <= x < TWO_63
    ensures ToInt64(x) == x
  {
  }

  /** An instant within the first unit after the watermark is not recognised: half a millisecond into 2010, sent as
      milliseconds, is taken for seconds. */
  lemma WatermarkUnitMisread()
    ensures var x := WATERMARK * 1_000_000_000 + 500_000;
      x > WATERMARK * 1_000_000_000 && ToTime(x / Scale(Millis), true) == WATERMARK * 1000 * 1_000_000_000
  {
  }

  // ---- ranges ----

  datatype Bound = Below | Exactly | Above

  /** A marker's bigint column, if it has one. */
  datatype Marker = Marker(nulls: seq<bool>, longs: Option<seq<Int64>>, bound: Bound)

  datatype TimeRange = TimeRange(from: int, until: int) | NoRange

  function MarkerTime(m: Marker): int
    requires m.longs.Some? && |m.nulls| == |m.longs.value|
  {
    var (t, ok) := Min(m.nulls, m.longs.value);
    ToTime(t, ok)
  }

  predicate WellFormed(m: Option<Marker>) {
    m.Some? && m.value.longs.Some? ==> |m.value.nulls| == |m.value.longs.value|
  }

  /** AsTimeRange */
  function AsTimeRange(low: Option<Marker>, high: Option<Marker>): TimeRange
    requires WellFormed(low) && WellFormed(high)
  {
    if low.None? || low.value.longs.None? then NoRange
    else if low.value.bound == Exactly && high.Some? && high.value.bound == Exactly && high.value.longs.Some? then
      TimeRange(MarkerTime(low.value), MarkerTime(high.value))
    else if low.value.bound == Above then TimeRange(MarkerTime(low.value), MAX_INT64 * 1_000_000_000)
    else if low.value.bound == Below then TimeRange(0, MarkerTime(low.value))
    else NoRange
  }

  /** Which markers give which range; a bound above or below looks at the low marker alone. */
  lemma TimeRangeIs(low: Option<Marker>, high: Option<Marker>)
    requires WellFormed(low) && WellFormed(high)
    ensures low.None? || low.value.longs.None? ==> AsTimeRange(low, high) == NoRange
    ensures low.Some? && low.value.longs.Some? && low.value.bound == Above ==>
      AsTimeRange(low, high) == TimeRange(MarkerTime(low.value), MAX_INT64 * 1_000_000_000)
    ensures low.Some? && low.value.longs.Some? && low.value.bound == Below ==>
      AsTimeRange(low, high) == TimeRange(0, MarkerTime(low.value))
    ensures low.Some? && low.value.longs.Some? && low.value.bound == Exactly ==>
      AsTimeRange(low, high)
      == if high.Some? && high.value.bound == Exactly && high.value.longs.Some?
         then TimeRange(MarkerTime(low.value), MarkerTime(high.value)) else NoRange
  {
  }

  function One(t: Int64, b: Bound): Marker { Marker([false], Some([t]), b) }

  /** The largest int64 is taken for "no value". */
  lemma OneIsItsMin(t: Int64, b: Bound)
    ensures MarkerTime(One(t, b)) == ToTime(t, t != MAX_INT64)
  {
    var nulls: seq<bool>, longs: seq<Int64> := [false], [t];
    assert nulls[..0] == [] && longs[..0] == [];
    assert Least(nulls, longs) == t;
  }

  /** The instants that survive the way through a one-value bigint marker. */
  predicate Recognised(x: Int64, u: Unit) {
    var t := x / Scale(u);
    (u == Seconds || t * Scale(u) > 1_262_304_000 * 1_000_000_000 || t == 0) && !(u == Nanos && x == MAX_INT64)
  }

  /** A marker of any instant stands for it, rounded down to its unit, if and only if it is recognised. */
  lemma MarkerDecodedIff(x: Int64, u: Unit, b: Bound)
    ensures MarkerTime(One(x / Scale(u), b)) == x / Scale(u) * Scale(u) <==> Recognised(x, u)
  {
    hide MarkerTime;
    OneIsItsMin(x / Scale(u), b);
    UnitInferredIff(x, u);
    if x / Scale(u) == MAX_INT64 { assert u == Nanos && x == MAX_INT64; }
  }

  /** Any two recognised instants, in whatever units, bound the range they should; an open range does not depend on the
      high marker. */
  lemma IntervalDecoded(x: Int64, u: Unit, y: Int64, w: Unit, high: Option<Marker>)
    requires Recognised(x, u) && Recognised(y, w) && WellFormed(high)
    ensures AsTimeRange(Some(One(x / Scale(u), Exactly)), Some(One(y / Scale(w), Exactly)))
         == TimeRange(x / Scale(u) * Scale(u), y / Scale(w) * Scale(w))
    ensures AsTimeRange(Some(One(x / Scale(u), Above)), high)
         == TimeRange(x / Scale(u) * Scale(u), MAX_INT64 * 1_000_000_000)
    ensures AsTimeRange(Some(One(x / Scale(u), Below)), high) == TimeRange(0, x / Scale(u) * Scale(u))
  {
    hide MarkerTime, Recognised;
    MarkerDecodedIff(x, u, Exactly);
    MarkerDecodedIff(x, u, Above);
    MarkerDecodedIff(x, u, Below);
    MarkerDecodedIff(y, w, Exactly);
  }
}
