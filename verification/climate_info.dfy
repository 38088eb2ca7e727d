/**
 * The per-region accumulator of climate.c (`struct climate_info`), its
 * creation and the fold of one record into it.
 *
 * Numbers: `long double` and `double` become exact reals, and the C
 * library's lenient conversions `atof` and `atoi` are a pair of total
 * functions supplied by the caller (they never fail; what they return for
 * a given token is not modelled).
 */
module Climate {
  import opened Base
  import opened Tokenizer

  /** The nine tokens of an accepted line: code, timestamp, geohash, humidity, snow, cloud cover, lightning, pressure, temperature. */
  type Record = r: seq<string> | |r| == FieldCount witness ["", "", "", "", "", "", "", "", ""]

  /** DBL_MAX from <float.h>, the largest finite double, (2^53 - 1) * 2^971, written out exactly. */
  const DblMax: real := 179769313486231570814527423731704356798070567525844996598917476803157260780028538760589558632766878171540458953514382464234321326889464182768467546703537516986049910576551282076245490090389328944075868508455133942304583236903222948165808559332123348274797826204144723168738177180919299881250404026184124858368.0

  /** -DBL_MAX, the starting maximum; named so that quantifier triggers can mention it. */
  const NegDblMax: real := -DblMax

  /** The C library's `atof` and `atoi`: total conversions from a token to a number. */
  datatype Parsers = Parsers(atof: string -> real, atoi: string -> int)

  /** The running statistics of one region (one two-character code). */
  datatype ClimateInfo = ClimateInfo(
    code: string,
    numRecords: nat,
    humiditySum: real,
    temperatureSum: real,
    maxTemp: real,
    minTemp: real,
    maxTempTimestamp: int,
    minTempTimestamp: int,
    lightningStrikes: int,
    snowCoverRecords: int,
    cloudCoverSum: real)

  /** The inverse conversion, Fahrenheit back to Kelvin. */
  function FahrenheitToKelvin(fahrenheit: real): real
  {
    (fahrenheit + 459.67) / 1.8
  }

  /** kelvin_to_fahrenheit: F = K * 9/5 - 459.67, an exact affine map with an inverse. */
  function KelvinToFahrenheit(kelvin: real): (fahrenheit: real)
    ensures FahrenheitToKelvin(fahrenheit) == kelvin
  {
    kelvin * 1.8 - 459.67
  }

  /** The conversion is strictly increasing, so Fahrenheit values order temperatures as Kelvin values do. */
  lemma KelvinToFahrenheitOrder(a: real, b: real)
    ensures a < b <==> KelvinToFahrenheit(a) < KelvinToFahrenheit(b)
    ensures a == b <==> KelvinToFahrenheit(a) == KelvinToFahrenheit(b)
  {
  }

  /**
   * C integer division of a millisecond count by 1000, which truncates
   * toward zero (Dafny's `/` rounds toward negative infinity for negative
   * dividends).
   */
  function MillisToSeconds(millis: int): (seconds: int)
    ensures millis >= 0 ==> 0 <= seconds && seconds * 1000 <= millis < seconds * 1000 + 1000
    ensures millis < 0 ==> seconds <= 0 && seconds * 1000 - 1000 < millis <= seconds * 1000
  {
    if millis >= 0 then millis / 1000 else -((-millis) / 1000)
  }

  /** The region code strncpy(code, token, 2) copies: the first two characters, or the whole token when shorter. */
  function RegionCode(token: string): (code: string)
    ensures code <= token
    ensures |code| == Min(2, |token|)
  {
    token[..Min(2, |token|)]
  }

  function CodeOf(r: Record): string
  {
    RegionCode(r[0])
  }

  // The values update_state_info reads from a record's tokens.

  function Timestamp(r: Record, p: Parsers): int
  {
    MillisToSeconds(p.atoi(r[1]))
  }

  function Humidity(r: Record, p: Parsers): real
  {
    p.atof(r[3])
  }

  function Snow(r: Record, p: Parsers): int
  {
    p.atoi(r[4])
  }

  function CloudCover(r: Record, p: Parsers): real
  {
    p.atof(r[5])
  }

  function Lightning(r: Record, p: Parsers): int
  {
    p.atoi(r[6])
  }

  function Temperature(r: Record, p: Parsers): real
  {
    KelvinToFahrenheit(p.atof(r[8]))
  }

  /**
   * create_state: an accumulator for the record's region holding no
   * observation yet. The extremes start at the opposite ends of the double
   * range so that the first folded temperature inside it replaces both.
   */
  function CreateState(r: Record): (s: ClimateInfo)
    ensures s.code == CodeOf(r)
    ensures s.numRecords == 0
    ensures s.humiditySum == 0.0 && s.temperatureSum == 0.0 && s.cloudCoverSum == 0.0
    ensures s.lightningStrikes == 0 && s.snowCoverRecords == 0
    ensures s.maxTemp == -DblMax && s.minTemp == DblMax
    ensures s.maxTempTimestamp == 0 && s.minTempTimestamp == 0
  {
    ClimateInfo(CodeOf(r), 0, 0.0, 0.0, -DblMax, DblMax, 0, 0, 0, 0, 0.0)
  }

  /**
   * The accumulator part of update_state_info: one more record, each sum
   * and counter grows by the record's value, and each extreme (with its
   * timestamp) is replaced only on a strict improvement, so on a tie the
   * earlier timestamp stays.
   */
  function Accumulate(a: ClimateInfo, r: Record, p: Parsers): (b: ClimateInfo)
    ensures b.code == a.code
    ensures b.numRecords == a.numRecords + 1
    ensures b.humiditySum == a.humiditySum + Humidity(r, p)
    ensures b.temperatureSum == a.temperatureSum + Temperature(r, p)
    ensures b.cloudCoverSum == a.cloudCoverSum + CloudCover(r, p)
    ensures b.lightningStrikes == a.lightningStrikes + Lightning(r, p)
    ensures b.snowCoverRecords == a.snowCoverRecords + Snow(r, p)
    ensures b.maxTemp >= Temperature(r, p) && b.maxTemp >= a.maxTemp
    ensures b.minTemp <= Temperature(r, p) && b.minTemp <= a.minTemp
    ensures Temperature(r, p) > a.maxTemp ==> b.maxTemp == Temperature(r, p) && b.maxTempTimestamp == Timestamp(r, p)
    ensures Temperature(r, p) <= a.maxTemp ==> b.maxTemp == a.maxTemp && b.maxTempTimestamp == a.maxTempTimestamp
    ensures Temperature(r, p) < a.minTemp ==> b.minTemp == Temperature(r, p) && b.minTempTimestamp == Timestamp(r, p)
    ensures Temperature(r, p) >= a.minTemp ==> b.minTemp == a.minTemp && b.minTempTimestamp == a.minTempTimestamp
  {
    var f := Temperature(r, p);
    var a1 := a.(
      numRecords := a.numRecords + 1,
      humiditySum := a.humiditySum + Humidity(r, p),
      temperatureSum := a.temperatureSum + f,
      cloudCoverSum := a.cloudCoverSum + CloudCover(r, p));
    var a2 := if f > a1.maxTemp then a1.(maxTemp := f, maxTempTimestamp := Timestamp(r, p)) else a1;
    var a3 := if f < a2.minTemp then a2.(minTemp := f, minTempTimestamp := Timestamp(r, p)) else a2;
    a3.(
      lightningStrikes := a3.lightningStrikes + Lightning(r, p),
      snowCoverRecords := a3.snowCoverRecords + Snow(r, p))
  }

  /** The first record folded into a fresh accumulator sets both extremes, when its temperature is a finite double. */
  lemma FirstFoldSetsExtremes(first: Record, r: Record, p: Parsers)
    requires -DblMax < Temperature(r, p) < DblMax
    ensures var b := Accumulate(CreateState(first), r, p);
      b.maxTemp == b.minTemp == Temperature(r, p) &&
      b.maxTempTimestamp == b.minTempTimestamp == Timestamp(r, p) &&
      b.numRecords == 1
  {
  }
}
