/**
 * What a region's accumulator holds after a sequence of records has been
 * folded into it one by one: counts and sums are totals over the records,
 * and each extreme is the first record reaching it.
 */
module Aggregate {
  import opened Climate

  /** Folding `recs` into `a` in order, as update_state_info does line after line. */
  function FoldAll(a: ClimateInfo, recs: seq<Record>, p: Parsers): (b: ClimateInfo)
    ensures b.code == a.code
    ensures b.numRecords == a.numRecords + |recs|
    decreases |recs|
  {
    if recs == [] then a
    else Accumulate(FoldAll(a, recs[..|recs| - 1], p), recs[|recs| - 1], p)
  }

  // Independent totals over a sequence of records.

  function HumidityTotal(recs: seq<Record>, p: Parsers): real
    decreases |recs|
  {
    if recs == [] then 0.0 else HumidityTotal(recs[..|recs| - 1], p) + Humidity(recs[|recs| - 1], p)
  }

  function TemperatureTotal(recs: seq<Record>, p: Parsers): real
    decreases |recs|
  {
    if recs == [] then 0.0 else TemperatureTotal(recs[..|recs| - 1], p) + Temperature(recs[|recs| - 1], p)
  }

  function CloudCoverTotal(recs: seq<Record>, p: Parsers): real
    decreases |recs|
  {
    if recs == [] then 0.0 else CloudCoverTotal(recs[..|recs| - 1], p) + CloudCover(recs[|recs| - 1], p)
  }

  function LightningTotal(recs: seq<Record>, p: Parsers): int
    decreases |recs|
  {
    if recs == [] then 0 else LightningTotal(recs[..|recs| - 1], p) + Lightning(recs[|recs| - 1], p)
  }

  function SnowTotal(recs: seq<Record>, p: Parsers): int
    decreases |recs|
  {
    if recs == [] then 0 else SnowTotal(recs[..|recs| - 1], p) + Snow(recs[|recs| - 1], p)
  }

  /** Folding a sequence of records counts them and adds up each of their values; the code never changes. */
  lemma {:induction false} FoldAllTotals(a: ClimateInfo, recs: seq<Record>, p: Parsers)
    ensures var b := FoldAll(a, recs, p);
      && b.code == a.code
      && b.numRecords == a.numRecords + |recs|
      && b.humiditySum == a.humiditySum + HumidityTotal(recs, p)
      && b.temperatureSum == a.temperatureSum + TemperatureTotal(recs, p)
      && b.cloudCoverSum == a.cloudCoverSum + CloudCoverTotal(recs, p)
      && b.lightningStrikes == a.lightningStrikes + LightningTotal(recs, p)
      && b.snowCoverRecords == a.snowCoverRecords + SnowTotal(recs, p)
    decreases |recs|
  {
    if recs != [] {
      FoldAllTotals(a, recs[..|recs| - 1], p);
    }
  }

  /**
   * The running maximum: it bounds every folded temperature, and either it
   * and its timestamp are those the accumulator started with, or they come
   * from the first record whose temperature reaches it, which beat the
   * starting value strictly.
   */
  lemma {:induction false} FoldAllMax(a: ClimateInfo, recs: seq<Record>, p: Parsers)
    ensures var b := FoldAll(a, recs, p);
      && b.maxTemp >= a.maxTemp
      && (forall i :: 0 <= i < |recs| ==> Temperature(recs[i], p) <= b.maxTemp)
      && ((b.maxTemp == a.maxTemp && b.maxTempTimestamp == a.maxTempTimestamp)
          || exists k :: 0 <= k < |recs| && FirstMaxAt(recs, p, k, a.maxTemp, b))
    decreases |recs|
  {
    if recs != [] {
      var init := recs[..|recs| - 1];
      var last := recs[|recs| - 1];
      var prev := FoldAll(a, init, p);
      var b := FoldAll(a, recs, p);
      FoldAllMax(a, init, p);
      assert forall i :: 0 <= i < |init| ==> recs[i] == init[i];
      if Temperature(last, p) > prev.maxTemp {
        assert FirstMaxAt(recs, p, |recs| - 1, a.maxTemp, b);
      } else if prev.maxTemp != a.maxTemp || prev.maxTempTimestamp != a.maxTempTimestamp {
        var k :| 0 <= k < |init| && FirstMaxAt(init, p, k, a.maxTemp, prev);
        assert FirstMaxAt(recs, p, k, a.maxTemp, b);
      }
    }
  }

  /** Record `k` set the maximum of `b`: it beat `start` strictly, and every earlier record stayed strictly below it. */
  predicate FirstMaxAt(recs: seq<Record>, p: Parsers, k: nat, start: real, b: ClimateInfo)
    requires k < |recs|
  {
    && b.maxTemp == Temperature(recs[k], p) > start
    && b.maxTempTimestamp == Timestamp(recs[k], p)
    && forall i :: 0 <= i < k ==> Temperature(recs[i], p) < b.maxTemp
  }

  /** Record `k` set the minimum of `b`: it beat `start` strictly, and every earlier record stayed strictly above it. */
  predicate FirstMinAt(recs: seq<Record>, p: Parsers, k: nat, start: real, b: ClimateInfo)
    requires k < |recs|
  {
    && b.minTemp == Temperature(recs[k], p) < start
    && b.minTempTimestamp == Timestamp(recs[k], p)
    && forall i :: 0 <= i < k ==> Temperature(recs[i], p) > b.minTemp
  }

  /** The running minimum, symmetric to FoldAllMax. */
  lemma {:induction false} FoldAllMin(a: ClimateInfo, recs: seq<Record>, p: Parsers)
    ensures var b := FoldAll(a, recs, p);
      && b.minTemp <= a.minTemp
      && (forall i :: 0 <= i < |recs| ==> Temperature(recs[i], p) >= b.minTemp)
      && ((b.minTemp == a.minTemp && b.minTempTimestamp == a.minTempTimestamp)
          || exists k :: 0 <= k < |recs| && FirstMinAt(recs, p, k, a.minTemp, b))
    decreases |recs|
  {
    if recs != [] {
      var init := recs[..|recs| - 1];
      var last := recs[|recs| - 1];
      var prev := FoldAll(a, init, p);
      var b := FoldAll(a, recs, p);
      FoldAllMin(a, init, p);
      assert forall i :: 0 <= i < |init| ==> recs[i] == init[i];
      if Temperature(last, p) < prev.minTemp {
        assert FirstMinAt(recs, p, |recs| - 1, a.minTemp, b);
      } else if prev.minTemp != a.minTemp || prev.minTempTimestamp != a.minTempTimestamp {
        var k :| 0 <= k < |init| && FirstMinAt(init, p, k, a.minTemp, prev);
        assert FirstMinAt(recs, p, k, a.minTemp, b);
      }
    }
  }

  /**
   * A fresh accumulator after at least one fold whose temperatures are all
   * finite doubles: its maximum and minimum are temperatures of folded
   * records, bound all of them, and carry the timestamp of the first record
   * reaching them.
   */
  lemma FreshExtremes(first: Record, recs: seq<Record>, p: Parsers)
    requires recs != []
    requires forall i :: 0 <= i < |recs| ==> -DblMax < Temperature(recs[i], p) < DblMax
    ensures var b := FoldAll(CreateState(first), recs, p);
      && (forall i :: 0 <= i < |recs| ==> Temperature(recs[i], p) <= b.maxTemp)
      && (forall i :: 0 <= i < |recs| ==> Temperature(recs[i], p) >= b.minTemp)
      && (exists k :: 0 <= k < |recs| && FirstMaxAt(recs, p, k, NegDblMax, b))
      && (exists k :: 0 <= k < |recs| && FirstMinAt(recs, p, k, DblMax, b))
  {
    var s := CreateState(first);
    FoldAllMax(s, recs, p);
    FoldAllMin(s, recs, p);
    assert -DblMax < Temperature(recs[0], p) < DblMax;
  }
}
