/**
 * analyze_file over a whole sequence of lines, and what the table holds
 * afterwards: the regions in the order their codes were first seen (at most
 * NUM_STATES of them), each accumulator being its first record's fresh
 * state with every later record of that region folded in.
 */
module Analysis {
  import opened Base
  import opened Tokenizer
  import opened Climate
  import opened Aggregate
  import opened RegionTable

  /** One line as analyze_file handles it: dropped unless strtok yields nine tokens. */
  function Step(t: Table, line: string, p: Parsers): (u: Table)
    ensures |u| == |t|
    ensures WellFormed(t) ==> WellFormed(u)
  {
    var tokens := LineTokens(line);
    if |tokens| < FieldCount then t
    else
      assert WellFormed(t) ==> WellFormed(Insert(t, tokens, p)) by {
        if WellFormed(t) {
          InsertPreservesWellFormed(t, tokens, p);
        }
      }
      Insert(t, tokens, p)
  }

  /** The lines of a file handled in order. */
  function Run(t: Table, lines: seq<string>, p: Parsers): (u: Table)
    ensures |u| == |t|
    ensures WellFormed(t) ==> WellFormed(u)
    decreases |lines|
  {
    if lines == [] then t else Step(Run(t, lines[..|lines| - 1], p), lines[|lines| - 1], p)
  }

  /** The records of the lines analyze_file accepts, in input order. */
  function Records(lines: seq<string>): (recs: seq<Record>)
    ensures |recs| <= |lines|
    decreases |lines|
  {
    if lines == [] then [] else Records(lines[..|lines| - 1]) + LineRecords(lines[|lines| - 1])
  }

  /** The region code of each record. */
  function RecordCodes(recs: seq<Record>): (cs: seq<string>)
    ensures |cs| == |recs|
    decreases |recs|
  {
    if recs == [] then [] else RecordCodes(recs[..|recs| - 1]) + [CodeOf(recs[|recs| - 1])]
  }

  /** The distinct members of `cs` in the order of their first occurrence. */
  function FirstSeen(cs: seq<string>): (fs: seq<string>)
    ensures forall x :: x in fs <==> x in cs
    ensures forall i, j :: 0 <= i < j < |fs| ==> fs[i] != fs[j]
    decreases |cs|
  {
    if cs == [] then []
    else
      var prev := FirstSeen(cs[..|cs| - 1]);
      var c := cs[|cs| - 1];
      assert forall x :: x in cs <==> x in cs[..|cs| - 1] || x == c by {
        assert cs == cs[..|cs| - 1] + [c];
      }
      if c in prev then prev else prev + [c]
  }

  /** The records of region `code`, in input order. */
  function Matching(recs: seq<Record>, code: string): (m: seq<Record>)
    ensures |m| <= |recs|
    decreases |recs|
  {
    if recs == [] then []
    else
      var last := recs[|recs| - 1];
      Matching(recs[..|recs| - 1], code) + (if CodeOf(last) == code then [last] else [])
  }

  /** The accumulator `a` is its region's first record's fresh state with the region's later records folded in. */
  predicate RegionSummary(a: ClimateInfo, recs: seq<Record>, p: Parsers)
  {
    var m := Matching(recs, a.code);
    |m| >= 1 && a == FoldAll(CreateState(m[0]), m[1..], p)
  }

  /** The occupied slots hold the first codes of `fs`, in order, as many as fit. */
  predicate CodesInOrder(t: Table, fs: seq<string>)
  {
    && FirstFree(t) == Min(|t|, |fs|)
    && forall i :: 0 <= i < FirstFree(t) ==> t[i].value.code == fs[i]
  }

  /** Every occupied slot summarises its region's records. */
  predicate AllSummarised(t: Table, recs: seq<Record>, p: Parsers)
  {
    forall i :: 0 <= i < FirstFree(t) ==> RegionSummary(t[i].value, recs, p)
  }

  /**
   * The table after the records `recs`: well formed, its occupied slots
   * are the first codes in order of first occurrence (as many as fit), and
   * each accumulator summarises its region's records.
   */
  predicate Summarises(t: Table, recs: seq<Record>, p: Parsers)
  {
    && WellFormed(t)
    && CodesInOrder(t, FirstSeen(RecordCodes(recs)))
    && AllSummarised(t, recs, p)
  }

  lemma FirstSeenSnoc(cs: seq<string>, c: string)
    ensures FirstSeen(cs + [c]) == if c in cs then FirstSeen(cs) else FirstSeen(cs) + [c]
  {
    assert (cs + [c])[..|cs|] == cs;
  }

  /** The index of the first occurrence of `x` in `cs`. */
  function FirstIndex(cs: seq<string>, x: string): (k: nat)
    requires x in cs
    ensures k < |cs| && cs[k] == x
    ensures forall i :: 0 <= i < k ==> cs[i] != x
  {
    if cs[0] == x then 0 else 1 + FirstIndex(cs[1..], x)
  }

  /** Appending an element does not move the first occurrence of one already present. */
  lemma FirstIndexSnoc(cs: seq<string>, c: string, x: string)
    requires x in cs
    ensures FirstIndex(cs + [c], x) == FirstIndex(cs, x)
  {
    var k := FirstIndex(cs, x);
    assert (cs + [c])[k] == x;
  }

  /** The first-seen codes are listed in the order of their first occurrences. */
  lemma {:induction false} FirstSeenOrder(cs: seq<string>, i: nat, j: nat)
    requires i < j < |FirstSeen(cs)|
    ensures FirstIndex(cs, FirstSeen(cs)[i]) < FirstIndex(cs, FirstSeen(cs)[j])
    decreases |cs|
  {
    var init := cs[..|cs| - 1];
    var c := cs[|cs| - 1];
    var prev := FirstSeen(init);
    assert cs == init + [c];
    FirstSeenSnoc(init, c);
    if j < |prev| {
      FirstSeenOrder(init, i, j);
      FirstIndexSnoc(init, c, prev[i]);
      FirstIndexSnoc(init, c, prev[j]);
    } else {
      assert FirstSeen(cs)[j] == c && c !in init;
      FirstIndexSnoc(init, c, prev[i]);
      assert cs[|init|] == c;
    }
  }

  lemma RecordCodesSnoc(recs: seq<Record>, r: Record)
    ensures RecordCodes(recs + [r]) == RecordCodes(recs) + [CodeOf(r)]
  {
    assert (recs + [r])[..|recs|] == recs;
  }

  /** How the first-seen codes grow by one record. */
  lemma SeenSnoc(recs: seq<Record>, r: Record)
    ensures var c := CodeOf(r);
      FirstSeen(RecordCodes(recs + [r])) ==
        if c in FirstSeen(RecordCodes(recs)) then FirstSeen(RecordCodes(recs))
        else FirstSeen(RecordCodes(recs)) + [c]
  {
    RecordCodesSnoc(recs, r);
    FirstSeenSnoc(RecordCodes(recs), CodeOf(r));
  }

  lemma MatchingSnoc(recs: seq<Record>, r: Record, code: string)
    ensures Matching(recs + [r], code) == Matching(recs, code) + (if CodeOf(r) == code then [r] else [])
  {
    assert (recs + [r])[..|recs|] == recs;
  }

  /** A region has records exactly when its code is among the codes seen. */
  lemma {:induction false} MatchingEmpty(recs: seq<Record>, code: string)
    ensures Matching(recs, code) == [] <==> code !in FirstSeen(RecordCodes(recs))
    decreases |recs|
  {
    if recs != [] {
      var init := recs[..|recs| - 1];
      var last := recs[|recs| - 1];
      MatchingEmpty(init, code);
      assert recs == init + [last];
      MatchingSnoc(init, last, code);
      SeenSnoc(init, last);
    }
  }

  lemma FoldAllSnoc(a: ClimateInfo, recs: seq<Record>, r: Record, p: Parsers)
    ensures FoldAll(a, recs + [r], p) == Accumulate(FoldAll(a, recs, p), r, p)
  {
    assert (recs + [r])[..|recs|] == recs;
  }

  /** A region whose code differs from the new record's keeps its summary. */
  lemma SummaryOther(a: ClimateInfo, recs: seq<Record>, r: Record, p: Parsers)
    requires a.code != CodeOf(r)
    requires RegionSummary(a, recs, p)
    ensures RegionSummary(a, recs + [r], p)
  {
    MatchingSnoc(recs, r, a.code);
    assert Matching(recs + [r], a.code) == Matching(recs, a.code) + [];
    assert Matching(recs, a.code) + [] == Matching(recs, a.code);
  }

  /** Folding a record into its region's accumulator keeps the summary. */
  lemma SummaryFold(a: ClimateInfo, recs: seq<Record>, r: Record, p: Parsers)
    requires a.code == CodeOf(r)
    requires RegionSummary(a, recs, p)
    ensures RegionSummary(Accumulate(a, r, p), recs + [r], p)
  {
    var m := Matching(recs, a.code);
    MatchingSnoc(recs, r, a.code);
    var m' := m + [r];
    assert m'[0] == m[0];
    assert m'[1..] == m[1..] + [r];
    FoldAllSnoc(CreateState(m[0]), m[1..], r, p);
  }

  /** The first record of a new region, stored unfolded, summarises it. */
  lemma SummaryNew(recs: seq<Record>, r: Record, p: Parsers)
    requires Matching(recs, CodeOf(r)) == []
    ensures RegionSummary(CreateState(r), recs + [r], p)
  {
    MatchingSnoc(recs, r, CodeOf(r));
    assert Matching(recs + [r], CodeOf(r)) == [r];
  }

  /** The regions of the slots below `k`, none with the new record's code, keep their summaries. */
  lemma OthersSummarised(t: Table, recs: seq<Record>, r: Record, p: Parsers, k: nat)
    requires k <= FirstFree(t)
    requires AllSummarised(t, recs, p)
    requires forall i :: 0 <= i < k ==> t[i].value.code != CodeOf(r)
    ensures forall i :: 0 <= i < k ==> RegionSummary(t[i].value, recs + [r], p)
  {
    forall i | 0 <= i < k
      ensures RegionSummary(t[i].value, recs + [r], p)
    {
      SummaryOther(t[i].value, recs, r, p);
    }
  }

  /** A code already in the table leaves the first-seen codes as they were. */
  lemma SeenKnownCode(t: Table, recs: seq<Record>, r: Record, j: nat)
    requires CodesInOrder(t, FirstSeen(RecordCodes(recs)))
    requires j < FirstFree(t) && t[j].value.code == CodeOf(r)
    ensures FirstSeen(RecordCodes(recs + [r])) == FirstSeen(RecordCodes(recs))
  {
    assert CodeOf(r) == FirstSeen(RecordCodes(recs))[j];
    SeenSnoc(recs, r);
  }

  /** Folding the record into the slot of its code keeps every slot a summary. */
  lemma FoldedSummarised(t: Table, recs: seq<Record>, r: Record, p: Parsers, j: nat)
    requires WellFormed(t)
    requires AllSummarised(t, recs, p)
    requires j < |t| && t[j].Some? && t[j].value.code == CodeOf(r)
    ensures AllSummarised(Insert(t, r, p), recs + [r], p)
  {
    InsertExisting(t, r, p, j);
    var u := Insert(t, r, p);
    forall i | 0 <= i < FirstFree(u)
      ensures RegionSummary(u[i].value, recs + [r], p)
    {
      if i == j {
        SummaryFold(t[j].value, recs, r, p);
      } else {
        SummaryOther(t[i].value, recs, r, p);
      }
    }
  }

  /** Case of InsertSummarises: the record's code already has a slot. */
  lemma InsertSummarisesExisting(t: Table, recs: seq<Record>, r: Record, p: Parsers, j: nat)
    requires Summarises(t, recs, p)
    requires j < |t| && t[j].Some? && t[j].value.code == CodeOf(r)
    ensures Summarises(Insert(t, r, p), recs + [r], p)
  {
    var u := Insert(t, r, p);
    InsertExisting(t, r, p, j);
    InsertPreservesWellFormed(t, r, p);
    SeenKnownCode(t, recs, r, j);
    FoldedSummarised(t, recs, r, p, j);
  }

  /** A code not in a table with a NULL slot left is new: it joins the first-seen codes at the end. */
  lemma SeenNewCode(t: Table, recs: seq<Record>, r: Record)
    requires CodesInOrder(t, FirstSeen(RecordCodes(recs)))
    requires !HasCode(t, CodeOf(r))
    requires FirstFree(t) < |t|
    ensures FirstFree(t) == |FirstSeen(RecordCodes(recs))|
    ensures CodeOf(r) !in FirstSeen(RecordCodes(recs))
    ensures FirstSeen(RecordCodes(recs + [r])) == FirstSeen(RecordCodes(recs)) + [CodeOf(r)]
  {
    SeenSnoc(recs, r);
  }

  /** Storing the new region's fresh accumulator in the first NULL slot keeps every slot a summary. */
  lemma StoredSummarised(t: Table, recs: seq<Record>, r: Record, p: Parsers)
    requires WellFormed(t)
    requires AllSummarised(t, recs, p)
    requires FirstFree(t) < |t|
    requires !HasCode(t, CodeOf(r))
    requires Matching(recs, CodeOf(r)) == []
    ensures AllSummarised(Insert(t, r, p), recs + [r], p)
  {
    InsertNewRegion(t, r, p);
    var f := FirstFree(t);
    var u := Insert(t, r, p);
    forall i | 0 <= i < FirstFree(u)
      ensures RegionSummary(u[i].value, recs + [r], p)
    {
      if i == f {
        SummaryNew(recs, r, p);
      } else {
        SummaryOther(t[i].value, recs, r, p);
      }
    }
  }

  /** Case of InsertSummarises: a new code and a NULL slot left. */
  lemma InsertSummarisesNew(t: Table, recs: seq<Record>, r: Record, p: Parsers)
    requires Summarises(t, recs, p)
    requires !HasCode(t, CodeOf(r))
    requires FirstFree(t) < |t|
    ensures Summarises(Insert(t, r, p), recs + [r], p)
  {
    var c := CodeOf(r);
    InsertNewRegion(t, r, p);
    InsertPreservesWellFormed(t, r, p);
    SeenNewCode(t, recs, r);
    MatchingEmpty(recs, c);
    StoredSummarised(t, recs, r, p);
  }

  /** With every slot taken, whatever the new code does to the first-seen codes, the table still lists their first |t|. */
  lemma SeenFullTable(t: Table, recs: seq<Record>, r: Record)
    requires CodesInOrder(t, FirstSeen(RecordCodes(recs)))
    requires FirstFree(t) == |t|
    ensures CodesInOrder(t, FirstSeen(RecordCodes(recs + [r])))
  {
    var fs := FirstSeen(RecordCodes(recs));
    var fs' := FirstSeen(RecordCodes(recs + [r]));
    SeenSnoc(recs, r);
    assert forall i :: 0 <= i < |fs| ==> fs'[i] == fs[i];
  }

  /** Case of InsertSummarises: a new code and every slot taken. */
  lemma InsertSummarisesFull(t: Table, recs: seq<Record>, r: Record, p: Parsers)
    requires Summarises(t, recs, p)
    requires !HasCode(t, CodeOf(r))
    requires FirstFree(t) == |t|
    ensures Summarises(Insert(t, r, p), recs + [r], p)
  {
    InsertFull(t, r, p);
    SeenFullTable(t, recs, r);
    OthersSummarised(t, recs, r, p, |t|);
  }

  /** Every accepted record keeps the table a summary of the records so far. */
  lemma InsertSummarises(t: Table, recs: seq<Record>, r: Record, p: Parsers)
    requires Summarises(t, recs, p)
    ensures Summarises(Insert(t, r, p), recs + [r], p)
  {
    if HasCode(t, CodeOf(r)) {
      var j :| 0 <= j < |t| && t[j].Some? && t[j].value.code == CodeOf(r);
      InsertSummarisesExisting(t, recs, r, p, j);
    } else if FirstFree(t) < |t| {
      InsertSummarisesNew(t, recs, r, p);
    } else {
      InsertSummarisesFull(t, recs, r, p);
    }
  }

  /** The records a line contributes: its tokens when there are nine, nothing otherwise. */
  function LineRecords(line: string): seq<Record>
  {
    var tokens := LineTokens(line);
    if |tokens| < FieldCount then [] else [tokens]
  }

  /** One line keeps the table a summary of the records read so far. */
  lemma StepSummarises(t: Table, recs: seq<Record>, line: string, p: Parsers)
    requires Summarises(t, recs, p)
    ensures Summarises(Step(t, line, p), recs + LineRecords(line), p)
  {
    var tokens := LineTokens(line);
    if |tokens| < FieldCount {
      assert recs + LineRecords(line) == recs;
    } else {
      InsertSummarises(t, recs, tokens, p);
    }
  }

  /** Starting from the all-NULL table, the table summarises the records of the lines read so far. */
  lemma {:induction false} RunSummarises(lines: seq<string>, p: Parsers)
    ensures Summarises(Run(EmptyTable(), lines, p), Records(lines), p)
    decreases |lines|
  {
    if lines == [] {
      FirstFreeIs(EmptyTable(), 0);
    } else {
      var init := lines[..|lines| - 1];
      var last := lines[|lines| - 1];
      RunSummarises(init, p);
      assert Run(EmptyTable(), lines, p) == Step(Run(EmptyTable(), init, p), last, p);
      assert Records(lines) == Records(init) + LineRecords(last);
      StepSummarises(Run(EmptyTable(), init, p), Records(init), last, p);
    }
  }

  /** The totals a region's accumulator must hold: its records after the first, counted and summed. */
  predicate RegionTotals(a: ClimateInfo, recs: seq<Record>, p: Parsers)
  {
    var m := Matching(recs, a.code);
    && |m| >= 1
    && a.numRecords == |m| - 1
    && a.humiditySum == HumidityTotal(m[1..], p)
    && a.temperatureSum == TemperatureTotal(m[1..], p)
    && a.cloudCoverSum == CloudCoverTotal(m[1..], p)
    && a.lightningStrikes == LightningTotal(m[1..], p)
    && a.snowCoverRecords == SnowTotal(m[1..], p)
  }

  lemma SummaryTotals(a: ClimateInfo, recs: seq<Record>, p: Parsers)
    requires RegionSummary(a, recs, p)
    ensures RegionTotals(a, recs, p)
  {
    var m := Matching(recs, a.code);
    FoldAllTotals(CreateState(m[0]), m[1..], p);
  }

  /**
   * What analyze_file leaves in a table that started all NULL: the
   * occupied slots form a prefix, hold distinct codes in the order the
   * codes first appear among the accepted lines (the first NUM_STATES of
   * them), and each region's count is its number of accepted lines minus
   * one, its sums those of its lines after the first.
   */
  lemma AnalyzeFromEmpty(lines: seq<string>, p: Parsers)
    ensures var t := Run(EmptyTable(), lines, p);
      var recs := Records(lines);
      var fs := FirstSeen(RecordCodes(recs));
      && |t| == NumStates
      && WellFormed(t)
      && FirstFree(t) == Min(NumStates, |fs|)
      && (forall i :: 0 <= i < FirstFree(t) ==> t[i].value.code == fs[i])
      && (forall i :: FirstFree(t) <= i < |t| ==> t[i].None?)
      && (forall i :: 0 <= i < FirstFree(t) ==> RegionTotals(t[i].value, recs, p))
  {
    var t := Run(EmptyTable(), lines, p);
    var recs := Records(lines);
    assert Summarises(t, recs, p) by {
      RunSummarises(lines, p);
    }
    assert |t| == NumStates;
    forall i | FirstFree(t) <= i < |t|
      ensures t[i].None?
    {
      assert t[FirstFree(t)].None?;
    }
    forall i | 0 <= i < FirstFree(t)
      ensures RegionTotals(t[i].value, recs, p)
    {
      SummaryTotals(t[i].value, recs, p);
    }
  }

  /**
   * The extremes of a region after analyze_file, when at least one of its
   * records was folded and all folded temperatures are finite doubles: the
   * maximum and minimum bound every folded temperature and carry the
   * timestamp of the first folded record reaching them.
   */
  lemma RegionExtremes(lines: seq<string>, p: Parsers, i: nat)
    requires i < FirstFree(Run(EmptyTable(), lines, p))
    requires var m := Matching(Records(lines), Run(EmptyTable(), lines, p)[i].value.code);
      |m| >= 2 && forall j :: 1 <= j < |m| ==> -DblMax < Temperature(m[j], p) < DblMax
    ensures var t := Run(EmptyTable(), lines, p);
      var a := t[i].value;
      var later := Matching(Records(lines), a.code)[1..];
      && (forall j :: 0 <= j < |later| ==> Temperature(later[j], p) <= a.maxTemp)
      && (forall j :: 0 <= j < |later| ==> Temperature(later[j], p) >= a.minTemp)
      && (exists k :: 0 <= k < |later| && FirstMaxAt(later, p, k, NegDblMax, a))
      && (exists k :: 0 <= k < |later| && FirstMinAt(later, p, k, DblMax, a))
  {
    var t := Run(EmptyTable(), lines, p);
    assert RegionSummary(t[i].value, Records(lines), p) by {
      RunSummarises(lines, p);
    }
    SummaryExtremes(t[i].value, Matching(Records(lines), t[i].value.code), p);
  }

  /** The extremes of an accumulator built from the first of `m` and folded over the rest. */
  lemma SummaryExtremes(a: ClimateInfo, m: seq<Record>, p: Parsers)
    requires |m| >= 2 && a == FoldAll(CreateState(m[0]), m[1..], p)
    requires forall j :: 1 <= j < |m| ==> -DblMax < Temperature(m[j], p) < DblMax
    ensures var later := m[1..];
      && (forall j :: 0 <= j < |later| ==> Temperature(later[j], p) <= a.maxTemp)
      && (forall j :: 0 <= j < |later| ==> Temperature(later[j], p) >= a.minTemp)
      && (exists k :: 0 <= k < |later| && FirstMaxAt(later, p, k, NegDblMax, a))
      && (exists k :: 0 <= k < |later| && FirstMinAt(later, p, k, DblMax, a))
  {
    var later := m[1..];
    assert forall j :: 0 <= j < |later| ==> -DblMax < Temperature(later[j], p) < DblMax by {
      assert forall j :: 0 <= j < |later| ==> later[j] == m[j + 1];
    }
    FreshExtremes(m[0], later, p);
  }

  /**
   * Whether a line changes the table depends only on its non-empty
   * tab-separated fields: fewer than nine leave the table as it was,
   * otherwise the first nine are inserted.
   */
  lemma LineStep(t: Table, line: string, p: Parsers)
    ensures var fields := NonEmpty(Fields(line));
      && (|fields| < FieldCount ==> Step(t, line, p) == t)
      && (|fields| >= FieldCount ==> Step(t, line, p) == Insert(t, fields[..FieldCount], p))
  {
    var fields := NonEmpty(Fields(line));
    var tokens := LineTokens(line);
    assert |tokens| == Min(FieldCount, |fields|) && tokens == fields[..|tokens|] by {
      LineTokensAreFirstFields(line);
    }
    assert Step(t, line, p) == if |tokens| < FieldCount then t else Insert(t, tokens, p);
  }

  lemma RunSnoc(t: Table, lines: seq<string>, line: string, p: Parsers)
    ensures Run(t, lines + [line], p) == Step(Run(t, lines, p), line, p)
  {
    assert (lines + [line])[..|lines|] == lines;
  }

  /** Handling two files one after the other is handling their lines joined: the table carries over. */
  lemma {:induction false} RunAppend(t: Table, a: seq<string>, b: seq<string>, p: Parsers)
    ensures Run(t, a + b, p) == Run(Run(t, a, p), b, p)
    decreases |b|
  {
    if b == [] {
      assert a + b == a;
    } else {
      var init := b[..|b| - 1];
      var last := b[|b| - 1];
      assert b == init + [last];
      assert a + b == (a + init) + [last];
      RunAppend(t, a, init, p);
      RunSnoc(t, a + init, last, p);
      RunSnoc(Run(t, a, p), init, last, p);
    }
  }

  lemma RunNext(t: Table, lines: seq<string>, i: nat, p: Parsers)
    requires i < |lines|
    ensures Run(t, lines[..i + 1], p) == Step(Run(t, lines[..i], p), lines[i], p)
  {
    assert lines[..i + 1][..i] == lines[..i];
  }

  /**
   * analyze_file: read the lines in order, tokenise each, skip it when it
   * has fewer than nine tokens, otherwise look up or insert its region.
   */
  method AnalyzeFile(states: Table, lines: seq<string>, p: Parsers) returns (result: Table)
    ensures result == Run(states, lines, p)
    ensures |result| == |states|
    ensures WellFormed(states) ==> WellFormed(result)
  {
    result := states;
    var i := 0;
    while i < |lines|
      invariant 0 <= i <= |lines|
      invariant result == Run(states, lines[..i], p)
      invariant WellFormed(states) ==> WellFormed(result)
    {
      var tokens := TokenizeLine(lines[i]);
      if |tokens| >= FieldCount {
        result := AnalyzeRecord(result, tokens, p);
      }
      RunNext(states, lines, i, p);
      i := i + 1;
    }
    assert lines[..|lines|] == lines;
  }
}
