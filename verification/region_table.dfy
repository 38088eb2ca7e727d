/**
 * The fixed array of region accumulators that analyze_file fills: slots
 * are NULL or point to a climate_info, a linear scan finds the slot with a
 * record's code or claims the first NULL slot, and a full table drops new
 * codes.
 */
module RegionTable {
  import opened Base
  import opened Climate

  /** NUM_STATES: the number of slots main hands to analyze_file. */
  const NumStates: nat := 50

  /** The `states` array; None is a NULL slot. */
  type Table = seq<Option<ClimateInfo>>

  /** The table main starts with: every slot NULL. */
  function EmptyTable(): (t: Table)
    ensures |t| == NumStates
    ensures forall i :: 0 <= i < |t| ==> t[i].None?
  {
    seq(NumStates, _ => None)
  }

  /** No occupied slot follows a NULL one: the occupied slots form a prefix. */
  predicate PrefixFilled(t: Table)
  {
    forall i, j :: 0 <= i < j < |t| && t[j].Some? ==> t[i].Some?
  }

  /** No two occupied slots hold the same code. */
  predicate DistinctCodes(t: Table)
  {
    forall i, j :: 0 <= i < j < |t| && t[i].Some? && t[j].Some? ==> t[i].value.code != t[j].value.code
  }

  predicate WellFormed(t: Table)
  {
    PrefixFilled(t) && DistinctCodes(t)
  }

  /** Some occupied slot holds `code`. */
  predicate HasCode(t: Table, code: string)
  {
    exists j :: 0 <= j < |t| && t[j].Some? && t[j].value.code == code
  }

  /** The index of the first NULL slot, or |t| when every slot is occupied. */
  function FirstFree(t: Table): (k: nat)
    ensures k <= |t|
    ensures forall i :: 0 <= i < k ==> t[i].Some?
    ensures k < |t| ==> t[k].None?
  {
    if t == [] || t[0].None? then 0 else 1 + FirstFree(t[1..])
  }

  /**
   * Where the scan of analyze_file stops for `code`: the first slot that is
   * NULL or holds `code`, or |t| when there is none.
   */
  function SlotFor(t: Table, code: string): (k: nat)
    ensures k <= |t|
    ensures forall i :: 0 <= i < k ==> t[i].Some? && t[i].value.code != code
    ensures k < |t| ==> t[k].None? || t[k].value.code == code
  {
    if t == [] || t[0].None? || t[0].value.code == code then 0 else 1 + SlotFor(t[1..], code)
  }

  /**
   * update_state_info: folds the record into slot `index` and leaves every
   * other slot as it was.
   */
  function UpdateStateInfo(states: Table, index: nat, r: Record, p: Parsers): (u: Table)
    requires index < |states| && states[index].Some?
    ensures |u| == |states|
    ensures forall j :: 0 <= j < |u| && j != index ==> u[j] == states[j]
    ensures u[index].Some? && u[index].value == Accumulate(states[index].value, r, p)
    ensures u[index].value.numRecords == states[index].value.numRecords + 1
  {
    states[index := Some(Accumulate(states[index].value, r, p))]
  }

  /**
   * One accepted line, as the loop of analyze_file handles it: a fresh
   * accumulator is built from the record; the scan stores it in the first
   * NULL slot, or folds the record into the slot already holding its code,
   * or does nothing when neither exists.
   */
  function Insert(t: Table, r: Record, p: Parsers): (u: Table)
    ensures |u| == |t|
    ensures forall j :: 0 <= j < |t| && j != SlotFor(t, CodeOf(r)) ==> u[j] == t[j]
    ensures SlotFor(t, CodeOf(r)) < |t| ==>
      var k := SlotFor(t, CodeOf(r));
      u[k].Some? && u[k].value.code == CodeOf(r)
    ensures SlotFor(t, CodeOf(r)) == |t| ==> u == t
  {
    var s := CreateState(r);
    var k := SlotFor(t, s.code);
    if k == |t| then t
    else if t[k].None? then t[k := Some(s)]
    else UpdateStateInfo(t, k, r, p)
  }

  /** In a well-formed table, a code's slot is found by the scan. */
  lemma SlotForExisting(t: Table, code: string, j: nat)
    requires WellFormed(t)
    requires j < |t| && t[j].Some? && t[j].value.code == code
    ensures SlotFor(t, code) == j
  {
  }

  /** In a well-formed table, the scan for an absent code stops at the first NULL slot. */
  lemma SlotForAbsent(t: Table, code: string)
    requires PrefixFilled(t)
    requires !HasCode(t, code)
    ensures SlotFor(t, code) == FirstFree(t)
  {
  }

  /** FirstFree is the one index below which every slot is occupied and at which a slot is NULL (or the end). */
  lemma FirstFreeIs(t: Table, k: nat)
    requires k <= |t|
    requires forall i :: 0 <= i < k ==> t[i].Some?
    requires k < |t| ==> t[k].None?
    ensures FirstFree(t) == k
  {
  }

  /** A record whose code is already in the table is folded into that slot only. */
  lemma InsertExisting(t: Table, r: Record, p: Parsers, j: nat)
    requires WellFormed(t)
    requires j < |t| && t[j].Some? && t[j].value.code == CodeOf(r)
    ensures Insert(t, r, p) == UpdateStateInfo(t, j, r, p)
    ensures j < FirstFree(t) && FirstFree(Insert(t, r, p)) == FirstFree(t)
  {
    SlotForExisting(t, CodeOf(r), j);
    var u := Insert(t, r, p);
    FirstFreeIs(u, FirstFree(t));
  }

  /**
   * A record with a new code, while a NULL slot remains, fills the first
   * NULL slot with an accumulator holding no folded record; nothing else
   * changes.
   */
  lemma InsertNewRegion(t: Table, r: Record, p: Parsers)
    requires WellFormed(t)
    requires !HasCode(t, CodeOf(r))
    requires FirstFree(t) < |t|
    ensures var u := Insert(t, r, p);
      && u == t[FirstFree(t) := Some(CreateState(r))]
      && u[FirstFree(t)].value.numRecords == 0
      && FirstFree(u) == FirstFree(t) + 1
  {
    SlotForAbsent(t, CodeOf(r));
    var u := Insert(t, r, p);
    var f := FirstFree(t);
    assert u == t[f := Some(CreateState(r))];
    assert f + 1 < |t| ==> u[f + 1].None?;
    FirstFreeIs(u, f + 1);
  }

  /** When every slot holds another code, a record with a new code changes nothing. */
  lemma InsertFull(t: Table, r: Record, p: Parsers)
    requires forall i :: 0 <= i < |t| ==> t[i].Some?
    requires !HasCode(t, CodeOf(r))
    ensures Insert(t, r, p) == t
  {
    var k := SlotFor(t, CodeOf(r));
    if k < |t| {
      assert t[k].Some? && t[k].value.code == CodeOf(r);
    }
  }

  /** Every accepted line keeps the occupied slots a prefix with pairwise distinct codes. */
  lemma InsertPreservesWellFormed(t: Table, r: Record, p: Parsers)
    requires WellFormed(t)
    ensures WellFormed(Insert(t, r, p))
  {
    var code := CodeOf(r);
    if HasCode(t, code) {
      var j :| 0 <= j < |t| && t[j].Some? && t[j].value.code == code;
      InsertExisting(t, r, p, j);
    } else if FirstFree(t) < |t| {
      InsertNewRegion(t, r, p);
    } else {
      InsertFull(t, r, p);
    }
  }

  /**
   * The slot loop of analyze_file, from create_state to the break: scan
   * the slots in order, claim the first NULL one or update the one holding
   * the code.
   */
  method AnalyzeRecord(states: Table, r: Record, p: Parsers) returns (result: Table)
    ensures result == Insert(states, r, p)
    ensures WellFormed(states) ==> WellFormed(result)
  {
    var state := CreateState(r);
    var code := state.code;
    if WellFormed(states) {
      InsertPreservesWellFormed(states, r, p);
    }
    result := states;
    var i := 0;
    while i < |states|
      invariant 0 <= i <= |states|
      invariant forall j :: 0 <= j < i ==> states[j].Some? && states[j].value.code != code
    {
      if states[i].None? {
        result := states[i := Some(state)];
        return;
      } else if states[i].value.code == code {
        result := UpdateStateInfo(states, i, r, p);
        return;
      }
      i := i + 1;
    }
  }
}
