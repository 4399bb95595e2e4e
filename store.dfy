/**
  The application state `appData = { records }` and the storage slot it is
  saved to under one key. The slot is abstract: it holds the list of records
  last saved, or nothing when no data was ever saved.
 */
module Store {
  import opened Wrappers
  import opened JsStrings
  import opened Records
  import opened Filtering

  /** `loadData`: the saved records, or an empty list when nothing is saved. */
  function Loaded(slot: Option<seq<Record>>): (r: seq<Record>)
    ensures slot.None? ==> r == []
    ensures slot.Some? ==> r == slot.value
  {
    if slot.Some? then slot.value else []
  }

  /** The filter predicate of `deleteRecord`: `r => r.id !== id`. */
  function OtherId(id: int): Record -> bool {
    (r: Record) => r.id != id
  }

  /** The records left by deleting `id`: all those with another id, in order. */
  function WithoutId(rs: seq<Record>, id: int): (r: seq<Record>)
    ensures |r| <= |rs|
  {
    Filter(OtherId(id), rs)
  }

  /**
    Deleting removes every record with that id, however many there are (ids
    are millisecond timestamps and need not be unique), and no other record.
   */
  lemma DeleteRemovesExactly(rs: seq<Record>, id: int, x: Record)
    ensures x in WithoutId(rs, id) <==> x in rs && x.id != id
    ensures multiset(WithoutId(rs, id))[x] == if x.id == id then 0 else multiset(rs)[x]
  {
    FilterMembership(OtherId(id), rs, x);
    FilterCount(OtherId(id), rs, x);
  }

  /**
    The records left keep their relative order: they form a subsequence of
    the old list, and deleting from a concatenation deletes from each part.
   */
  lemma DeleteKeepsOrder(rs: seq<Record>, more: seq<Record>, id: int)
    ensures IsSubsequence(WithoutId(rs, id), rs)
    ensures WithoutId(rs + more, id) == WithoutId(rs, id) + WithoutId(more, id)
  {
    FilterIsSubsequence(OtherId(id), rs);
    FilterConcat(OtherId(id), rs, more);
  }

  /** Deleting changes nothing exactly when no record has that id. */
  lemma DeleteNoMatch(rs: seq<Record>, id: int)
    ensures WithoutId(rs, id) == rs <==> forall k :: 0 <= k < |rs| ==> rs[k].id != id
  {
    FilterKeepsAll(OtherId(id), rs);
  }

  /** Deleting the same id twice is deleting it once. */
  lemma DeleteIdempotent(rs: seq<Record>, id: int)
    ensures WithoutId(WithoutId(rs, id), id) == WithoutId(rs, id)
  {
    FilterIdempotent(OtherId(id), rs);
  }

  /** Deleting a record just created under a fresh id gives back the old list. */
  lemma DeleteUndoesCreate(rs: seq<Record>, r: Record)
    requires forall k :: 0 <= k < |rs| ==> rs[k].id != r.id
    ensures WithoutId([r] + rs, r.id) == rs
  {
    FilterConcat(OtherId(r.id), [r], rs);
    FilterKeepsAll(OtherId(r.id), rs);
    assert Filter(OtherId(r.id), [r]) == [];
  }

  class RecordStore {
    /** `appData.records`, newest first. */
    var records: seq<Record>
    /** The storage slot: the records last saved, or None when nothing was saved. */
    var slot: Option<seq<Record>>

    /** Loading the slot again would give back the records in memory. */
    ghost predicate Valid()
      reads this
    {
      Loaded(slot) == records
    }

    /** `loadData()` at start-up, from whatever the slot holds. */
    constructor Load(stored: Option<seq<Record>>)
      ensures slot == stored && records == Loaded(stored)
      ensures Valid()
    {
      slot := stored;
      records := Loaded(stored);
    }

    /** `saveData()`: the slot now holds the records in memory. */
    method Save()
      modifies this
      ensures records == old(records) && slot == Some(records)
      ensures Valid()
    {
      slot := Some(records);
    }

    /**
      The submit handler: validate the three fields; when they pass, put the
      new record, stamped with `now` as id and dated `today`, in front of the
      list and save. When they do not, nothing changes, not even the slot.
     */
    method Submit(registrantField: JsString, kindField: JsString, amountField: JsString,
                  now: int, today: YearMonth)
      requires Valid()
      modifies this
      ensures var v := Validate(registrantField, kindField, amountField);
        v.None? ==> records == old(records) && slot == old(slot)
      ensures var v := Validate(registrantField, kindField, amountField);
        v.Some? ==> records == [NewRecord(v.value, now, today)] + old(records) && slot == Some(records)
      ensures Valid()
    {
      var v := Validate(registrantField, kindField, amountField);
      if v.None? {
        return;
      }
      var newRecord := NewRecord(v.value, now, today);
      records := [newRecord] + records;
      Save();
    }

    /**
      `deleteRecord(id)` once the user has answered the confirmation: keep the
      records with another id and save. Declining changes nothing.
     */
    method Delete(id: int, confirmed: bool)
      requires Valid()
      modifies this
      ensures !confirmed ==> records == old(records) && slot == old(slot)
      ensures confirmed ==> records == WithoutId(old(records), id) && slot == Some(records)
      ensures Valid()
    {
      if !confirmed {
        return;
      }
      records := WithoutId(records, id);
      Save();
    }

    /** The clear-history button once confirmed: no records, and that is saved. */
    method ClearAll(confirmed: bool)
      requires Valid()
      modifies this
      ensures !confirmed ==> records == old(records) && slot == old(slot)
      ensures confirmed ==> records == [] && slot == Some([])
      ensures Valid()
    {
      if !confirmed {
        return;
      }
      records := [];
      Save();
    }
  }
}
