/**
 * `AddressBook` from classes.py: a `UserDict` from name to record, whose
 * iteration protocol is overridden to hand out pages of ten records. The
 * dictionary keeps insertion order: `keys` lists the names in that order and
 * `records` maps each to its record. The paging cursor (`current_page`,
 * `page_size`, `start_index`, `end_index`) exists only once `__iter__` has run,
 * which `iterating` records.
 */
module AddressBooks {
  import opened Lists
  import opened Paging
  import opened Records

  datatype BookOutcome = Done | KeyNotFound

  datatype NextResult =
    | Page(records: seq<Record>)
    | StopIteration
    | MissingCursor   // `__next__` before `__iter__`: the AttributeError of the source

  /** The records of `keys`, in that order (`list(self.data.values())`). */
  function ValuesOf(keys: seq<string>, records: map<string, Record>): (vs: seq<Record>)
    requires forall k | k in keys :: k in records
    ensures |vs| == |keys|
    ensures forall i | 0 <= i < |keys| :: vs[i] == records[keys[i]]
  {
    if keys == [] then [] else [records[keys[0]]] + ValuesOf(keys[1..], records)
  }

  /** The key order after `d[k] = v`: an existing key keeps its place, a new one goes last. */
  function InsertKey(keys: seq<string>, k: string): (r: seq<string>)
    ensures Elements(r) == Elements(keys) + {k}
    ensures NoDuplicates(keys) ==> NoDuplicates(r)
    ensures k in keys ==> r == keys
    ensures k !in keys ==> r == keys + [k]
  {
    if k in keys then keys
    else
      assert Elements(keys + [k]) == Elements(keys) + {k};
      keys + [k]
  }

  class AddressBook {
    var keys: seq<string>
    var records: map<string, Record>
    var iterating: bool
    var currentPage: int
    var pageSize: int
    var startIndex: int
    var endIndex: int

    ghost predicate Valid()
      reads this
    {
      NoDuplicates(keys) && Elements(keys) == records.Keys
      && (iterating ==>
            pageSize == PageSize && 0 <= startIndex
            && endIndex == startIndex + pageSize
            && startIndex == (currentPage - 1) * pageSize)
    }

    /** The records in insertion order. */
    function Values(): seq<Record>
      reads this
      requires Valid()
    {
      ValuesOf(keys, records)
    }

    /** The pages `__next__` has yet to hand out. */
    ghost function RemainingPages(): seq<seq<Record>>
      reads this
      requires Valid() && iterating
    {
      Pages(Values(), startIndex)
    }

    constructor ()
      ensures Valid() && keys == [] && records == map[] && !iterating
    {
      keys, records := [], map[];
      iterating := false;
      currentPage, pageSize, startIndex, endIndex := 0, 0, 0, 0;
    }

    /** `add_record`: stores the record under its own name, overwriting in place. */
    method AddRecord(record: Record)
      requires Valid()
      modifies this
      ensures Valid()
      ensures records == old(records)[record.name := record]
      ensures keys == InsertKey(old(keys), record.name)
      ensures iterating == old(iterating) && startIndex == old(startIndex) && endIndex == old(endIndex)
      ensures currentPage == old(currentPage) && pageSize == old(pageSize)
    {
      keys := InsertKey(keys, record.name);
      records := records[record.name := record];
    }

    /** `delete_record`: `del self[name]`, a KeyError when the name is absent. */
    method DeleteRecord(name: string) returns (r: BookOutcome)
      requires Valid()
      modifies this
      ensures Valid()
      ensures name !in old(records) ==> r == KeyNotFound && keys == old(keys) && records == old(records)
      ensures name in old(records) ==>
                r == Done && records == old(records) - {name} && keys == RemoveFirst(old(keys), name)
                && |records| == |old(records)| - 1
      ensures iterating == old(iterating) && startIndex == old(startIndex) && endIndex == old(endIndex)
      ensures currentPage == old(currentPage) && pageSize == old(pageSize)
    {
      if name !in records {
        return KeyNotFound;
      }
      assert name in Elements(keys);
      RemoveFirstElements(keys, name);
      keys := RemoveFirst(keys, name);
      records := records - {name};
      r := Done;
    }

    /**
     * `change_record`: stores `newRecord` under its own name and ignores `name`,
     * so `name` is never removed, even when it differs from the new record's name.
     */
    method ChangeRecord(name: string, newRecord: Record)
      requires Valid()
      modifies this
      ensures Valid()
      ensures records == old(records)[newRecord.name := newRecord]
      ensures keys == InsertKey(old(keys), newRecord.name)
      ensures name in old(records) ==> name in records && records[name] == (if name == newRecord.name then newRecord else old(records)[name])
      ensures iterating == old(iterating) && startIndex == old(startIndex) && endIndex == old(endIndex)
      ensures currentPage == old(currentPage) && pageSize == old(pageSize)
    {
      keys := InsertKey(keys, newRecord.name);
      records := records[newRecord.name := newRecord];
    }

    /** `__iter__`: resets the cursor to the first page. */
    method Iter()
      requires Valid()
      modifies this
      ensures Valid() && iterating
      ensures currentPage == 1 && pageSize == PageSize && startIndex == 0 && endIndex == PageSize
      ensures keys == old(keys) && records == old(records)
      ensures RemainingPages() == Pages(Values(), 0)
    {
      iterating := true;
      currentPage := 1;
      pageSize := PageSize;
      startIndex := (currentPage - 1) * pageSize;
      endIndex := startIndex + pageSize;
    }

    /** `__next__`: hands out the next slice of at most ten records and advances the cursor. */
    method Next() returns (r: NextResult)
      requires Valid()
      modifies this
      ensures Valid()
      ensures keys == old(keys) && records == old(records) && iterating == old(iterating)
      ensures !iterating ==> r == MissingCursor && startIndex == old(startIndex)
      ensures iterating && old(startIndex) >= |keys| ==>
                r == StopIteration && startIndex == old(startIndex) && currentPage == old(currentPage)
      ensures iterating && old(startIndex) < |keys| ==>
                r == Page(Values()[old(startIndex)..Min(old(endIndex), |keys|)])
                && startIndex == old(endIndex) && currentPage == old(currentPage) + 1
      ensures iterating ==>
                (if old(RemainingPages()) == [] then r == StopIteration && RemainingPages() == []
                 else r == Page(old(RemainingPages())[0]) && RemainingPages() == old(RemainingPages())[1..])
    {
      if !iterating {
        return MissingCursor;
      }
      var values := ValuesOf(keys, records);
      if startIndex >= |values| {
        return StopIteration;
      }
      r := Page(values[startIndex..Min(endIndex, |values|)]);
      startIndex := endIndex;
      endIndex := startIndex + pageSize;
      currentPage := currentPage + 1;
    }
  }
}
