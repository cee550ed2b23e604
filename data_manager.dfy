/**
 * The row logic of data_manager.py without the file handling: `open_file`
 * turns CSV rows into an address book, one key at a time in file order, and
 * `write_to_csv` turns every record of a book into a row.
 */
module DataManager {
  import opened Wrappers
  import opened Validators
  import opened Lists
  import opened PhoneCell
  import opened Records
  import opened AddressBooks

  /** One CSV row: the "Name", "Phone numbers" and "Birthday" cells. */
  datatype Row = Row(name: string, phones: string, birthday: string)

  /** The names of the rows, in file order. */
  function Names(rows: seq<Row>): (ns: seq<string>)
    ensures |ns| == |rows|
  {
    seq(|rows|, i requires 0 <= i < |rows| => rows[i].name)
  }

  /** The names that occur in the rows. */
  function NameSet(rows: seq<Row>): (s: set<string>)
    ensures forall i | 0 <= i < |rows| :: rows[i].name in s
  {
    if rows == [] then {} else {rows[0].name} + NameSet(rows[1..])
  }

  /** The key order after inserting the names of `rows`, one by one, into `keys`. */
  function KeysFrom(keys: seq<string>, rows: seq<Row>): seq<string>
    decreases |rows|
  {
    if rows == [] then keys else KeysFrom(InsertKey(keys, rows[0].name), rows[1..])
  }

  /** The rows bound to each name after storing `rows`, one by one, over `source`. */
  function RowsFrom(source: map<string, Row>, rows: seq<Row>): map<string, Row>
    decreases |rows|
  {
    if rows == [] then source else RowsFrom(source[rows[0].name := rows[0]], rows[1..])
  }

  /** The key order `open_file` produces. */
  function KeysAfter(rows: seq<Row>): seq<string> {
    KeysFrom([], rows)
  }

  /** The row each name ends up with in the book `open_file` produces. */
  function LastRows(rows: seq<Row>): map<string, Row> {
    RowsFrom(map[], rows)
  }

  /** The last row carrying `name`. */
  function LastRowWith(rows: seq<Row>, name: string): (i: nat)
    requires name in NameSet(rows)
    ensures i < |rows| && rows[i].name == name
    ensures forall j | i < j < |rows| :: rows[j].name != name
  {
    if name in NameSet(rows[1..]) then 1 + LastRowWith(rows[1..], name)
    else
      assert forall j | 1 <= j < |rows| :: rows[j].name == rows[1..][j - 1].name;
      0
  }

  /** The birthday cell: the csv module writes Python's None as an empty cell. */
  function BirthdayCell(birthday: Option<string>): (cell: string)
    ensures IsValidDate(cell) <==> birthday.Some? && IsValidDate(birthday.value)
  {
    match birthday
    case None => RejectsAbsentBirthday(); ""
    case Some(v) => v
  }

  /** The row `write_to_csv` emits for a record. */
  function RowOf(r: Record): (row: Row)
    reads r
    ensures row.name == r.name
  {
    Row(r.name, EncodePhones(r.phones), BirthdayCell(r.birthday))
  }

  /** The record one row becomes: nothing is validated on the way in. */
  predicate LoadedFrom(r: Record, row: Row)
    reads r
  {
    r.name == row.name && r.phones == DecodePhones(row.phones) && r.birthday == Some(row.birthday)
  }

  /** Every record of `records` was built from the row `source` gives for its name. */
  predicate AllLoadedFrom(records: map<string, Record>, source: map<string, Row>)
    reads set name | name in records :: records[name]
  {
    forall name | name in records :: name in source && LoadedFrom(records[name], source[name])
  }

  /** `open_file`: every row becomes a record stored under its name, later rows overwriting earlier ones. */
  method LoadRows(rows: seq<Row>) returns (book: AddressBook)
    ensures fresh(book) && book.Valid() && !book.iterating
    ensures book.keys == KeysAfter(rows)
    ensures book.records.Keys == LastRows(rows).Keys
    ensures AllLoadedFrom(book.records, LastRows(rows))
  {
    book := new AddressBook();
    ghost var source: map<string, Row> := map[];
    var n := 0;
    while n < |rows|
      invariant 0 <= n <= |rows|
      invariant book.Valid() && !book.iterating
      invariant KeysFrom(book.keys, rows[n..]) == KeysAfter(rows)
      invariant RowsFrom(source, rows[n..]) == LastRows(rows)
      invariant book.records.Keys == source.Keys
      invariant forall name | name in book.records :: name in source && LoadedFrom(book.records[name], source[name])
    {
      var row := rows[n];
      var record := new Record(row.name, DecodePhones(row.phones), Some(row.birthday));
      book.AddRecord(record);
      assert rows[n..][1..] == rows[n + 1..];
      source := source[row.name := row];
      n := n + 1;
    }
  }

  /**
   * Inserting the rows' names keeps the keys duplicate-free, and the keys are
   * then those already there plus every name of the rows.
   */
  lemma {:induction false} KeysFromElements(keys: seq<string>, rows: seq<Row>)
    requires NoDuplicates(keys)
    ensures NoDuplicates(KeysFrom(keys, rows))
    ensures Elements(KeysFrom(keys, rows)) == Elements(keys) + NameSet(rows)
    decreases |rows|
  {
    if rows != [] {
      KeysFromElements(InsertKey(keys, rows[0].name), rows[1..]);
    }
  }

  /** After loading, the book holds one key per distinct name of the file, and no other. */
  lemma LoadedKeys(rows: seq<Row>)
    ensures NoDuplicates(KeysAfter(rows)) && Elements(KeysAfter(rows)) == NameSet(rows)
  {
    KeysFromElements([], rows);
  }

  /** A name already present keeps its position; new names follow in file order. */
  lemma {:induction false} KeysFromDistinct(keys: seq<string>, rows: seq<Row>)
    requires NoDuplicates(keys + Names(rows))
    ensures KeysFrom(keys, rows) == keys + Names(rows)
    decreases |rows|
  {
    if rows != [] {
      var k := rows[0].name;
      assert Names(rows) == [k] + Names(rows[1..]);
      assert (keys + Names(rows))[|keys|] == k;
      forall i | 0 <= i < |keys|
        ensures keys[i] != k
      {
        assert (keys + Names(rows))[i] == keys[i];
      }
      assert keys + Names(rows) == (keys + [k]) + Names(rows[1..]);
      KeysFromDistinct(keys + [k], rows[1..]);
    }
  }

  /** Rows with pairwise different names load in file order, one key per row. */
  lemma DistinctNamesKeepOrder(rows: seq<Row>)
    requires NoDuplicates(Names(rows))
    ensures KeysAfter(rows) == Names(rows)
  {
    assert [] + Names(rows) == Names(rows);
    KeysFromDistinct([], rows);
  }

  /**
   * Storing the rows over `source`: a name of the rows ends up with the last row
   * carrying it, any other name keeps what `source` gave it.
   */
  lemma {:induction false} RowsFromAt(source: map<string, Row>, rows: seq<Row>, name: string)
    ensures name in RowsFrom(source, rows) <==> name in source || name in NameSet(rows)
    ensures name in NameSet(rows) ==> RowsFrom(source, rows)[name] == rows[LastRowWith(rows, name)]
    ensures name !in NameSet(rows) && name in source ==> RowsFrom(source, rows)[name] == source[name]
    decreases |rows|
  {
    if rows != [] {
      RowsFromAt(source[rows[0].name := rows[0]], rows[1..], name);
    }
  }

  /**
   * After loading, each name of the file is bound to the last row carrying it,
   * so a later row with the same name overwrites an earlier one.
   */
  lemma LastRowWins(rows: seq<Row>, name: string)
    ensures name in LastRows(rows) <==> name in NameSet(rows)
    ensures name in NameSet(rows) ==> LastRows(rows)[name] == rows[LastRowWith(rows, name)]
  {
    RowsFromAt(map[], rows, name);
  }

  /** `write_to_csv`: one row per record, in the book's order. */
  method WriteRows(book: AddressBook) returns (rows: seq<Row>)
    requires book.Valid()
    ensures |rows| == |book.keys|
    ensures forall i | 0 <= i < |rows| :: rows[i] == RowOf(book.records[book.keys[i]])
    ensures (forall i | 0 <= i < |book.keys| :: book.records[book.keys[i]].name == book.keys[i])
              ==> KeysAfter(rows) == book.keys
  {
    var values := book.Values();
    rows := [];
    var i := 0;
    while i < |values|
      invariant 0 <= i <= |values|
      invariant |rows| == i
      invariant forall k | 0 <= k < i :: rows[k] == RowOf(values[k])
    {
      var row := RowOf(values[i]);
      ghost var before := rows;
      rows := rows + [row];
      assert forall k | 0 <= k < i :: rows[k] == before[k];
      i := i + 1;
    }
    assert forall k | 0 <= k < |rows| :: values[k] == book.records[book.keys[k]];
    if forall i | 0 <= i < |book.keys| :: book.records[book.keys[i]].name == book.keys[i] {
      forall k | 0 <= k < |rows|
        ensures rows[k].name == book.keys[k]
      {
        assert rows[k] == RowOf(values[k]) && values[k] == book.records[book.keys[k]];
      }
      ReloadKeepsOrder(rows, book.keys);
    }
  }

  /** Rows named, one by one, after duplicate-free keys reload with those keys in that order. */
  lemma ReloadKeepsOrder(rows: seq<Row>, keys: seq<string>)
    requires |rows| == |keys| && NoDuplicates(keys)
    requires forall i | 0 <= i < |rows| :: rows[i].name == keys[i]
    ensures KeysAfter(rows) == keys
  {
    assert Names(rows) == keys;
    DistinctNamesKeepOrder(rows);
  }

  /**
   * A record with a phone list that survives the cell format reloads with the
   * same phones, and its birthday comes back as stored, or as the empty text
   * when there was none.
   */
  lemma RowRoundTrip(name: string, phones: seq<string>, birthday: Option<string>)
    requires phones != [] && forall k | 0 <= k < |phones| :: IsCellSafe(phones[k])
    ensures var row := Row(name, EncodePhones(phones), BirthdayCell(birthday));
      row.name == name && DecodePhones(row.phones) == phones
      && Some(row.birthday) == (if birthday.None? then Some("") else birthday)
  {
    RoundTrip(phones);
  }
}
