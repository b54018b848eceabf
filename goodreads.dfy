/** Reading a Goodreads export (lib/parseGoodreadsCSV.ts): each CSV row, already
    split into named columns, becomes an entry of trimmed fields, and only the
    entries that count as read (in the chosen year, when one is given) are kept. */
module GoodreadsCsv {
  import opened Books
  import opened Seqs
  import opened Text

  /** A CSV row as the header-aware CSV reader yields it: column name to text. A
      column missing from the file is missing from the map. */
  type Row = map<string, string>

  /** `GoodreadsEntry`; a field is None when its column is missing. */
  datatype Entry = Entry(title: Option<string>, author: Option<string>,
                         dateRead: Option<string>, shelf: Option<string>)

  /** `row[name]?.trim()`. */
  function Column(row: Row, name: string): (r: Option<string>)
    ensures r.Some? <==> name in row
    ensures r.Some? ==> r.value == Trim(row[name])
    ensures r.Some? ==> r.value == [] || (!IsSpace(r.value[0]) && !IsSpace(r.value[|r.value| - 1]))
  {
    if name in row then Some(Trim(row[name])) else None
  }

  /** The row's four columns, each trimmed, and None where the column is missing. */
  function ToEntry(row: Row): (e: Entry)
    ensures e.title.Some? <==> "Title" in row
    ensures e.author.Some? <==> "Author" in row
    ensures e.dateRead.Some? <==> "Date Read" in row
    ensures e.shelf.Some? <==> "Bookshelves" in row
    ensures e.title.Some? ==> e.title.value == Trim(row["Title"])
    ensures e.author.Some? ==> e.author.value == Trim(row["Author"])
    ensures e.dateRead.Some? ==> e.dateRead.value == Trim(row["Date Read"])
    ensures e.shelf.Some? ==> e.shelf.value == Trim(row["Bookshelves"])
  {
    Entry(Column(row, "Title"), Column(row, "Author"),
          Column(row, "Date Read"), Column(row, "Bookshelves"))
  }

  /** `hasValidDate`: a read date that is present, non-empty and not "not set". */
  predicate HasValidDate(e: Entry)
    ensures HasValidDate(e) <==>
      e.dateRead.Some? && e.dateRead.value != "" && e.dateRead.value != "not set"
  {
    Truthy(e.dateRead) && e.dateRead.value != "not set"
  }

  /** The filter callback, with its early returns. */
  predicate Keep(year: Option<string>, e: Entry)
    ensures Keep(year, e) ==> Truthy(e.title) && (HasValidDate(e) || e.shelf == Some("read"))
    ensures Keep(year, e) && Truthy(year) ==> HasValidDate(e) && StartsWith(e.dateRead.value, year.value)
    ensures !Truthy(e.title) ==> !Keep(year, e)
  {
    if !Truthy(e.title) then false
    else if Truthy(year) then
      if !HasValidDate(e) then false
      else StartsWith(e.dateRead.value, year.value)
    else HasValidDate(e) || e.shelf == Some("read")
  }

  function KeepFor(year: Option<string>): Entry -> bool
  {
    e => Keep(year, e)
  }

  function Entries(rows: seq<Row>): (es: seq<Entry>)
    ensures |es| == |rows|
    ensures forall i :: 0 <= i < |rows| ==> es[i] == ToEntry(rows[i])
  {
    seq(|rows|, i requires 0 <= i < |rows| => ToEntry(rows[i]))
  }

  /** `parseGoodreadsCSV(file, year)` once the rows are read: the entries of the
      rows that count as read, in row order. */
  function ParseRows(rows: seq<Row>, year: Option<string>): (r: seq<Entry>)
    ensures |r| <= |rows|
    ensures forall i :: 0 <= i < |r| ==> Truthy(r[i].title) && Keep(year, r[i])
  {
    var r := Filter(Entries(rows), KeepFor(year));
    assert forall i :: 0 <= i < |r| ==> KeepFor(year)(r[i]);
    r
  }

  // ---------------------------------------------------------------------------
  // Properties

  /** With a year, an entry is kept exactly when it has a title and a valid read
      date starting with that year. */
  lemma KeepWithYear(year: string, e: Entry)
    requires year != ""
    ensures Keep(Some(year), e) <==>
      Truthy(e.title) && HasValidDate(e) && StartsWith(e.dateRead.value, year)
  {
  }

  /** Without a year (or with an empty one), an entry is kept exactly when it has
      a title and either a valid read date or the shelf "read". */
  lemma KeepWithoutYear(year: Option<string>, e: Entry)
    requires !Truthy(year)
    ensures Keep(year, e) <==> Truthy(e.title) && (HasValidDate(e) || e.shelf == Some("read"))
  {
  }

  /** Choosing a year only narrows the result. */
  lemma YearNarrows(rows: seq<Row>, year: string)
    ensures |ParseRows(rows, Some(year))| <= |ParseRows(rows, None)|
  {
    forall e ensures KeepFor(Some(year))(e) ==> KeepFor(None)(e) {
    }
    FilterMonotone(Entries(rows), KeepFor(Some(year)), KeepFor(None));
  }

  /** Rows are handled one by one: parsing a concatenation parses each part. */
  lemma ParseRowsConcat(a: seq<Row>, b: seq<Row>, year: Option<string>)
    ensures ParseRows(a + b, year) == ParseRows(a, year) + ParseRows(b, year)
  {
    EntriesConcat(a, b);
    FilterConcat(Entries(a), Entries(b), KeepFor(year));
  }

  lemma EntriesConcat(a: seq<Row>, b: seq<Row>)
    ensures Entries(a + b) == Entries(a) + Entries(b)
  {
    var l, r := Entries(a + b), Entries(a) + Entries(b);
    forall i | 0 <= i < |l| ensures l[i] == r[i] {
      if i < |a| {
        assert (a + b)[i] == a[i];
      } else {
        assert (a + b)[i] == b[i - |a|];
      }
    }
  }

  /** Each result comes from a row, and every row that counts is in the result. */
  lemma ParseRowsMembers(rows: seq<Row>, year: Option<string>)
    ensures forall i :: 0 <= i < |ParseRows(rows, year)| ==>
      exists j :: 0 <= j < |rows| && ParseRows(rows, year)[i] == ToEntry(rows[j])
    ensures forall j :: 0 <= j < |rows| && Keep(year, ToEntry(rows[j])) ==>
      ToEntry(rows[j]) in ParseRows(rows, year)
  {
    var es := Entries(rows);
    assert ParseRows(rows, year) == Filter(es, KeepFor(year));
    FilterMembers(es, KeepFor(year));
    forall i | 0 <= i < |ParseRows(rows, year)|
      ensures exists j :: 0 <= j < |rows| && ParseRows(rows, year)[i] == ToEntry(rows[j])
    {
      var j :| 0 <= j < |es| && es[j] == ParseRows(rows, year)[i];
      assert es[j] == ToEntry(rows[j]);
    }
    forall j | 0 <= j < |rows| && Keep(year, ToEntry(rows[j]))
      ensures ToEntry(rows[j]) in ParseRows(rows, year)
    {
      assert KeepFor(year)(es[j]);
    }
  }

  /** A single row with a title is kept without a year when it is on the shelf
      "read", even with no read date. */
  lemma ShelfReadKept(row: Row)
    requires "Title" in row && Trim(row["Title"]) != ""
    requires "Bookshelves" in row && Trim(row["Bookshelves"]) == "read"
    ensures ParseRows([row], None) == [ToEntry(row)]
  {
    var e := ToEntry(row);
    assert Keep(None, e);
    assert Entries([row]) == [e];
    assert Filter([e], KeepFor(None)) == [e] + Filter([e][1..], KeepFor(None));
  }

  /** A read date of "not set" never passes a year filter. */
  lemma NotSetExcluded(row: Row, year: string)
    requires year != ""
    requires "Date Read" in row && Trim(row["Date Read"]) == "not set"
    ensures ParseRows([row], Some(year)) == []
  {
    var e := ToEntry(row);
    assert !Keep(Some(year), e);
    assert Entries([row]) == [e];
    assert Filter([e], KeepFor(Some(year))) == Filter([e][1..], KeepFor(Some(year)));
  }
}
