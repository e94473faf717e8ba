/**
  The export of download_entries: the date bounds read from the form, the
  query (the user's entries, the optional bounds, ordered by start time) and
  the CSV rows written for the result.
*/
module Export {
  import opened Wrappers
  import opened Timestamps
  import opened Models

  // --------------------------------------------------------- the bounds

  /**
    Both bounds are read with strptime(..., '%Y-%m-%d'); a missing field
    (TypeError) or a malformed one (ValueError) drops BOTH bounds.
  */
  function ParseBounds(fromText: Option<string>, toText: Option<string>): (r: (Option<DateTime>, Option<DateTime>))
    ensures r.0.Some? <==> r.1.Some?
    ensures r.0.Some? <==> (&& fromText.Some? && ParseDate(fromText.value).Some?
                            && toText.Some? && ParseDate(toText.value).Some?)
    ensures r.0.Some? ==> r.0 == ParseDate(fromText.value) && r.1 == ParseDate(toText.value)
  {
    if fromText.None? then (None, None)
    else
      var from := ParseDate(fromText.value);
      if from.None? || toText.None? then (None, None)
      else
        var to := ParseDate(toText.value);
        if to.None? then (None, None) else (from, to)
  }

  /** The two optional filters: start_time >= from and end_time <= to. */
  predicate InBounds(e: JournalEntry, from: Option<DateTime>, to: Option<DateTime>) {
    && (from.Some? ==> NotAfter(from.value, e.startTime))
    && (to.Some? ==> NotAfter(e.endTime, to.value))
  }

  // ---------------------------------------------------------- the order

  /** order_by(start_time), ascending. */
  predicate SortedByStart(s: seq<JournalEntry>) {
    forall i, j :: 0 <= i < j < |s| ==> NotAfter(s[i].startTime, s[j].startTime)
  }

  function InsertByStart(e: JournalEntry, s: seq<JournalEntry>): (r: seq<JournalEntry>)
    requires SortedByStart(s)
    ensures SortedByStart(r)
    ensures multiset(r) == multiset(s) + multiset{e}
  {
    if s == [] then [e]
    else if NotAfter(e.startTime, s[0].startTime) then
      assert SortedByStart([e] + s) by { SortedCons(e, s); }
      [e] + s
    else
      var rest := InsertByStart(e, s[1..]);
      assert s == [s[0]] + s[1..];
      assert SortedByStart([s[0]] + rest) by {
        NotAfterIsTotalOrder(e.startTime, s[0].startTime, s[0].startTime);
        forall x | x in rest ensures NotAfter(s[0].startTime, x.startTime) {
          assert x in multiset(rest);
          if x != e {
            var j :| 0 <= j < |s[1..]| && s[1..][j] == x;
            assert s[j + 1] == x;
          }
        }
        SortedCons(s[0], rest);
      }
      [s[0]] + rest
  }

  /** Prepending an entry that starts no later than every other keeps the order. */
  lemma SortedCons(e: JournalEntry, s: seq<JournalEntry>)
    requires SortedByStart(s)
    requires forall x :: x in s ==> NotAfter(e.startTime, x.startTime)
    ensures SortedByStart([e] + s)
  {
    var r := [e] + s;
    forall i, j | 0 <= i < j < |r| ensures NotAfter(r[i].startTime, r[j].startTime) {
      if i == 0 {
        assert r[j] in s;
      } else {
        assert r[i] == s[i - 1] && r[j] == s[j - 1];
      }
    }
  }

  /**
    The store's ordering of the query result. Entries with equal start times
    may come out in any order; only the sortedness and the multiset of rows
    are promised.
  */
  function SortByStart(s: seq<JournalEntry>): (r: seq<JournalEntry>)
    ensures SortedByStart(r)
    ensures multiset(r) == multiset(s)
  {
    if s == [] then []
    else
      assert s == [s[0]] + s[1..];
      InsertByStart(s[0], SortByStart(s[1..]))
  }

  // ---------------------------------------------------------- the query

  /**
    The query download_entries builds step by step: the user's entries, then
    the start bound, then the end bound, ordered by start time.
  */
  function ExportEntries(entries: seq<JournalEntry>, uid: int, fromText: Option<string>, toText: Option<string>)
    : (r: seq<JournalEntry>)
    ensures SortedByStart(r)
    ensures forall e :: e in r <==>
      e in entries && e.userId == uid && InBounds(e, ParseBounds(fromText, toText).0, ParseBounds(fromText, toText).1)
  {
    var (from, to) := ParseBounds(fromText, toText);
    var byOwner := EntriesOf(entries, uid);
    var byStart := if from.Some? then Filter(byOwner, (e: JournalEntry) => NotAfter(from.value, e.startTime)) else byOwner;
    var byEnd := if to.Some? then Filter(byStart, (e: JournalEntry) => NotAfter(e.endTime, to.value)) else byStart;
    var r := SortByStart(byEnd);
    assert forall e :: e in r <==> e in byEnd by {
      forall e ensures e in r <==> e in byEnd {
        assert e in r <==> e in multiset(r);
        assert e in byEnd <==> e in multiset(byEnd);
      }
    }
    r
  }

  /** The export holds every selected entry exactly as often as the table does. */
  lemma ExportCount(entries: seq<JournalEntry>, uid: int, fromText: Option<string>, toText: Option<string>, e: JournalEntry)
    ensures multiset(ExportEntries(entries, uid, fromText, toText))[e] ==
      if e.userId == uid && InBounds(e, ParseBounds(fromText, toText).0, ParseBounds(fromText, toText).1)
      then multiset(entries)[e] else 0
  {
    var (from, to) := ParseBounds(fromText, toText);
    var byOwner := EntriesOf(entries, uid);
    FilterCount(entries, (e: JournalEntry) => e.userId == uid, e);
    var byStart := if from.Some? then Filter(byOwner, (e: JournalEntry) => NotAfter(from.value, e.startTime)) else byOwner;
    if from.Some? {
      FilterCount(byOwner, (e: JournalEntry) => NotAfter(from.value, e.startTime), e);
    }
    if to.Some? {
      FilterCount(byStart, (e: JournalEntry) => NotAfter(e.endTime, to.value), e);
    }
  }

  /** The export reads only the user's own entries: other users' rows cannot change it. */
  lemma ExportSeesOnlyOwnEntries(entries: seq<JournalEntry>, uid: int, fromText: Option<string>, toText: Option<string>)
    ensures ExportEntries(entries, uid, fromText, toText) == ExportEntries(EntriesOf(entries, uid), uid, fromText, toText)
  {
    FilterKeepsAll(EntriesOf(entries, uid), (e: JournalEntry) => e.userId == uid);
  }

  /** With a bound missing or malformed, the export is all of the user's entries. */
  lemma UnboundedExportIsAllOwnEntries(entries: seq<JournalEntry>, uid: int, fromText: Option<string>, toText: Option<string>)
    requires ParseBounds(fromText, toText).0.None?
    ensures multiset(ExportEntries(entries, uid, fromText, toText)) == multiset(EntriesOf(entries, uid))
  {
    forall e
      ensures multiset(ExportEntries(entries, uid, fromText, toText))[e] == multiset(EntriesOf(entries, uid))[e]
    {
      ExportCount(entries, uid, fromText, toText, e);
      FilterCount(entries, (e: JournalEntry) => e.userId == uid, e);
    }
  }

  /** With both bounds parsing and the from bound later than every one of the user's starts, nothing is exported. */
  lemma ExportAfterEveryStartIsEmpty(entries: seq<JournalEntry>, uid: int, fromText: Option<string>, toText: Option<string>)
    requires ParseBounds(fromText, toText).0.Some?
    requires forall e :: e in entries && e.userId == uid ==> !NotAfter(ParseBounds(fromText, toText).0.value, e.startTime)
    ensures ExportEntries(entries, uid, fromText, toText) == []
  {
  }

  // ------------------------------------------------------------ the CSV

  type Row = seq<string>

  const Header: Row := ["Title", "Description", "Experience", "From", "To"]

  /** One data row: the three text columns, then both times as "YYYY-MM-DD HH:MM". */
  function EntryRow(e: JournalEntry): (r: Row)
    requires IsValid(e.startTime) && IsValid(e.endTime)
    ensures |r| == |Header|
  {
    [e.title, e.description, e.experience, FormatCell(e.startTime), FormatCell(e.endTime)]
  }

  /** rows is the CSV of entries: the header, then one row per entry in the same order. */
  predicate IsCsvOf(rows: seq<Row>, entries: seq<JournalEntry>)
    requires TimesValid(entries)
  {
    && |rows| == |entries| + 1
    && rows[0] == Header
    && forall i :: 0 <= i < |entries| ==> rows[i + 1] == EntryRow(entries[i])
  }

  /** The csv.writer loop: the header row, then writerow for each entry. */
  method WriteCsv(entries: seq<JournalEntry>) returns (rows: seq<Row>)
    requires TimesValid(entries)
    ensures IsCsvOf(rows, entries)
  {
    rows := [Header];
    for k := 0 to |entries|
      invariant |rows| == k + 1 && rows[0] == Header
      invariant forall i :: 0 <= i < k ==> rows[i + 1] == EntryRow(entries[i])
    {
      rows := rows + [EntryRow(entries[k])];
    }
  }

  // ------------------------------------------------------------ examples

  /** The texts of the example below parse to the times they spell. */
  lemma ExampleTextsParse()
    ensures ParseDateTimeLocal("2024-01-01T09:00") == Some(DateTime(2024, 1, 1, 9, 0))
    ensures ParseDateTimeLocal("2024-01-01T10:00") == Some(DateTime(2024, 1, 1, 10, 0))
    ensures ParseBounds(Some("2024-01-01"), Some("2024-01-02"))
         == (Some(DateTime(2024, 1, 1, 0, 0)), Some(DateTime(2024, 1, 2, 0, 0)))
  {
    ExampleStartParses();
    ExampleEndParses();
    ExampleFromParses();
    ExampleToParses();
  }

  lemma ExamplePads()
    ensures Pad(2024, 4) == "2024"
    ensures Pad(0, 2) == "00" && Pad(1, 2) == "01" && Pad(2, 2) == "02"
    ensures Pad(9, 2) == "09" && Pad(10, 2) == "10"
  {
  }

  lemma ExampleStartParses()
    ensures ParseDateTimeLocal("2024-01-01T09:00") == Some(DateTime(2024, 1, 1, 9, 0))
  {
    ExamplePads();
    assert FormatLocal(DateTime(2024, 1, 1, 9, 0)) == "2024-01-01T09:00";
    FormatLocalParses(DateTime(2024, 1, 1, 9, 0));
  }

  lemma ExampleEndParses()
    ensures ParseDateTimeLocal("2024-01-01T10:00") == Some(DateTime(2024, 1, 1, 10, 0))
  {
    ExamplePads();
    assert FormatLocal(DateTime(2024, 1, 1, 10, 0)) == "2024-01-01T10:00";
    FormatLocalParses(DateTime(2024, 1, 1, 10, 0));
  }

  lemma ExampleFromParses()
    ensures ParseDate("2024-01-01") == Some(DateTime(2024, 1, 1, 0, 0))
  {
    ExamplePads();
    assert FormatDate(DateTime(2024, 1, 1, 0, 0)) == "2024-01-01";
    FormatDateParses(DateTime(2024, 1, 1, 0, 0));
  }

  lemma ExampleToParses()
    ensures ParseDate("2024-01-02") == Some(DateTime(2024, 1, 2, 0, 0))
  {
    ExamplePads();
    assert FormatDate(DateTime(2024, 1, 2, 0, 0)) == "2024-01-02";
    FormatDateParses(DateTime(2024, 1, 2, 0, 0));
  }

  /**
    An entry from 2024-01-01T09:00 to 2024-01-01T10:00, exported with the
    bounds 2024-01-01 and 2024-01-02, is the only entry exported, and its row
    writes the times back with a space in place of the 'T'.
  */
  lemma OneEntryExport(id: int, uid: int)
    ensures
      var e := JournalEntry(id, "T", "D", "good", DateTime(2024, 1, 1, 9, 0), DateTime(2024, 1, 1, 10, 0), uid);
      && ExportEntries([e], uid, Some("2024-01-01"), Some("2024-01-02")) == [e]
      && EntryRow(e) == ["T", "D", "good", "2024-01-01 09:00", "2024-01-01 10:00"]
  {
    var e := JournalEntry(id, "T", "D", "good", DateTime(2024, 1, 1, 9, 0), DateTime(2024, 1, 1, 10, 0), uid);
    ExampleSelectsTheEntry(e);
    ExampleCells();
  }

  /** The CSV of a single entry is the header and that entry's row. */
  lemma CsvOfOneEntry(rows: seq<Row>, e: JournalEntry)
    requires IsValid(e.startTime) && IsValid(e.endTime)
    requires IsCsvOf(rows, [e])
    ensures rows == [Header, EntryRow(e)]
  {
    assert rows[1] == EntryRow([e][0]);
    assert rows == [rows[0], rows[1]];
  }

  lemma ExampleSelectsTheEntry(e: JournalEntry)
    requires e.startTime == DateTime(2024, 1, 1, 9, 0) && e.endTime == DateTime(2024, 1, 1, 10, 0)
    ensures ExportEntries([e], e.userId, Some("2024-01-01"), Some("2024-01-02")) == [e]
  {
    ExampleTextsParse();
    var r := ExportEntries([e], e.userId, Some("2024-01-01"), Some("2024-01-02"));
    forall x ensures multiset(r)[x] == multiset([e])[x] {
      ExportCount([e], e.userId, Some("2024-01-01"), Some("2024-01-02"), x);
    }
    assert multiset(r) == multiset([e]);
    assert |r| == 1 && r[0] in multiset(r);
  }

  lemma ExampleCells()
    ensures FormatCell(DateTime(2024, 1, 1, 9, 0)) == "2024-01-01 09:00"
    ensures FormatCell(DateTime(2024, 1, 1, 10, 0)) == "2024-01-01 10:00"
  {
    ExamplePads();
  }
}
