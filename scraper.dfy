/** The scraping loop of a run: for every configured search phrase the
    portal's result table is read row by row, rows whose procedure identifier
    is already known are skipped, and the phrases that found something new are
    collected into the report, a list that alternates a phrase marker with a
    block of that phrase's new records.

    The browser is replaced by its output: for every phrase either the page
    could not be used (`Unavailable`) or the raw text of each row's cells. */
module Scraper {
  import opened Text

  const LinkPrefix := "https://ezamowienia.gov.pl/mp-client/search/list/"

  const SearchPhrases: seq<string> := ["Mikrotik", "mtcna", "mtcre", "unifi", "ubiquity", "Linux", "proxmox"]

  /** The text of a result row's `<td>` cells, as the browser reads them. */
  type Row = seq<string>

  /** A result record: `Nazwa Zamówienia`, `Identyfikator Postępowania`,
      `Tryb Postępowania` and `Link`. */
  datatype Record = Record(name: string, id: string, mode: string, link: string)

  /** What the browser gave for one phrase: the search form or the result
      table could not be found, or the table's rows. */
  datatype Page = Unavailable | Listed(rows: seq<Row>)

  /** One element of the report: `{"phrase": ...}` or `{"results": [...]}`. */
  datatype Entry = PhraseMarker(phrase: string) | ResultsBlock(results: seq<Record>)

  /** How one row is handled: an index error at cell `index` (caught and
      logged), a known identifier (logged and skipped), or a new record. */
  datatype RowOutcome = Malformed(index: nat) | Known(id: string) | Fresh(record: Record)

  /** A row is reported when it has the three cells a record needs and its
      stripped identifier cell is not yet known. */
  predicate Reportable(row: Row, existing: set<string>)
  {
    |row| >= 3 && Strip(row[1]) !in existing
  }

  /** The record a row with three cells describes: its stripped cells and the
      detail link built from the identifier. */
  function RecordOf(row: Row): Record
    requires |row| >= 3
  {
    Record(Strip(row[0]), Strip(row[1]), Strip(row[2]), LinkPrefix + Strip(row[1]))
  }

  /** `[ele.text.strip() for ele in cells]` */
  function StripAll(cells: seq<string>): seq<string>
  {
    seq(|cells|, i requires 0 <= i < |cells| => Strip(cells[i]))
  }

  /** The body of the row loop: keep the first three cells, stripped, read the
      identifier from the second, skip it when known, otherwise build the record
      from all three. */
  function ProcessRow(row: Row, existing: set<string>): (o: RowOutcome)
    ensures o.Fresh? <==> Reportable(row, existing)
    ensures o.Fresh? ==> o.record == RecordOf(row)
    ensures o.Known? <==> |row| >= 2 && Strip(row[1]) in existing
    ensures o.Known? ==> o.id == Strip(row[1])
    ensures o == Malformed(1) <==> |row| < 2
    ensures o == Malformed(2) <==> |row| == 2 && Strip(row[1]) !in existing
    ensures o.Malformed? ==> o.index == 1 || o.index == 2
  {
    var cols := StripAll(row[..if |row| < 3 then |row| else 3]);
    if |cols| < 2 then
      Malformed(1)
    else if cols[1] in existing then
      Known(cols[1])
    else if |cols| < 3 then
      Malformed(2)
    else
      Fresh(Record(cols[0], cols[1], cols[2], LinkPrefix + cols[1]))
  }

  /** The records of the reportable rows, in row order. */
  function FreshRecords(rows: seq<Row>, existing: set<string>): seq<Record>
  {
    if rows == [] then
      []
    else
      var last := rows[|rows| - 1];
      FreshRecords(rows[..|rows| - 1], existing) + (if Reportable(last, existing) then [RecordOf(last)] else [])
  }

  function IdsOf(records: seq<Record>): set<string>
  {
    set r | r in records :: r.id
  }

  /** Row `k` of `rows` is reportable and describes `rec`. */
  ghost predicate ReportedAt(rows: seq<Row>, existing: set<string>, k: int, rec: Record)
  {
    0 <= k < |rows| && Reportable(rows[k], existing) && rec == RecordOf(rows[k])
  }

  /** Dropping the last row keeps the reportable rows before it. */
  lemma ReportedAtInit(rows: seq<Row>, existing: set<string>, k: int, rec: Record)
    requires 0 <= k < |rows| - 1
    ensures ReportedAt(rows[..|rows| - 1], existing, k, rec) <==> ReportedAt(rows, existing, k, rec)
  {
    assert rows[..|rows| - 1][k] == rows[k];
  }

  /** A record is reported for a phrase exactly when it is the record of one of
      the phrase's reportable rows. */
  lemma {:induction false} FreshRecordsMembers(rows: seq<Row>, existing: set<string>, rec: Record)
    ensures rec in FreshRecords(rows, existing) <==> exists k :: ReportedAt(rows, existing, k, rec)
  {
    if rows != [] {
      var n := |rows| - 1;
      var init := rows[..n];
      var tail := if Reportable(rows[n], existing) then [RecordOf(rows[n])] else [];
      FreshRecordsMembers(init, existing, rec);
      assert FreshRecords(rows, existing) == FreshRecords(init, existing) + tail;
      if rec in FreshRecords(init, existing) {
        var k :| ReportedAt(init, existing, k, rec);
        ReportedAtInit(rows, existing, k, rec);
      } else if rec in tail {
        assert ReportedAt(rows, existing, n, rec);
      } else {
        forall k | 0 <= k < |rows|
          ensures !ReportedAt(rows, existing, k, rec)
        {
          if k < n {
            ReportedAtInit(rows, existing, k, rec);
          }
        }
      }
    }
  }

  /** No reported record carries an identifier that was already known, and
      every one links to its own detail page. */
  lemma FreshRecordsAreNew(rows: seq<Row>, existing: set<string>)
    ensures forall rec | rec in FreshRecords(rows, existing) :: rec.id !in existing && rec.link == LinkPrefix + rec.id
    ensures IdsOf(FreshRecords(rows, existing)) !! existing
  {
    forall rec | rec in FreshRecords(rows, existing)
      ensures rec.id !in existing && rec.link == LinkPrefix + rec.id
    {
      FreshRecordsMembers(rows, existing, rec);
    }
  }

  /** The row loop for one phrase: records of new rows are appended to
      `results` and their identifiers added to the run's `newIds`. */
  method FilterRows(rows: seq<Row>, existing: set<string>, seen: set<string>) returns (results: seq<Record>, newIds: set<string>)
    ensures results == FreshRecords(rows, existing)
    ensures newIds == seen + IdsOf(results)
  {
    results := [];
    newIds := seen;
    for i := 0 to |rows|
      invariant results == FreshRecords(rows[..i], existing)
      invariant newIds == seen + IdsOf(results)
    {
      assert rows[..i + 1][..i] == rows[..i];
      match ProcessRow(rows[i], existing)
      case Fresh(rec) =>
        results := results + [rec];
        newIds := newIds + {rec.id};
      case Known(_) =>
      case Malformed(_) =>
    }
    assert rows[..|rows|] == rows;
  }

  /** The entries a phrase contributes: its marker and its block of new records,
      or nothing when the page was unavailable or held nothing new. */
  function PhraseEntries(phrase: string, page: Page, existing: set<string>): seq<Entry>
  {
    if page.Listed? && FreshRecords(page.rows, existing) != [] then
      [PhraseMarker(phrase), ResultsBlock(FreshRecords(page.rows, existing))]
    else
      []
  }

  /** The report for the phrases in their configured order. */
  function Report(phrases: seq<string>, pages: seq<Page>, existing: set<string>): seq<Entry>
    requires |pages| == |phrases|
  {
    if phrases == [] then
      []
    else
      var n := |phrases| - 1;
      Report(phrases[..n], pages[..n], existing) + PhraseEntries(phrases[n], pages[n], existing)
  }

  /** The identifiers of every record in the report. */
  function ReportedIds(data: seq<Entry>): set<string>
  {
    if data == [] then
      {}
    else
      var last := data[|data| - 1];
      ReportedIds(data[..|data| - 1]) + (if last.ResultsBlock? then IdsOf(last.results) else {})
  }

  lemma {:induction false} ReportedIdsAppend(a: seq<Entry>, b: seq<Entry>)
    ensures ReportedIds(a + b) == ReportedIds(a) + ReportedIds(b)
    decreases |b|
  {
    if b == [] {
      assert a + b == a;
    } else {
      var n := |b| - 1;
      assert (a + b)[..|a + b| - 1] == a + b[..n];
      ReportedIdsAppend(a, b[..n]);
    }
  }

  /** The report for one more phrase extends the report so far. */
  lemma ReportStep(phrases: seq<string>, pages: seq<Page>, existing: set<string>, i: nat)
    requires |pages| == |phrases| && i < |phrases|
    ensures Report(phrases[..i + 1], pages[..i + 1], existing)
              == Report(phrases[..i], pages[..i], existing) + PhraseEntries(phrases[i], pages[i], existing)
  {
    assert phrases[..i + 1][..i] == phrases[..i] && pages[..i + 1][..i] == pages[..i];
  }

  /** The phrase loop of a run: `data` is the report and `newIds` holds the
      identifiers of every record in it. */
  method Scrape(phrases: seq<string>, pages: seq<Page>, existing: set<string>) returns (data: seq<Entry>, newIds: set<string>)
    requires |pages| == |phrases|
    ensures data == Report(phrases, pages, existing)
    ensures newIds == ReportedIds(data)
  {
    data := [];
    newIds := {};
    for i := 0 to |phrases|
      invariant data == Report(phrases[..i], pages[..i], existing)
      invariant newIds == ReportedIds(data)
    {
      ReportStep(phrases, pages, existing, i);
      match pages[i]
      case Unavailable =>
      case Listed(rows) =>
        var results;
        results, newIds := FilterRows(rows, existing, newIds);
        if results != [] {
          ReportedIdsAppend(data, [PhraseMarker(phrases[i]), ResultsBlock(results)]);
          PhraseEntriesFacts(phrases[i], results);
          data := data + [PhraseMarker(phrases[i]), ResultsBlock(results)];
        }
    }
    assert phrases[..|phrases|] == phrases && pages[..|pages|] == pages;
  }

  /** The report alternates a phrase marker with a non-empty block of
      results, starting with a marker. */
  ghost predicate WellFormedReport(data: seq<Entry>)
  {
    && |data| % 2 == 0
    && (forall k :: 0 <= k < |data| ==> (data[k].PhraseMarker? <==> k % 2 == 0))
    && (forall k :: 0 <= k < |data| && data[k].ResultsBlock? ==> data[k].results != [])
  }

  lemma {:induction false} ReportShape(phrases: seq<string>, pages: seq<Page>, existing: set<string>)
    requires |pages| == |phrases|
    ensures WellFormedReport(Report(phrases, pages, existing))
  {
    if phrases != [] {
      var n := |phrases| - 1;
      var prev := Report(phrases[..n], pages[..n], existing);
      var last := PhraseEntries(phrases[n], pages[n], existing);
      ReportShape(phrases[..n], pages[..n], existing);
      assert Report(phrases, pages, existing) == prev + last;
      assert forall k :: 0 <= k < |prev| ==> (prev + last)[k] == prev[k];
      assert forall k :: |prev| <= k < |prev + last| ==> (prev + last)[k] == last[k - |prev|];
    }
  }

  /** The page of a phrase holds at least one reportable row. */
  ghost predicate Contributes(page: Page, existing: set<string>)
  {
    page.Listed? && exists k :: 0 <= k < |page.rows| && Reportable(page.rows[k], existing)
  }

  /** A phrase has new records exactly when its page holds a reportable row. */
  lemma FreshRecordsNonEmpty(rows: seq<Row>, existing: set<string>)
    ensures FreshRecords(rows, existing) != [] <==> Contributes(Listed(rows), existing)
  {
    if FreshRecords(rows, existing) != [] {
      var rec := FreshRecords(rows, existing)[0];
      FreshRecordsMembers(rows, existing, rec);
    }
    if Contributes(Listed(rows), existing) {
      var k :| 0 <= k < |rows| && Reportable(rows[k], existing);
      FreshRecordsMembers(rows, existing, RecordOf(rows[k]));
      assert ReportedAt(rows, existing, k, RecordOf(rows[k]));
    }
  }

  /** Nothing is reported, so no result file is written and no mail is sent,
      exactly when no page holds a reportable row. */
  lemma {:induction false} ReportEmptyIff(phrases: seq<string>, pages: seq<Page>, existing: set<string>)
    requires |pages| == |phrases|
    ensures Report(phrases, pages, existing) == [] <==>
              forall i :: 0 <= i < |pages| ==> !Contributes(pages[i], existing)
  {
    if phrases != [] {
      var n := |phrases| - 1;
      ReportEmptyIff(phrases[..n], pages[..n], existing);
      if pages[n].Listed? {
        FreshRecordsNonEmpty(pages[n].rows, existing);
      }
      assert forall i :: 0 <= i < n ==> pages[..n][i] == pages[i];
    }
  }

  /** The phrases whose page holds a reportable row, in configured order. */
  ghost function Contributing(phrases: seq<string>, pages: seq<Page>, existing: set<string>): seq<string>
    requires |pages| == |phrases|
  {
    if phrases == [] then
      []
    else
      var n := |phrases| - 1;
      Contributing(phrases[..n], pages[..n], existing) + (if Contributes(pages[n], existing) then [phrases[n]] else [])
  }

  /** The phrases of the report's markers, in order. */
  function Markers(data: seq<Entry>): seq<string>
  {
    if data == [] then
      []
    else
      var last := data[|data| - 1];
      Markers(data[..|data| - 1]) + (if last.PhraseMarker? then [last.phrase] else [])
  }

  /** A phrase's two entries name the phrase once and carry its records'
      identifiers. */
  lemma PhraseEntriesFacts(phrase: string, results: seq<Record>)
    ensures Markers([PhraseMarker(phrase), ResultsBlock(results)]) == [phrase]
    ensures ReportedIds([PhraseMarker(phrase), ResultsBlock(results)]) == IdsOf(results)
  {
    var marker := [PhraseMarker(phrase)];
    var pair := [PhraseMarker(phrase), ResultsBlock(results)];
    assert pair[..1] == marker;
    assert marker[..0] == [];
    assert Markers(marker) == [phrase];
    assert ReportedIds(marker) == {};
  }

  lemma {:induction false} MarkersAppend(a: seq<Entry>, b: seq<Entry>)
    ensures Markers(a + b) == Markers(a) + Markers(b)
    decreases |b|
  {
    if b == [] {
      assert a + b == a;
    } else {
      var n := |b| - 1;
      assert (a + b)[..|a + b| - 1] == a + b[..n];
      MarkersAppend(a, b[..n]);
    }
  }

  /** The report names the phrases that found something new, each once, in
      configured order. */
  lemma {:induction false} ReportFollowsPhraseOrder(phrases: seq<string>, pages: seq<Page>, existing: set<string>)
    requires |pages| == |phrases|
    ensures Markers(Report(phrases, pages, existing)) == Contributing(phrases, pages, existing)
  {
    if phrases != [] {
      var n := |phrases| - 1;
      var last := PhraseEntries(phrases[n], pages[n], existing);
      ReportFollowsPhraseOrder(phrases[..n], pages[..n], existing);
      MarkersAppend(Report(phrases[..n], pages[..n], existing), last);
      if pages[n].Listed? {
        FreshRecordsNonEmpty(pages[n].rows, existing);
      }
      if last != [] {
        PhraseEntriesFacts(phrases[n], FreshRecords(pages[n].rows, existing));
      }
    }
  }

  /** `id` is the stripped identifier of a reportable row of `page`. */
  ghost predicate IdOnPage(page: Page, existing: set<string>, id: string)
  {
    page.Listed? && exists k :: 0 <= k < |page.rows| && Reportable(page.rows[k], existing) && Strip(page.rows[k][1]) == id
  }

  lemma IdsOfFreshRecords(rows: seq<Row>, existing: set<string>, id: string)
    ensures id in IdsOf(FreshRecords(rows, existing)) <==> IdOnPage(Listed(rows), existing, id)
  {
    if id in IdsOf(FreshRecords(rows, existing)) {
      var rec :| rec in FreshRecords(rows, existing) && rec.id == id;
      FreshRecordsMembers(rows, existing, rec);
    }
    if IdOnPage(Listed(rows), existing, id) {
      var k :| 0 <= k < |rows| && Reportable(rows[k], existing) && Strip(rows[k][1]) == id;
      FreshRecordsMembers(rows, existing, RecordOf(rows[k]));
      assert ReportedAt(rows, existing, k, RecordOf(rows[k]));
    }
  }

  /** A phrase's entries carry the identifiers of its page's reportable
      rows. */
  lemma PhraseEntriesIds(phrase: string, page: Page, existing: set<string>, id: string)
    ensures id in ReportedIds(PhraseEntries(phrase, page, existing)) <==> IdOnPage(page, existing, id)
  {
    if page.Listed? {
      IdsOfFreshRecords(page.rows, existing, id);
      if FreshRecords(page.rows, existing) != [] {
        PhraseEntriesFacts(phrase, FreshRecords(page.rows, existing));
      }
    }
  }

  /** The run's new identifiers are exactly the stripped identifiers of the
      reportable rows of every available page; in particular none of them was
      known before. */
  lemma {:induction false} ReportedIdsExactly(phrases: seq<string>, pages: seq<Page>, existing: set<string>, id: string)
    requires |pages| == |phrases|
    ensures id in ReportedIds(Report(phrases, pages, existing)) <==>
              exists i :: 0 <= i < |pages| && IdOnPage(pages[i], existing, id)
    ensures id in ReportedIds(Report(phrases, pages, existing)) ==> id !in existing
  {
    if phrases != [] {
      var n := |phrases| - 1;
      var last := PhraseEntries(phrases[n], pages[n], existing);
      ReportedIdsExactly(phrases[..n], pages[..n], existing, id);
      ReportedIdsAppend(Report(phrases[..n], pages[..n], existing), last);
      PhraseEntriesIds(phrases[n], pages[n], existing, id);
      assert forall i :: 0 <= i < n ==> pages[..n][i] == pages[i];
    }
  }

  /** Once a run's new identifiers are stored, the same pages report nothing:
      an identifier is reported at most once. */
  lemma SecondRunReportsNothing(phrases: seq<string>, pages: seq<Page>, existing: set<string>, later: set<string>)
    requires |pages| == |phrases|
    requires existing + ReportedIds(Report(phrases, pages, existing)) <= later
    ensures Report(phrases, pages, later) == []
  {
    forall i | 0 <= i < |pages|
      ensures !Contributes(pages[i], later)
    {
      if Contributes(pages[i], later) {
        var k :| 0 <= k < |pages[i].rows| && Reportable(pages[i].rows[k], later);
        var id := Strip(pages[i].rows[k][1]);
        assert IdOnPage(pages[i], existing, id);
        ReportedIdsExactly(phrases, pages, existing, id);
        assert false;
      }
    }
    ReportEmptyIff(phrases, pages, later);
  }

  /** `existing_ids` is not updated during a run: a new row listed under two
      phrases is reported under both, while its identifier is collected once. */
  lemma RepeatedRowsReportedTwice(p: string, q: string, rows: seq<Row>, existing: set<string>)
    requires FreshRecords(rows, existing) != []
    ensures var found := FreshRecords(rows, existing);
            Report([p, q], [Listed(rows), Listed(rows)], existing)
              == [PhraseMarker(p), ResultsBlock(found), PhraseMarker(q), ResultsBlock(found)]
    ensures ReportedIds(Report([p, q], [Listed(rows), Listed(rows)], existing)) == IdsOf(FreshRecords(rows, existing))
  {
    var found := FreshRecords(rows, existing);
    var block := [PhraseMarker(p), ResultsBlock(found)];
    assert [p, q][..1] == [p] && [Listed(rows), Listed(rows)][..1] == [Listed(rows)];
    assert Report([p], [Listed(rows)], existing) == block;
    var block2 := [PhraseMarker(q), ResultsBlock(found)];
    ReportedIdsAppend(block, block2);
    PhraseEntriesFacts(p, found);
    PhraseEntriesFacts(q, found);
  }

  /** With `A1` already known and rows for `A1` and `B2` listed, only `B2` is
      reported, with its detail link. */
  lemma KnownIdSkipped(phrase: string)
    ensures var rows := [["Alpha", " A1 ", "mode"], ["Beta", "B2", "mode"]];
            Report([phrase], [Listed(rows)], {"A1"})
              == [PhraseMarker(phrase), ResultsBlock([Record("Beta", "B2", "mode", LinkPrefix + "B2")])]
  {
    var rows := [["Alpha", " A1 ", "mode"], ["Beta", "B2", "mode"]];
    var known: set<string> := {"A1"};
    var b2 := Record("Beta", "B2", "mode", LinkPrefix + "B2");
    assert FreshRecords(rows, known) == [b2] by {
      assert Strip(" A1 ") == "A1";
      assert Strip("B2") == "B2" && Strip("Beta") == "Beta" && Strip("mode") == "mode";
      assert !Reportable(rows[0], known) && Reportable(rows[1], known);
      assert rows[..1] == [rows[0]] && rows[..1][..0] == [];
      assert FreshRecords(rows[..1], known) == [];
    }
    assert [phrase][..0] == [] && [Listed(rows)][..0] == [];
  }
}
