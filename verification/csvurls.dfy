/**
  The offline scripts that attach Google Docs URLs to scripts:
  extract_urls_from_csv_v2.py, extract_urls_from_csv.py and
  extract_urls_comprehensive.py. Each reads the two progress-sheet CSV
  files into a map from management number to URL (later records
  overwriting earlier ones), merges the maps, and sets the `script_url`
  of every database script whose name yields a management number that is
  a key of the map.
 */
module CsvUrls {
  import opened Basics
  import Text
  import ManagementIds

  /** The text a cell must contain to count as a script URL. */
  const GoogleDocs := "docs.google.com"

  /** The loaders that count records skip the first four. */
  const HeaderRecords := 4

  /** Python's `cell.strip()`; `cell.strip() if cell else ""` is the same thing. */
  function Clean(cell: string): (c: string)
    ensures |c| <= |cell|
    ensures |c| == 0 || (!Text.IsSpace(Text.Py, c[0]) && !Text.IsSpace(Text.Py, c[|c| - 1]))
  {
    Text.Trim(Text.Py, cell)
  }

  /** A (management number, URL) pair a record contributes. */
  datatype Entry = Entry(id: string, url: string)

  /**
    What `csv.reader` delivered from a file: the records read before it
    stopped, and whether it stopped on an error (a malformed record or an
    undecodable byte) rather than at the end of the file.
   */
  datatype Records = Records(rows: seq<seq<string>>, failed: bool)

  /** A CSV file the record-counting loaders open: absent, or its records. */
  datatype CsvFile = Missing | Present(content: Records)

  // ---------------------------------------------------------------------
  // Writing entries into a map, record by record
  // ---------------------------------------------------------------------

  /**
    `url_mapping[management_id] = script_url` for every record, in order,
    that yields an entry; `picks` holds what each record yielded.
   */
  function Store(picks: seq<Option<Entry>>): (m: map<string, string>)
  {
    if |picks| == 0 then map[]
    else
      var m := Store(picks[..|picks| - 1]);
      match picks[|picks| - 1]
      case Some(e) => m[e.id := e.url]
      case None => m
  }

  /** A number is a key exactly when some record yields an entry for it. */
  lemma {:induction false} StoreKeys(picks: seq<Option<Entry>>, k: string)
    ensures k in Store(picks) <==> exists i :: 0 <= i < |picks| && picks[i].Some? && picks[i].value.id == k
  {
    if |picks| > 0 {
      var front := picks[..|picks| - 1];
      StoreKeys(front, k);
      assert forall i :: 0 <= i < |front| ==> front[i] == picks[i];
    }
  }

  /** Every stored URL is the one of some record with that number. */
  lemma {:induction false} StoreSource(picks: seq<Option<Entry>>, k: string) returns (i: nat)
    requires k in Store(picks)
    ensures i < |picks| && picks[i] == Some(Entry(k, Store(picks)[k]))
  {
    var front := picks[..|picks| - 1];
    var last := picks[|picks| - 1];
    if last.Some? && last.value.id == k {
      i := |picks| - 1;
    } else {
      i := StoreSource(front, k);
      assert front[i] == picks[i];
    }
  }

  /** The record written last wins: a number maps to the URL of the last record yielding it. */
  lemma {:induction false} StoreLastWins(picks: seq<Option<Entry>>, i: nat)
    requires i < |picks| && picks[i].Some?
    requires forall j :: i < j < |picks| && picks[j].Some? ==> picks[j].value.id != picks[i].value.id
    ensures picks[i].value.id in Store(picks)
    ensures Store(picks)[picks[i].value.id] == picks[i].value.url
  {
    var front := picks[..|picks| - 1];
    if i < |picks| - 1 {
      assert front[i] == picks[i];
      assert forall j :: i < j < |front| ==> front[j] == picks[j];
      StoreLastWins(front, i);
    }
  }

  /** The last-wins rule across two stretches of records: the second stretch decides. */
  lemma StoreAppendLastWins(a: seq<Option<Entry>>, b: seq<Option<Entry>>, i: nat)
    requires i < |b| && b[i].Some?
    requires forall j :: i < j < |b| && b[j].Some? ==> b[j].value.id != b[i].value.id
    ensures b[i].value.id in Store(a + b) && Store(a + b)[b[i].value.id] == b[i].value.url
  {
    var picks := a + b;
    assert picks[|a| + i] == b[i];
    assert forall j :: |a| + i < j < |picks| ==> picks[j] == b[j - |a|];
    StoreLastWins(picks, |a| + i);
  }

  // ---------------------------------------------------------------------
  // Fixed columns: extract_urls_from_csv_v2.py and extract_urls_from_csv.py
  // ---------------------------------------------------------------------

  /**
    The acceptance rule both fixed-column loaders apply to the stripped
    cells: a non-empty number starting with `B` and a non-empty URL
    containing "docs.google.com".
   */
  predicate Acceptable(id: string, url: string) {
    id != "" && url != "" && Text.StartsWith(id, "B") && Text.Contains(url, GoogleDocs)
  }

  function Max(a: nat, b: nat): nat {
    if a < b then b else a
  }

  /**
    One record: read only when it has more fields than the larger column
    index (`len(row) > 11` for new.csv, `len(row) > 4` for the 2019 sheet,
    `len(row) > max(id_column, url_column)` in the older script).
   */
  function Pick(row: seq<string>, idCol: nat, urlCol: nat): (e: Option<Entry>)
    ensures e.Some? <==> |row| > Max(idCol, urlCol) && Acceptable(Clean(row[idCol]), Clean(row[urlCol]))
    ensures e.Some? ==> e.value == Entry(Clean(row[idCol]), Clean(row[urlCol]))
  {
    if |row| > Max(idCol, urlCol) then
      var id := Clean(row[idCol]);
      var url := Clean(row[urlCol]);
      if Acceptable(id, url) then Some(Entry(id, url)) else None
    else None
  }

  /** What each record yields under fixed columns, the first `skip` records yielding nothing. */
  function PickAll(rows: seq<seq<string>>, idCol: nat, urlCol: nat, skip: nat): (picks: seq<Option<Entry>>)
    ensures |picks| == |rows|
    ensures forall i :: 0 <= i < |rows| ==> picks[i] == if i < skip then None else Pick(rows[i], idCol, urlCol)
  {
    seq(|rows|, i requires 0 <= i < |rows| => if i < skip then None else Pick(rows[i], idCol, urlCol))
  }

  /**
    `load_csv_urls_new` and `load_csv_urls_2019`: the first four records
    (`row_count <= 4`) are skipped, a missing file gives an empty map, and
    a read error ends the loop but keeps what was collected.
   */
  function LoadFixed(f: CsvFile, idCol: nat, urlCol: nat): (m: map<string, string>)
    ensures f.Missing? ==> m == map[]
  {
    match f
    case Missing => map[]
    case Present(content) => Store(PickAll(content.rows, idCol, urlCol, HeaderRecords))
  }

  /** new.csv: number in column 3, URL in column 11. */
  function LoadNew(f: CsvFile): (m: map<string, string>)
    ensures f.Missing? ==> m == map[]
  {
    LoadFixed(f, 3, 11)
  }

  /** The 2019 sheet: number in column 3, URL in column 4. */
  function Load2019(f: CsvFile): (m: map<string, string>)
    ensures f.Missing? ==> m == map[]
  {
    LoadFixed(f, 3, 4)
  }

  /**
    What the fixed-column loaders put in the map: a number is a key exactly
    when some record after the header is long enough and acceptable with
    that number as its stripped ID cell.
   */
  lemma LoadFixedKeys(rs: Records, idCol: nat, urlCol: nat, k: string)
    ensures k in LoadFixed(Present(rs), idCol, urlCol) <==>
            exists i :: HeaderRecords <= i < |rs.rows| && Pick(rs.rows[i], idCol, urlCol).Some?
                        && Clean(rs.rows[i][idCol]) == k
  {
    var picks := PickAll(rs.rows, idCol, urlCol, HeaderRecords);
    StoreKeys(picks, k);
  }

  /** Every key starts with `B`, and every URL contains "docs.google.com". */
  lemma LoadFixedAccepts(f: CsvFile, idCol: nat, urlCol: nat, k: string)
    requires k in LoadFixed(f, idCol, urlCol)
    ensures |k| > 0 && k[0] == 'B' && Text.Contains(LoadFixed(f, idCol, urlCol)[k], GoogleDocs)
  {
    var i := StoreSource(PickAll(f.content.rows, idCol, urlCol, HeaderRecords), k);
  }

  /**
    Later records overwrite earlier ones: an acceptable record after the
    header that no later acceptable record shares a number with supplies
    the URL.
   */
  lemma LoadFixedLastWins(rs: Records, idCol: nat, urlCol: nat, i: nat)
    requires HeaderRecords <= i < |rs.rows| && Pick(rs.rows[i], idCol, urlCol).Some?
    requires forall j :: i < j < |rs.rows| && Pick(rs.rows[j], idCol, urlCol).Some? ==>
                         Pick(rs.rows[j], idCol, urlCol).value.id != Pick(rs.rows[i], idCol, urlCol).value.id
    ensures Pick(rs.rows[i], idCol, urlCol).value.id in LoadFixed(Present(rs), idCol, urlCol)
    ensures LoadFixed(Present(rs), idCol, urlCol)[Pick(rs.rows[i], idCol, urlCol).value.id]
            == Pick(rs.rows[i], idCol, urlCol).value.url
  {
    StoreLastWins(PickAll(rs.rows, idCol, urlCol, HeaderRecords), i);
  }

  /** `{**urls2, **urls1}`: the union of the two maps, new.csv winning on a shared number. */
  function MergeV2(urlsNew: map<string, string>, urls2019: map<string, string>): (m: map<string, string>)
    ensures m.Keys == urlsNew.Keys + urls2019.Keys
    ensures forall k :: k in urlsNew ==> m[k] == urlsNew[k]
    ensures forall k :: k in urls2019 && k !in urlsNew ==> m[k] == urls2019[k]
  {
    urls2019 + urlsNew
  }

  /** The older script's plain-text file: absent, or its lines. */
  datatype TextFile = NoFile | Lines(lines: seq<string>)

  /**
    `load_csv_urls` of extract_urls_from_csv.py: `skip_rows` raw lines are
    consumed before parsing (too few lines end in StopIteration), the rest
    goes through the CSV parser `parse`, and ANY failure — missing file,
    too few lines, a parse error — discards everything and gives an empty
    map.
   */
  function LoadV1(f: TextFile, idCol: nat, urlCol: nat, skipRows: nat,
                  parse: seq<string> -> Records): (m: map<string, string>)
    ensures f.NoFile? ==> m == map[]
    ensures f.Lines? && |f.lines| < skipRows ==> m == map[]
    ensures f.Lines? && skipRows <= |f.lines| && parse(f.lines[skipRows..]).failed ==> m == map[]
    ensures f.Lines? && skipRows <= |f.lines| && !parse(f.lines[skipRows..]).failed ==>
              m == Store(PickAll(parse(f.lines[skipRows..]).rows, idCol, urlCol, 0))
  {
    match f
    case NoFile => map[]
    case Lines(lines) =>
      if |lines| < skipRows then map[]
      else
        var rs := parse(lines[skipRows..]);
        if rs.failed then map[] else Store(PickAll(rs.rows, idCol, urlCol, 0))
  }

  /**
    The older loader's keys: only when the skip and the parse both succeed,
    and then exactly the numbers of the acceptable records (none skipped
    by position, the header having gone with the raw lines).
   */
  lemma LoadV1Keys(lines: seq<string>, idCol: nat, urlCol: nat, skipRows: nat,
                   parse: seq<string> -> Records, k: string)
    ensures k in LoadV1(Lines(lines), idCol, urlCol, skipRows, parse) <==>
            && skipRows <= |lines| && !parse(lines[skipRows..]).failed
            && exists i :: 0 <= i < |parse(lines[skipRows..]).rows|
                           && Pick(parse(lines[skipRows..]).rows[i], idCol, urlCol).Some?
                           && Clean(parse(lines[skipRows..]).rows[i][idCol]) == k
  {
    if skipRows <= |lines| && !parse(lines[skipRows..]).failed {
      StoreKeys(PickAll(parse(lines[skipRows..]).rows, idCol, urlCol, 0), k);
    }
  }

  /** `{**urls1, **urls2}`: here the 2019 sheet wins on a shared number. */
  function MergeV1(urlsNew: map<string, string>, urls2019: map<string, string>): (m: map<string, string>)
    ensures m.Keys == urlsNew.Keys + urls2019.Keys
    ensures forall k :: k in urls2019 ==> m[k] == urls2019[k]
    ensures forall k :: k in urlsNew && k !in urls2019 ==> m[k] == urlsNew[k]
  {
    urlsNew + urls2019
  }

  /** The two scripts resolve a number both sheets list in opposite ways. */
  lemma MergesDisagree(urlsNew: map<string, string>, urls2019: map<string, string>, k: string)
    requires k in urlsNew && k in urls2019 && urlsNew[k] != urls2019[k]
    ensures MergeV2(urlsNew, urls2019)[k] == urlsNew[k]
    ensures MergeV1(urlsNew, urls2019)[k] == urls2019[k]
    ensures MergeV2(urlsNew, urls2019) != MergeV1(urlsNew, urls2019)
  {
  }

  /**
    A read error part-way through costs the newer loaders nothing already
    read: an acceptable record before the error still ends up in the map,
    whereas the older loader returns an empty map on any error.
   */
  lemma ReadErrorKeepsEarlierRecords(rows: seq<seq<string>>, idCol: nat, urlCol: nat, i: nat)
    requires HeaderRecords <= i < |rows| && Pick(rows[i], idCol, urlCol).Some?
    ensures Clean(rows[i][idCol]) in LoadFixed(Present(Records(rows, true)), idCol, urlCol)
  {
    LoadFixedKeys(Records(rows, true), idCol, urlCol, Clean(rows[i][idCol]));
  }

  // ---------------------------------------------------------------------
  // Cell scan: extract_urls_comprehensive.py
  // ---------------------------------------------------------------------

  /** A cell from which the scan takes the management number. */
  predicate YieldsId(cell: string) {
    Clean(cell) != "" && ManagementIds.ExtractAny(Clean(cell)).Some?
  }

  /** A cell the scan takes as the URL. */
  predicate HoldsUrl(cell: string) {
    Clean(cell) != "" && Text.Contains(Clean(cell), GoogleDocs)
  }

  /** The two variables of the inner loop. */
  datatype Scan = Scan(id: Option<string>, url: Option<string>)

  /** One iteration: each variable is set from the stripped cell only while it is still unset. */
  function ScanStep(st: Scan, cell: string): (next: Scan)
    ensures st.id.Some? ==> next.id == st.id
    ensures st.url.Some? ==> next.url == st.url
  {
    var c := Clean(cell);
    var id := if st.id.None? && c != "" && ManagementIds.ExtractAny(c).Some? then ManagementIds.ExtractAny(c) else st.id;
    var url := if st.url.None? && c != "" && Text.Contains(c, GoogleDocs) then Some(c) else st.url;
    Scan(id, url)
  }

  /** The loop over a record's cells, left to right. */
  function ScanCells(cells: seq<string>): (st: Scan)
  {
    if |cells| == 0 then Scan(None, None)
    else ScanStep(ScanCells(cells[..|cells| - 1]), cells[|cells| - 1])
  }

  /** With no cell yielding a number, the scan finds none. */
  lemma {:induction false} ScanNoId(cells: seq<string>)
    requires forall j :: 0 <= j < |cells| ==> !YieldsId(cells[j])
    ensures ScanCells(cells).id.None?
  {
    if |cells| > 0 {
      var front := cells[..|cells| - 1];
      assert forall j :: 0 <= j < |front| ==> front[j] == cells[j];
      ScanNoId(front);
    }
  }

  /** The number comes from the leftmost cell that yields one; later cells never replace it. */
  lemma {:induction false} ScanTakesLeftmostId(cells: seq<string>, i: nat)
    requires i < |cells| && YieldsId(cells[i])
    requires forall j :: 0 <= j < i ==> !YieldsId(cells[j])
    ensures ScanCells(cells).id == ManagementIds.ExtractAny(Clean(cells[i]))
  {
    var front := cells[..|cells| - 1];
    if i == |cells| - 1 {
      assert forall j :: 0 <= j < |front| ==> front[j] == cells[j];
      ScanNoId(front);
    } else {
      assert forall j :: 0 <= j <= i ==> front[j] == cells[j];
      ScanTakesLeftmostId(front, i);
    }
  }

  /** With no cell holding a URL, the scan finds none. */
  lemma {:induction false} ScanNoUrl(cells: seq<string>)
    requires forall j :: 0 <= j < |cells| ==> !HoldsUrl(cells[j])
    ensures ScanCells(cells).url.None?
  {
    if |cells| > 0 {
      var front := cells[..|cells| - 1];
      assert forall j :: 0 <= j < |front| ==> front[j] == cells[j];
      ScanNoUrl(front);
    }
  }

  /** The URL is the leftmost stripped cell containing "docs.google.com". */
  lemma {:induction false} ScanTakesLeftmostUrl(cells: seq<string>, i: nat)
    requires i < |cells| && HoldsUrl(cells[i])
    requires forall j :: 0 <= j < i ==> !HoldsUrl(cells[j])
    ensures ScanCells(cells).url == Some(Clean(cells[i]))
  {
    var front := cells[..|cells| - 1];
    if i == |cells| - 1 {
      assert forall j :: 0 <= j < |front| ==> front[j] == cells[j];
      ScanNoUrl(front);
    } else {
      assert forall j :: 0 <= j <= i ==> front[j] == cells[j];
      ScanTakesLeftmostUrl(front, i);
    }
  }

  /** Whatever the scan finds came from some cell. */
  lemma {:induction false} ScanFindsOnlyCells(cells: seq<string>)
    ensures ScanCells(cells).id.Some? ==> exists j :: 0 <= j < |cells| && YieldsId(cells[j])
    ensures ScanCells(cells).url.Some? ==> exists j :: 0 <= j < |cells| && HoldsUrl(cells[j])
  {
    if |cells| > 0 {
      var front := cells[..|cells| - 1];
      ScanFindsOnlyCells(front);
      assert forall j :: 0 <= j < |front| ==> front[j] == cells[j];
    }
  }

  /** A record contributes only when both a number and a URL were found. */
  function RowEntry(row: seq<string>): (e: Option<Entry>)
    ensures e.Some? ==> |e.value.id| >= 2 && Text.Contains(e.value.url, GoogleDocs)
  {
    var st := ScanCells(row);
    if st.id.Some? && st.url.Some? then
      ScanFindsOnlyCells(row);
      ScanUrlContains(row);
      ScanIdNonEmpty(row);
      Some(Entry(st.id.value, st.url.value))
    else None
  }

  /** A URL the scan finds contains "docs.google.com". */
  lemma {:induction false} ScanUrlContains(cells: seq<string>)
    ensures ScanCells(cells).url.Some? ==> Text.Contains(ScanCells(cells).url.value, GoogleDocs)
  {
    if |cells| > 0 {
      ScanUrlContains(cells[..|cells| - 1]);
    }
  }

  /** A number the scan finds has at least two characters. */
  lemma {:induction false} ScanIdNonEmpty(cells: seq<string>)
    ensures ScanCells(cells).id.Some? ==> |ScanCells(cells).id.value| >= 2
  {
    if |cells| > 0 {
      ScanIdNonEmpty(cells[..|cells| - 1]);
    }
  }

  /** What the scan can contribute: a number of two or more characters and a Google Docs URL. */
  predicate Scanned(e: Entry) {
    |e.id| >= 2 && Text.Contains(e.url, GoogleDocs)
  }

  /** What each record of one file yields: nothing for a missing file or a header record. */
  function FilePicks(f: CsvFile): (picks: seq<Option<Entry>>)
    ensures forall i :: 0 <= i < |picks| && picks[i].Some? ==> Scanned(picks[i].value)
    ensures f.Missing? ==> picks == []
    ensures f.Present? ==> |picks| == |f.content.rows|
    ensures f.Present? ==> forall i :: 0 <= i < |picks| ==>
              picks[i] == if i < HeaderRecords then None else RowEntry(f.content.rows[i])
  {
    match f
    case Missing => []
    case Present(content) =>
      seq(|content.rows|, i requires 0 <= i < |content.rows| =>
        if i < HeaderRecords then None else RowEntry(content.rows[i]))
  }

  /** The files in turn; an error inside one file ends only that file. */
  function AllPicks(files: seq<CsvFile>): (picks: seq<Option<Entry>>)
    ensures forall i :: 0 <= i < |picks| && picks[i].Some? ==> Scanned(picks[i].value)
  {
    if |files| == 0 then [] else AllPicks(files[..|files| - 1]) + FilePicks(files[|files| - 1])
  }

  /** `load_all_csvs`: one map written by every record of every file, in order. */
  function LoadAll(files: seq<CsvFile>): (m: map<string, string>)
  {
    Store(AllPicks(files))
  }

  /** The file list of the script: new.csv first, then the 2019 sheet. */
  function LoadComprehensive(fNew: CsvFile, f2019: CsvFile): (m: map<string, string>)
  {
    LoadAll([fNew, f2019])
  }

  /** Every stored URL contains "docs.google.com", and every key has at least two characters. */
  lemma LoadAllAccepts(files: seq<CsvFile>, k: string)
    requires k in LoadAll(files)
    ensures |k| >= 2 && Text.Contains(LoadAll(files)[k], GoogleDocs)
  {
    var i := StoreSource(AllPicks(files), k);
  }

  /** The records the script reads from its two files, new.csv's first. */
  lemma TwoFiles(fNew: CsvFile, f2019: CsvFile)
    ensures AllPicks([fNew, f2019]) == FilePicks(fNew) + FilePicks(f2019)
  {
    assert [fNew, f2019][..1] == [fNew];
    assert [fNew][..0] == [];
    assert AllPicks([fNew]) == [] + FilePicks(fNew) == FilePicks(fNew);
  }

  /** A missing file is skipped without disturbing the other. */
  lemma MissingFileSkipped(fNew: CsvFile, f2019: CsvFile)
    requires fNew.Missing?
    ensures LoadComprehensive(fNew, f2019) == Store(FilePicks(f2019))
  {
    TwoFiles(fNew, f2019);
    assert FilePicks(fNew) + FilePicks(f2019) == FilePicks(f2019);
  }

  /**
    The 2019 sheet is read second, so an entry of its body that no later
    record of it repeats wins over anything new.csv says about the number.
   */
  lemma ComprehensiveLaterFileWins(fNew: CsvFile, rs: Records, i: nat)
    requires HeaderRecords <= i < |rs.rows| && RowEntry(rs.rows[i]).Some?
    requires forall j :: i < j < |rs.rows| && RowEntry(rs.rows[j]).Some? ==>
                         RowEntry(rs.rows[j]).value.id != RowEntry(rs.rows[i]).value.id
    ensures RowEntry(rs.rows[i]).value.id in LoadComprehensive(fNew, Present(rs))
    ensures LoadComprehensive(fNew, Present(rs))[RowEntry(rs.rows[i]).value.id] == RowEntry(rs.rows[i]).value.url
  {
    TwoFiles(fNew, Present(rs));
    var b := FilePicks(Present(rs));
    assert b[i] == RowEntry(rs.rows[i]);
    assert forall j :: i < j < |b| ==> b[j] == RowEntry(rs.rows[j]);
    StoreAppendLastWins(FilePicks(fNew), b, i);
  }

  /**
    The number and URL of a contributing record are the leftmost cells
    that qualify, each found independently of the other.
   */
  lemma RowEntryIsLeftmost(row: seq<string>, i: nat, j: nat)
    requires i < |row| && YieldsId(row[i]) && forall x :: 0 <= x < i ==> !YieldsId(row[x])
    requires j < |row| && HoldsUrl(row[j]) && forall x :: 0 <= x < j ==> !HoldsUrl(row[x])
    ensures RowEntry(row) == Some(Entry(ManagementIds.ExtractAny(Clean(row[i])).value, Clean(row[j])))
  {
    ScanTakesLeftmostId(row, i);
    ScanTakesLeftmostUrl(row, j);
  }

  /** A record with no qualifying URL cell contributes nothing, whatever numbers it holds. */
  lemma RowWithoutUrlIgnored(row: seq<string>)
    requires forall x :: 0 <= x < |row| ==> !HoldsUrl(row[x])
    ensures RowEntry(row).None?
  {
    ScanNoUrl(row);
  }

  // ---------------------------------------------------------------------
  // Matching database scripts
  // ---------------------------------------------------------------------

  /** One `UPDATE dialogues SET script_url = ? WHERE script_name = ?`. */
  datatype Update = Update(id: string, name: string, url: string)

  /** A script matches when its name yields a number that is a key of the map. */
  predicate Matched(name: string, mapping: map<string, string>, extract: string -> Option<string>) {
    extract(name).Some? && extract(name).value in mapping
  }

  /**
    The loop over `SELECT DISTINCT script_name`: one update per matching
    name, in the order of the names, carrying the mapped URL.
   */
  function Updates(names: seq<string>, mapping: map<string, string>, extract: string -> Option<string>): (us: seq<Update>)
    ensures |us| <= |names|
    ensures forall u :: u in us ==> u.name in names && extract(u.name) == Some(u.id)
                                    && u.id in mapping && u.url == mapping[u.id]
  {
    if |names| == 0 then []
    else
      var rest := Updates(names[1..], mapping, extract);
      match extract(names[0])
      case Some(id) => if id in mapping then [Update(id, names[0], mapping[id])] + rest else rest
      case None => rest
  }

  /** A name gets an update exactly when it matches. */
  lemma {:induction false} UpdatedIffMatched(names: seq<string>, mapping: map<string, string>,
                                              extract: string -> Option<string>, name: string)
    requires name in names
    ensures (exists u :: u in Updates(names, mapping, extract) && u.name == name) <==> Matched(name, mapping, extract)
  {
    var us := Updates(names, mapping, extract);
    if name == names[0] {
      if Matched(name, mapping, extract) {
        assert us[0].name == name;
      }
    } else {
      UpdatedIffMatched(names[1..], mapping, extract, name);
    }
  }

  /** The `script_url` column, per script name, after running the updates in order. */
  function Apply(column: map<string, string>, us: seq<Update>): (c: map<string, string>)
    decreases |us|
  {
    if |us| == 0 then column else Apply(column[us[0].name := us[0].url], us[1..])
  }

  /**
    After the updates every matching script carries the URL of its number,
    and every other script keeps the URL it had (or still has none).
   */
  lemma {:induction false} ApplyUpdates(column: map<string, string>, names: seq<string>, mapping: map<string, string>,
                                        extract: string -> Option<string>, name: string)
    ensures var c := Apply(column, Updates(names, mapping, extract));
            if name in names && Matched(name, mapping, extract) then
              name in c && c[name] == mapping[extract(name).value]
            else
              (name in c <==> name in column) && (name in column ==> c[name] == column[name])
    decreases |names|
  {
    if |names| > 0 {
      var x := names[0];
      var rest := Updates(names[1..], mapping, extract);
      if Matched(x, mapping, extract) {
        var u := Update(extract(x).value, x, mapping[extract(x).value]);
        assert Updates(names, mapping, extract) == [u] + rest;
        assert ([u] + rest)[1..] == rest;
        ApplyUpdates(column[x := u.url], names[1..], mapping, extract, name);
      } else {
        ApplyUpdates(column, names[1..], mapping, extract, name);
      }
    }
  }

  /**
    Keys are whole stripped cells, but names are matched on their `^B\d+`
    prefix, so a key such as "B12a" or "B12 " can never be matched.
   */
  lemma OnlyBNumberKeysMatch(names: seq<string>, mapping: map<string, string>, u: Update)
    requires u in Updates(names, mapping, ManagementIds.ExtractB)
    ensures ManagementIds.IsBNumber(u.id) && u.id in mapping
  {
  }

  /** extract_urls_from_csv_v2.py: new.csv wins, names matched on `^B\d+`. */
  function RunV2(fNew: CsvFile, f2019: CsvFile, names: seq<string>): (us: seq<Update>)
    ensures forall u :: u in us ==> ManagementIds.ExtractB(u.name) == Some(u.id)
                                    && u.id in MergeV2(LoadNew(fNew), Load2019(f2019))
                                    && u.url == MergeV2(LoadNew(fNew), Load2019(f2019))[u.id]
  {
    Updates(names, MergeV2(LoadNew(fNew), Load2019(f2019)), ManagementIds.ExtractB)
  }

  /** extract_urls_from_csv.py: the 2019 sheet wins, names matched on `^B\d+`. */
  function RunV1(fNew: TextFile, f2019: TextFile, parse: seq<string> -> Records, names: seq<string>): (us: seq<Update>)
    ensures forall u :: u in us ==> ManagementIds.ExtractB(u.name) == Some(u.id)
                                    && u.id in MergeV1(LoadV1(fNew, 3, 10, 2, parse), LoadV1(f2019, 3, 4, 4, parse))
                                    && u.url == MergeV1(LoadV1(fNew, 3, 10, 2, parse), LoadV1(f2019, 3, 4, 4, parse))[u.id]
  {
    Updates(names, MergeV1(LoadV1(fNew, 3, 10, 2, parse), LoadV1(f2019, 3, 4, 4, parse)), ManagementIds.ExtractB)
  }

  /** extract_urls_comprehensive.py: one map over both files, names matched on the two patterns. */
  function RunComprehensive(fNew: CsvFile, f2019: CsvFile, names: seq<string>): (us: seq<Update>)
    ensures forall u :: u in us ==> ManagementIds.ExtractAny(u.name) == Some(u.id)
                                    && u.id in LoadComprehensive(fNew, f2019)
                                    && u.url == LoadComprehensive(fNew, f2019)[u.id]
  {
    Updates(names, LoadComprehensive(fNew, f2019), ManagementIds.ExtractAny)
  }
}
