/**
  Script detail (netlify/functions/script_detail.js, api/script_detail.py and
  netlify/functions/script_detail.py). The handler looks the script up by
  its exact name, fetches its lines in row order (only those matching the
  keyword when one is given), flags every line whose text contains the
  keyword ignoring ASCII case, and reports how many lines matched and what
  fraction of the returned lines that is.
 */
module Detail {
  import opened Basics
  import Text
  import Http
  import Fetcher

  /** The metadata row of a script; every column but the name may be NULL. */
  datatype ScriptInfo = ScriptInfo(
    scriptName: string,
    scriptUrl: Option<string>,
    releaseDate: Option<string>,
    youtubeTitle: Option<string>,
    youtubeUrl: Option<string>,
    youtubeVideoId: Option<string>,
    themes: Option<string>,
    subjects: Option<string>,
    category: Option<string>)

  /** One row of the dialogue query. */
  datatype DialogueRow = DialogueRow(character: Option<string>, dialogue: Option<string>, rowNumber: Option<int>)

  /** One line of the response. */
  datatype DetailLine = DetailLine(character: string, dialogue: string, rowNumber: int, isMatch: bool)

  /** The `data` object of a successful response. */
  datatype ScriptDetail = ScriptDetail(
    scriptName: string,
    scriptUrl: string,
    releaseDate: string,
    youtubeTitle: string,
    youtubeUrl: string,
    youtubeVideoId: string,
    themes: string,
    subjects: string,
    category: string,
    totalDialogues: nat,
    matchCount: nat,
    matchConfidence: Ratio,
    keyword: string,
    dialogues: seq<DetailLine>)

  /** A line matches when a keyword is given and the line's text contains it, ignoring ASCII case. */
  predicate IsMatch(keyword: string, row: DialogueRow) {
    keyword != "" && Text.Contains(Text.Lower(OrEmpty(row.dialogue)), Text.Lower(keyword))
  }

  function FlagRow(keyword: string, row: DialogueRow): (line: DetailLine)
    ensures line.isMatch <==> IsMatch(keyword, row)
    ensures line.character == OrEmpty(row.character) && line.dialogue == OrEmpty(row.dialogue)
    ensures line.rowNumber == OrZero(row.rowNumber)
  {
    DetailLine(OrEmpty(row.character), OrEmpty(row.dialogue), OrZero(row.rowNumber), IsMatch(keyword, row))
  }

  /**
    A line is flagged exactly when a keyword is given and occurs in the
    line's text at some offset, ASCII case ignored; a NULL text is searched
    as `''`, so it is never flagged.
   */
  lemma FlaggedIffOccurs(keyword: string, row: DialogueRow)
    ensures FlagRow(keyword, row).isMatch <==>
              keyword != "" && exists i :: Text.OccursAt(Text.Lower(FlagRow(keyword, row).dialogue), Text.Lower(keyword), i)
    ensures row.dialogue.None? ==> !FlagRow(keyword, row).isMatch
  {
    Text.ContainsAt(Text.Lower(OrEmpty(row.dialogue)), Text.Lower(keyword));
  }

  /** The response lines: one per row, in row order. */
  function FlagRows(keyword: string, rows: seq<DialogueRow>): (lines: seq<DetailLine>)
    ensures |lines| == |rows|
    ensures forall i :: 0 <= i < |rows| ==> lines[i] == FlagRow(keyword, rows[i])
  {
    seq(|rows|, i requires 0 <= i < |rows| => FlagRow(keyword, rows[i]))
  }

  /** The number of flagged lines. */
  function CountFlagged(lines: seq<DetailLine>): (n: nat)
    ensures n <= |lines|
    ensures n == 0 <==> forall i :: 0 <= i < |lines| ==> !lines[i].isMatch
    decreases |lines|
  {
    if |lines| == 0 then 0
    else CountFlagged(lines[..|lines| - 1]) + (if lines[|lines| - 1].isMatch then 1 else 0)
  }

  /**
    The loop of the handler: one pass over the rows that appends a line per
    row and counts the matches as it goes.
   */
  method ScanRows(keyword: string, rows: seq<DialogueRow>) returns (lines: seq<DetailLine>, matchCount: nat)
    ensures lines == FlagRows(keyword, rows)
    ensures matchCount == CountFlagged(lines)
  {
    lines := [];
    matchCount := 0;
    var i := 0;
    while i < |rows|
      invariant 0 <= i <= |rows|
      invariant lines == FlagRows(keyword, rows[..i])
      invariant matchCount == CountFlagged(lines)
    {
      var line := FlagRow(keyword, rows[i]);
      ScanStep(keyword, rows, i, lines);
      if line.isMatch {
        matchCount := matchCount + 1;
      }
      lines := lines + [line];
      i := i + 1;
    }
    assert rows[..i] == rows;
  }

  /** One turn of the scan: the next row's line goes at the end, and the count grows iff it is flagged. */
  lemma ScanStep(keyword: string, rows: seq<DialogueRow>, i: nat, lines: seq<DetailLine>)
    requires i < |rows| && lines == FlagRows(keyword, rows[..i])
    ensures var line := FlagRow(keyword, rows[i]);
            && FlagRows(keyword, rows[..i + 1]) == lines + [line]
            && CountFlagged(lines + [line]) == CountFlagged(lines) + (if line.isMatch then 1 else 0)
  {
    var line := FlagRow(keyword, rows[i]);
    assert (lines + [line])[..|lines|] == lines;
    assert rows[..i + 1] == rows[..i] + [rows[i]];
  }

  /**
    An exact quotient `part / whole`. The runtimes evaluate the division in
    double precision; the model keeps the two operands.
   */
  datatype Ratio = Ratio(part: nat, whole: nat)
  {
    /** The quotient lies between 0 and 1. */
    predicate InUnitRange() { whole > 0 && part <= whole }
    predicate IsZero() { part == 0 }
    predicate IsOne() { whole > 0 && part == whole }
  }

  /** `matchCount / total` when a keyword is given and there are lines, and 0 otherwise. */
  function Confidence(keyword: string, matchCount: nat, total: nat): (c: Ratio)
    requires matchCount <= total
    ensures c.InUnitRange()
    ensures keyword == "" || total == 0 ==> c.IsZero()
    ensures keyword != "" && total > 0 ==> c.part == matchCount && c.whole == total
  {
    if keyword != "" && total > 0 then Ratio(matchCount, total) else Ratio(0, 1)
  }

  /** The `data` object built from the metadata row and the dialogue rows. */
  function Build(keyword: string, info: ScriptInfo, rows: seq<DialogueRow>): (d: ScriptDetail)
    ensures d.dialogues == FlagRows(keyword, rows) && d.keyword == keyword
    ensures d.totalDialogues == |rows| && d.matchCount == CountFlagged(d.dialogues)
    ensures d.matchConfidence == Confidence(keyword, d.matchCount, d.totalDialogues)
    ensures d.scriptName == info.scriptName
  {
    var lines := FlagRows(keyword, rows);
    var n := CountFlagged(lines);
    ScriptDetail(info.scriptName, OrEmpty(info.scriptUrl), OrEmpty(info.releaseDate), OrEmpty(info.youtubeTitle),
                 OrEmpty(info.youtubeUrl), OrEmpty(info.youtubeVideoId), OrEmpty(info.themes), OrEmpty(info.subjects),
                 OrEmpty(info.category), |lines|, n, Confidence(keyword, n, |lines|), keyword, lines)
  }

  /** With no keyword nothing is flagged, and the count and the confidence are 0. */
  lemma NoKeywordFlagsNothing(info: ScriptInfo, rows: seq<DialogueRow>)
    ensures var d := Build("", info, rows);
            && d.matchCount == 0 && d.matchConfidence.IsZero()
            && forall i :: 0 <= i < |d.dialogues| ==> !d.dialogues[i].isMatch
  {
  }

  /** The confidence is the fraction of the lines that matched: 1 exactly when every line matched, 0 when none did. */
  lemma ConfidenceIsFraction(keyword: string, info: ScriptInfo, rows: seq<DialogueRow>)
    requires keyword != "" && |rows| > 0
    ensures var d := Build(keyword, info, rows);
            && d.matchConfidence.InUnitRange()
            && (d.matchConfidence.IsOne() <==> forall i :: 0 <= i < |rows| ==> IsMatch(keyword, rows[i]))
            && (d.matchConfidence.IsZero() <==> forall i :: 0 <= i < |rows| ==> !IsMatch(keyword, rows[i]))
  {
    var d := Build(keyword, info, rows);
    if d.matchCount == |rows| {
      AllFlaggedWhenCountIsFull(d.dialogues);
      assert forall i :: 0 <= i < |rows| ==> d.dialogues[i].isMatch;
    } else if forall i :: 0 <= i < |rows| ==> IsMatch(keyword, rows[i]) {
      assert forall i :: 0 <= i < |rows| ==> d.dialogues[i].isMatch;
      FullCountWhenAllFlagged(d.dialogues);
    }
  }

  lemma {:induction false} AllFlaggedWhenCountIsFull(lines: seq<DetailLine>)
    requires CountFlagged(lines) == |lines|
    ensures forall i :: 0 <= i < |lines| ==> lines[i].isMatch
    decreases |lines|
  {
    if |lines| > 0 {
      var front := lines[..|lines| - 1];
      AllFlaggedWhenCountIsFull(front);
      assert forall i :: 0 <= i < |front| ==> lines[i] == front[i];
    }
  }

  lemma {:induction false} FullCountWhenAllFlagged(lines: seq<DetailLine>)
    requires forall i :: 0 <= i < |lines| ==> lines[i].isMatch
    ensures CountFlagged(lines) == |lines|
    decreases |lines|
  {
    if |lines| > 0 {
      var front := lines[..|lines| - 1];
      assert forall i :: 0 <= i < |front| ==> front[i] == lines[i];
      FullCountWhenAllFlagged(front);
    }
  }

  // ---------------------------------------------------------------------
  // The handlers.
  // ---------------------------------------------------------------------

  /** What the metadata query returned. */
  datatype InfoAnswer = InfoFailed | NoInfo | Info(info: ScriptInfo)

  /** What the dialogue query returned. */
  datatype LinesAnswer = LinesFailed | Lines(rows: seq<DialogueRow>)

  /**
    The part every variant shares once the parameters are read and the
    database is open: 404 without a metadata row, otherwise the built
    detail. `onError` is what a failed query turns into.
   */
  function Lookup(scriptName: string, keyword: string, info: InfoAnswer, lines: LinesAnswer,
                  onError: Http.Reply<ScriptDetail>): (r: Http.Reply<ScriptDetail>)
    ensures info.NoInfo? ==> r == Http.NotFound(Http.ScriptNotFound)
    ensures info.InfoFailed? || (info.Info? && lines.LinesFailed?) ==> r == onError
    ensures info.Info? && lines.Lines? ==> r == Http.Ok(Build(keyword, info.info, lines.rows))
  {
    match info
    case InfoFailed => onError
    case NoInfo => Http.NotFound(Http.ScriptNotFound)
    case Info(meta) =>
      match lines
      case LinesFailed => onError
      case Lines(rows) => Http.Ok(Build(keyword, meta, rows))
  }

  /**
    netlify/functions/script_detail.js: the parameters are used as given,
    never trimmed; the database comes from the validating downloader; a
    failed query, or any query on a file that is no database, rejects the
    returned promise.
   */
  function DetailJs(httpMethod: string, params: map<string, string>, st: Fetcher.FetchState, now: nat,
                    network: seq<Fetcher.Exchange>, info: InfoAnswer, lines: LinesAnswer): (out: Fetcher.Served<ScriptDetail>)
    ensures httpMethod != "GET" ==> out.state == st && out.requested == []
    ensures out.reply.BadRequest? <==> httpMethod == "GET" && Http.RawParam(params, "script_name") == ""
    ensures httpMethod == "OPTIONS" ==> out.reply == Http.Preflight
    ensures httpMethod != "GET" && httpMethod != "OPTIONS" ==> out.reply == Http.MethodNotAllowed
    ensures httpMethod == "GET" && Http.RawParam(params, "script_name") == "" ==>
              out == Fetcher.Served(Http.BadRequest(Http.ScriptNameRequired), st, [])
    ensures httpMethod == "GET" && Http.RawParam(params, "script_name") != "" ==>
              var f := Fetcher.Ensure(Fetcher.Validating, st, now, network);
              && out.state == f.state && out.requested == f.requested
              && (f.result.Err? ==> out.reply == Fetcher.FailureReply(f.result.error))
              && (f.result.Ok? && !Fetcher.ServesDatabase(f) ==> out.reply == Http.Unhandled)
              && (Fetcher.ServesDatabase(f) ==> out.reply == Lookup(params["script_name"], Http.RawParam(params, "keyword"), info, lines, Http.Unhandled))
  {
    if httpMethod != "GET" then
      Fetcher.Served(Http.Dispatch(httpMethod, Http.Unhandled), st, [])
    else
      var scriptName := Http.RawParam(params, "script_name");
      var keyword := Http.RawParam(params, "keyword");
      if scriptName == "" then Fetcher.Served(Http.BadRequest(Http.ScriptNameRequired), st, [])
      else
        var f := Fetcher.Ensure(Fetcher.Validating, st, now, network);
        if f.result.Err? then Fetcher.Served(Fetcher.FailureReply(f.result.error), f.state, f.requested)
        else if !Fetcher.ServesDatabase(f) then Fetcher.Served(Http.Unhandled, f.state, f.requested)
        else Fetcher.Served(Lookup(scriptName, keyword, info, lines, Http.Unhandled), f.state, f.requested)
  }

  /**
    The body both Python variants share: both parameters stripped, 400 for
    an empty name, and every failure (download, connection or query) a 500.
   */
  function DetailPyBody(scriptName: string, keyword: string, info: InfoAnswer, lines: LinesAnswer): (r: Http.Reply<ScriptDetail>)
    ensures scriptName == "" ==> r == Http.BadRequest(Http.ScriptNameRequired)
    ensures r.BadRequest? <==> scriptName == ""
    ensures scriptName != "" ==> r == Lookup(scriptName, keyword, info, lines, Http.ServerError)
  {
    if scriptName == "" then Http.BadRequest(Http.ScriptNameRequired)
    else Lookup(scriptName, keyword, info, lines, Http.ServerError)
  }

  /** api/script_detail.py: a `BaseHTTPRequestHandler` reading `parse_qs` values. */
  function DetailVercel(httpMethod: string, params: map<string, seq<string>>, info: InfoAnswer, lines: LinesAnswer): (r: Http.Reply<ScriptDetail>)
    ensures httpMethod == "OPTIONS" ==> r == Http.Preflight
    ensures httpMethod != "GET" && httpMethod != "OPTIONS" ==> r == Http.NotImplemented
    ensures httpMethod == "GET" ==>
              r == DetailPyBody(Http.FirstValueStripped(params, "script_name"), Http.FirstValueStripped(params, "keyword"), info, lines)
  {
    if httpMethod == "GET" then
      DetailPyBody(Http.FirstValueStripped(params, "script_name"), Http.FirstValueStripped(params, "keyword"), info, lines)
    else Http.ServePy(httpMethod, Http.Unhandled)
  }

  /** netlify/functions/script_detail.py: the Netlify dispatch, reading plain string parameters. */
  function DetailNetlifyPy(httpMethod: string, params: map<string, string>, info: InfoAnswer, lines: LinesAnswer): (r: Http.Reply<ScriptDetail>)
    ensures httpMethod == "OPTIONS" ==> r == Http.Preflight
    ensures httpMethod != "GET" && httpMethod != "OPTIONS" ==> r == Http.MethodNotAllowed
    ensures httpMethod == "GET" ==>
              r == DetailPyBody(Http.RawParamStripped(params, "script_name"), Http.RawParamStripped(params, "keyword"), info, lines)
  {
    if httpMethod == "GET" then
      DetailPyBody(Http.RawParamStripped(params, "script_name"), Http.RawParamStripped(params, "keyword"), info, lines)
    else Http.Dispatch(httpMethod, Http.Unhandled)
  }

  /**
    In the Python handlers a keyword of spaces is stripped to nothing, so
    the request behaves exactly as one without a keyword.
   */
  lemma BlankKeywordIsNoKeywordInPy(name: string, info: InfoAnswer, lines: LinesAnswer)
    ensures DetailNetlifyPy("GET", map["script_name" := name, "keyword" := "  "], info, lines)
         == DetailNetlifyPy("GET", map["script_name" := name], info, lines)
  {
    assert Text.IsSpace(Text.Py, ' ');
    assert |Text.Trim(Text.Py, "  ")| == 0;
  }

  /** The JavaScript handler does not trim: a keyword of one space flags every line containing a space. */
  lemma BlankKeywordFlagsSpacesInJs(info: ScriptInfo, rows: seq<DialogueRow>, i: nat)
    requires i < |rows| && rows[i].dialogue == Some("a b")
    ensures Build(" ", info, rows).dialogues[i].isMatch
  {
    assert Text.Lower("a b") == "a b";
    assert Text.Lower(" ") == " ";
    assert Text.Contains("a b", " ") by {
      assert Text.OccursAt("a b", " ", 1);
      Text.ContainsAt("a b", " ");
    }
  }

  /** A script name of spaces is a 400 in the Python handlers but reaches the lookup in JavaScript. */
  lemma BlankNameRejectedOnlyInPy(info: InfoAnswer, lines: LinesAnswer, st: Fetcher.FetchState, now: nat,
                                  network: seq<Fetcher.Exchange>)
    ensures DetailNetlifyPy("GET", map["script_name" := " "], info, lines) == Http.BadRequest(Http.ScriptNameRequired)
    ensures !DetailJs("GET", map["script_name" := " "], st, now, network, info, lines).reply.BadRequest?
  {
    assert Http.RawParam(map["script_name" := " "], "script_name") == " ";
    assert Text.IsSpace(Text.Py, ' ');
    assert |Text.Trim(Text.Py, " ")| == 0;
  }
}
