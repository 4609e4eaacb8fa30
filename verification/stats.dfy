/**
  Database statistics (netlify/functions/stats_v2.js and
  netlify/functions/stats.js). Both handlers obtain the database through
  their own downloader and then run two COUNT queries; the second query
  runs only when the first succeeded. They differ only in the downloader
  and in the extra `details` text of the 500 body of stats_v2.js.
 */
module DbStats {
  import opened Basics
  import Http
  import Fetcher

  /** The `status` text of a successful report. */
  const Loaded := "Database loaded successfully"

  /** The `data` object of a successful report. */
  datatype Report = Report(totalScripts: nat, totalDialogues: nat, status: string)

  /**
    What the two queries give: both counts, the first query (`COUNT(DISTINCT
    script_name)`) failing, or the second (`COUNT(*)`) failing.
   */
  datatype CountsAnswer = Counts(scripts: nat, dialogues: nat) | ScriptsFailed | DialoguesFailed

  /**
    The GET body once the database is at hand: a report of the two counts,
    or a rejected promise when either query fails (the rejection is not
    caught, because the promise is returned rather than awaited inside the
    `try`).
   */
  function Answer(answer: CountsAnswer): (r: Http.Reply<Report>)
    ensures r.Ok? <==> answer.Counts?
    ensures r.Ok? ==> r.payload.totalScripts == answer.scripts && r.payload.totalDialogues == answer.dialogues
                      && r.payload.status == Loaded
    ensures !r.Ok? ==> r == Http.Unhandled && Http.Status(r).None?
  {
    match answer
    case Counts(scripts, dialogues) => Http.Ok(Report(scripts, dialogues, Loaded))
    case _ => Http.Unhandled
  }

  /**
    The shared handler over a downloader variant: OPTIONS and other methods
    never touch the downloader; a GET whose download fails is a 500 (or no
    response after a crash); once the download resolves, the queries run on
    the file it resolved with, so `answer` is what they give only when that
    file is a database, and the first query fails otherwise.
   */
  function Handle(v: Fetcher.Variant, httpMethod: string, st: Fetcher.FetchState, now: nat,
                  network: seq<Fetcher.Exchange>, answer: CountsAnswer): (out: Fetcher.Served<Report>)
    ensures httpMethod != "GET" ==> out.state == st && out.requested == []
    ensures httpMethod == "OPTIONS" ==> out.reply == Http.Preflight
    ensures httpMethod != "GET" && httpMethod != "OPTIONS" ==> out.reply == Http.MethodNotAllowed
    ensures httpMethod == "GET" ==>
              var f := Fetcher.Ensure(v, st, now, network);
              && out.state == f.state && out.requested == f.requested
              && (f.result.Err? ==> out.reply == Fetcher.FailureReply(f.result.error))
              && (f.result.Ok? && !Fetcher.ServesDatabase(f) ==> out.reply == Answer(ScriptsFailed))
              && (Fetcher.ServesDatabase(f) ==> out.reply == Answer(answer))
  {
    if httpMethod != "GET" then
      Fetcher.Served(Http.Dispatch(httpMethod, Http.Unhandled), st, [])
    else
      var f := Fetcher.Ensure(v, st, now, network);
      if f.result.Err? then Fetcher.Served(Fetcher.FailureReply(f.result.error), f.state, f.requested)
      else if !Fetcher.ServesDatabase(f) then Fetcher.Served(Answer(ScriptsFailed), f.state, f.requested)
      else Fetcher.Served(Answer(answer), f.state, f.requested)
  }

  /** stats_v2.js: the validating downloader. */
  function StatsV2Js(httpMethod: string, st: Fetcher.FetchState, now: nat, network: seq<Fetcher.Exchange>,
                     answer: CountsAnswer): (out: Fetcher.Served<Report>)
    ensures httpMethod == "GET" && Fetcher.Ensure(Fetcher.StatsV2, st, now, network).result.Err? ==>
              out.reply == Fetcher.FailureReply(Fetcher.Ensure(Fetcher.StatsV2, st, now, network).result.error)
    ensures out.reply.Ok? ==>
              httpMethod == "GET" && answer.Counts? && Fetcher.ServesDatabase(Fetcher.Ensure(Fetcher.StatsV2, st, now, network))
  {
    Handle(Fetcher.StatsV2, httpMethod, st, now, network, answer)
  }

  /** stats.js: the one-hop downloader that validates nothing. */
  function StatsJs(httpMethod: string, st: Fetcher.FetchState, now: nat, network: seq<Fetcher.Exchange>,
                   answer: CountsAnswer): (out: Fetcher.Served<Report>)
    ensures httpMethod == "GET" && Fetcher.Ensure(Fetcher.Stats, st, now, network).result.Err? ==>
              out.reply == Fetcher.FailureReply(Fetcher.Ensure(Fetcher.Stats, st, now, network).result.error)
    ensures out.reply.Ok? ==>
              httpMethod == "GET" && answer.Counts? && Fetcher.ServesDatabase(Fetcher.Ensure(Fetcher.Stats, st, now, network))
  {
    Handle(Fetcher.Stats, httpMethod, st, now, network, answer)
  }

  /**
    A small database file (under 1,000,000 bytes, but starting with the
    SQLite header): stats_v2.js answers 500 whatever the queries would have
    said, while stats.js runs them on the file and reports the counts.
   */
  lemma SmallFileSplitsTheVariants(st: Fetcher.FetchState, now: nat, r: Fetcher.Response, scripts: nat, dialogues: nat)
    requires !Fetcher.Reusable(Fetcher.StatsV2, st) && !Fetcher.Reusable(Fetcher.Stats, st)
    requires !Fetcher.IsRedirect(r) && r.size < Fetcher.MinBytes && Fetcher.SqliteMagic <= r.body
    ensures StatsV2Js("GET", st, now, [Fetcher.Answered(r)], Counts(scripts, dialogues)).reply == Http.ServerError
    ensures StatsJs("GET", st, now, [Fetcher.Answered(r)], Counts(scripts, dialogues)).reply
              == Http.Ok(Report(scripts, dialogues, Loaded))
  {
    Fetcher.SmallFileRejected(st, now, r);
  }

  /**
    stats.js after a failed request: the first call is a 500, and the next
    one sends no request, opens the empty file left behind, and rejects,
    because that file has no `dialogues` table.
   */
  lemma StatsJsFailsOnEmptyFile(st: Fetcher.FetchState, now: nat, later: nat, network: seq<Fetcher.Exchange>,
                                answer: CountsAnswer)
    requires !Fetcher.Reusable(Fetcher.Stats, st)
    ensures var first := StatsJs("GET", st, now, [Fetcher.NetworkError], answer);
            && first.reply == Http.ServerError
            && var second := StatsJs("GET", first.state, later, network, answer);
               second.reply == Http.Unhandled && second.requested == []
  {
    Fetcher.StatsServesEmptyFileAfterFailure(st, now, later, network);
  }

  /** Pre-flight and refused methods leave the downloader state alone in both variants. */
  lemma OnlyGetDownloads(v: Fetcher.Variant, httpMethod: string, st: Fetcher.FetchState, now: nat,
                         network: seq<Fetcher.Exchange>, answer: CountsAnswer)
    requires httpMethod != "GET"
    ensures Handle(v, httpMethod, st, now, network, answer).reply != Http.ServerError
    ensures Handle(v, httpMethod, st, now, network, answer).state == st
    ensures Http.Status(Handle(v, httpMethod, st, now, network, answer).reply) == Some(if httpMethod == "OPTIONS" then 200 else 405)
  {
  }
}
