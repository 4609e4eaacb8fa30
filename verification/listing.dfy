/**
  netlify/functions/list_scripts.js: a diagnostic endpoint that lists every
  script name containing "B2231" together with what trimming would do to
  it, so that names with stray whitespace can be spotted.
 */
module Listing {
  import opened Basics
  import Text
  import Http
  import Fetcher

  /** The fixed search term the query and the response carry. */
  const SearchTerm := "B2231"

  /** The diagnostic record of one name. */
  datatype NameInfo = NameInfo(name: string, length: nat, endsWithSpace: bool, trimmed: string, trimmedLength: nat)

  /** `name.endsWith(' ')`: only U+0020 counts, not other whitespace. */
  predicate EndsWithSpace(name: string) {
    |name| > 0 && name[|name| - 1] == ' '
  }

  function Describe(name: string): (d: NameInfo)
    ensures d.name == name && d.trimmed == Text.Trim(Text.Js, name)
    ensures d.length == Text.Utf16Length(name) && d.trimmedLength == Text.Utf16Length(d.trimmed)
    ensures d.endsWithSpace <==> EndsWithSpace(name)
  {
    var t := Text.Trim(Text.Js, name);
    NameInfo(name, Text.Utf16Length(name), EndsWithSpace(name), t, Text.Utf16Length(t))
  }

  /**
    The trimmed length never exceeds the length, and equals it exactly when
    trimming changed nothing.
   */
  lemma DescribeBounds(name: string)
    ensures Describe(name).trimmedLength <= Describe(name).length
    ensures Describe(name).trimmedLength == Describe(name).length <==> Describe(name).trimmed == name
  {
    var t := Text.Trim(Text.Js, name);
    var before, after := SurroundingSpace(name);
    assert Text.Utf16Length(t) <= Text.Utf16Length(name)
        && (Text.Utf16Length(t) == Text.Utf16Length(name) <==> t == name) by {
      Text.Utf16LengthOfPart(before, t, after);
      if t == name {
        assert |before + t + after| == |t|;
      }
    }
  }

  /** What trimming cuts off the two ends of a name. */
  lemma SurroundingSpace(name: string) returns (before: string, after: string)
    ensures name == before + Text.Trim(Text.Js, name) + after
  {
    var t := Text.Trim(Text.Js, name);
    var i := Text.LeadingRun(Text.Spaces(Text.Js), name);
    before, after := name[..i], name[i + |t|..];
  }

  /** A name ending in a space always gets strictly shorter when trimmed. */
  lemma EndsWithSpaceShortens(name: string)
    requires Describe(name).endsWithSpace
    ensures Describe(name).trimmedLength < Describe(name).length
  {
    var t := Text.Trim(Text.Js, name);
    Text.TrimDropsTrailingSpace(Text.Js, name);
    DescribeBounds(name);
  }

  /** The JSON body of a successful listing. */
  datatype ListPayload = ListPayload(totalFound: nat, scripts: seq<NameInfo>, searchTerm: string)

  function Respond(names: seq<string>): (p: ListPayload)
    ensures p.totalFound == |p.scripts| == |names| && p.searchTerm == SearchTerm
    ensures forall i :: 0 <= i < |names| ==> p.scripts[i] == Describe(names[i])
  {
    var scripts := seq(|names|, i requires 0 <= i < |names| => Describe(names[i]));
    ListPayload(|scripts|, scripts, SearchTerm)
  }

  /** The records come in the order of the query's rows, one per row, each naming its row. */
  lemma RespondKeepsOrder(names: seq<string>)
    ensures Respond(names).totalFound == |names|
    ensures forall i :: 0 <= i < |names| ==> Respond(names).scripts[i].name == names[i]
    ensures forall i :: 0 <= i < |names| ==> Respond(names).scripts[i].trimmedLength <= Respond(names).scripts[i].length
  {
    forall i | 0 <= i < |names|
      ensures Respond(names).scripts[i].trimmedLength <= Respond(names).scripts[i].length
    {
      DescribeBounds(names[i]);
    }
  }

  /** What the name query returned. */
  datatype NamesAnswer = Names(names: seq<string>) | NamesFailed

  /**
    The handler: the database comes from the unvalidated two-hop
    downloader; a failed download is a 500, and a failed query, or any
    query on a file that is no database, rejects the returned promise.
   */
  function ListJs(httpMethod: string, st: Fetcher.FetchState, now: nat, network: seq<Fetcher.Exchange>,
                  answer: NamesAnswer): (out: Fetcher.Served<ListPayload>)
    ensures httpMethod != "GET" ==> out.state == st && out.requested == []
    ensures httpMethod == "OPTIONS" ==> out.reply == Http.Preflight
    ensures httpMethod != "GET" && httpMethod != "OPTIONS" ==> out.reply == Http.MethodNotAllowed
    ensures httpMethod == "GET" ==>
              var f := Fetcher.Ensure(Fetcher.ListScripts, st, now, network);
              && out.state == f.state && out.requested == f.requested
              && (f.result.Err? ==> out.reply == Fetcher.FailureReply(f.result.error))
              && (f.result.Ok? && (!Fetcher.ServesDatabase(f) || answer.NamesFailed?) ==> out.reply == Http.Unhandled)
              && (Fetcher.ServesDatabase(f) && answer.Names? ==> out.reply == Http.Ok(Respond(answer.names)))
  {
    if httpMethod != "GET" then
      Fetcher.Served(Http.Dispatch(httpMethod, Http.Unhandled), st, [])
    else
      var f := Fetcher.Ensure(Fetcher.ListScripts, st, now, network);
      if f.result.Err? then Fetcher.Served(Fetcher.FailureReply(f.result.error), f.state, f.requested)
      else if !Fetcher.ServesDatabase(f) then Fetcher.Served(Http.Unhandled, f.state, f.requested)
      else match answer
        case NamesFailed => Fetcher.Served(Http.Unhandled, f.state, f.requested)
        case Names(names) => Fetcher.Served(Http.Ok(Respond(names)), f.state, f.requested)
  }

  /**
    Since list_scripts.js never validates, a GET that reaches the network
    and gets a final answer always resolves the download, whatever that
    answer held; whether the listing succeeds is then decided by the sqlite3
    driver alone: the names when the body was a database, a rejected promise
    when it was anything else.
   */
  lemma ListingAcceptsAnyAnswer(st: Fetcher.FetchState, now: nat, r: Fetcher.Response, names: seq<string>)
    requires !Fetcher.Reusable(Fetcher.ListScripts, st) && !Fetcher.IsRedirect(r)
    ensures Fetcher.Ensure(Fetcher.ListScripts, st, now, [Fetcher.Answered(r)]).result.Ok?
    ensures ListJs("GET", st, now, [Fetcher.Answered(r)], Names(names)).reply
         == if Fetcher.SqliteMagic <= r.body then Http.Ok(Respond(names)) else Http.Unhandled
  {
  }
}
