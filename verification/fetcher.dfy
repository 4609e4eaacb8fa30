/**
  The download-once-and-cache step every Netlify JavaScript handler runs
  before it opens the database, as a pure decision procedure. The network is
  the sequence of outcomes of the requests the step issues, in order; the
  temporary directory is a map from file name to what the file holds; the
  clock is the millisecond count `now`.

  The handlers share one procedure with five knobs (`Variant`):
  - search.js, script_detail.js and stats_v2.js reuse the cached file only
    when it is larger than 1,000,000 bytes, follow two redirects, prefix a
    scheme-less Location with "https:", and validate size and header;
  - list_scripts.js does the same but never validates;
  - stats.js reuses the file whenever it exists, writes to one fixed name,
    follows a single redirect with the Location verbatim, and never validates.
 */
module Fetcher {
  import opened Basics
  import Text
  import Http

  newtype byte = x: int | 0 <= x < 256

  /** The size threshold of both the cache test (`>`) and the post-download test (`<`). */
  const MinBytes: nat := 1000000

  /** The bytes of an ASCII string. */
  function AsciiBytes(s: string): (b: seq<byte>)
    requires forall i :: 0 <= i < |s| ==> s[i] < 128 as char
    ensures |b| == |s|
    ensures forall i :: 0 <= i < |s| ==> b[i] as int == s[i] as int
  {
    seq(|s|, i requires 0 <= i < |s| => s[i] as int as byte)
  }

  /** The text every SQLite 3 database file starts with (its sixteenth byte, a NUL, is not searched for). */
  const SqliteMagic: seq<byte> := AsciiBytes("SQLite format 3")

  /** The shared Dropbox link, and stats_v2.js's variant of it without the `st` parameter. */
  const DropboxUrl := "https://www.dropbox.com/scl/fi/dljhp6xzshdgvq7vqk3sz/sunsun_final_dialogue_database_proper.db?rlkey=qlf38ydm1b0n0ocsdbpjx0ih8&st=2h1nmfhq&dl=1"
  const DropboxUrlV2 := "https://www.dropbox.com/scl/fi/dljhp6xzshdgvq7vqk3sz/sunsun_final_dialogue_database_proper.db?rlkey=qlf38ydm1b0n0ocsdbpjx0ih8&dl=1"

  /** One HTTP response: status, Location header, body length, and the bytes of the body. */
  datatype Response = Response(status: int, location: Option<string>, size: nat, body: seq<byte>)

  /** The outcome of one `https.get`: a response, or the request's 'error' event. */
  datatype Exchange = Answered(response: Response) | NetworkError

  /**
    A file in the temporary directory: its size (what `statSync` reports) and
    its bytes. `Consistent` below states that the two agree.
   */
  datatype FileInfo = FileInfo(size: nat, body: seq<byte>)

  /** The module-level `dbPath` variable and the temporary directory it points into. */
  datatype FetchState = FetchState(dbPath: Option<string>, disk: map<string, FileInfo>)

  /** When a cached file may be served again. */
  datatype CacheRule = WhenPresent | WhenLargerThanMin

  datatype Variant = Variant(
    source: string,        // the URL of the first request
    cache: CacheRule,
    stamped: bool,         // a fresh `sunsun_database_<now>.db` per download, or one fixed name
    maxHops: nat,          // how many redirects are followed
    prefixScheme: bool,    // whether a Location not starting with "http" gets "https:" in front
    validate: bool)        // whether size and header are checked after the download

  /** search.js and script_detail.js. */
  const Validating := Variant(DropboxUrl, WhenLargerThanMin, true, 2, true, true)
  /** stats_v2.js: the same procedure against the link without `st`. */
  const StatsV2 := Variant(DropboxUrlV2, WhenLargerThanMin, true, 2, true, true)
  /** list_scripts.js. */
  const ListScripts := Variant(DropboxUrl, WhenLargerThanMin, true, 2, true, false)
  /** stats.js. */
  const Stats := Variant(DropboxUrl, WhenPresent, false, 1, false, false)

  datatype FetchError =
    | RequestFailed        // a request emitted 'error'
    | TooSmall(size: nat)  // "Downloaded file too small"
    | NotSqlite            // "Not a valid SQLite file"
    | Crashed              // `https.get` threw inside a response callback: the promise never settles
    | Hung                 // a request was never answered: the promise never settles either

  /**
    What a handler's `catch` makes of a failed download: the JSON 500, except
    after a throw inside a response callback, which escapes every `try`, and
    after a request that is never answered, whose promise neither resolves
    nor rejects; either way the invocation ends without the handler's reply.
   */
  function FailureReply<T>(e: FetchError): (r: Http.Reply<T>)
    ensures Http.Status(r) == (if e.Crashed? || e.Hung? then None else Some(500))
  {
    if e.Crashed? || e.Hung? then Http.Unhandled else Http.ServerError
  }

  /** `statusCode >= 300 && statusCode < 400 && headers.location`: an empty Location is falsy. */
  predicate IsRedirect(r: Response) {
    300 <= r.status < 400 && r.location.Some? && r.location.value != ""
  }

  /** Where a redirect leads. */
  function Target(v: Variant, location: string): (url: string)
    ensures Text.StartsWith(location, "http") || !v.prefixScheme ==> url == location
    ensures !Text.StartsWith(location, "http") && v.prefixScheme ==> url == "https:" + location
  {
    if v.prefixScheme && !Text.StartsWith(location, "http") then "https:" + location else location
  }

  /**
    A URL `https.get` accepts. Any other protocol (`http:` among them) throws
    ERR_INVALID_PROTOCOL, and a relative or protocol-relative reference
    (`/x`, `//host/x`) is no URL at all and throws ERR_INVALID_URL.
   */
  predicate Requestable(url: string) {
    Text.StartsWith(url, "https:")
  }

  /**
    With the prefix, every target starts with "http"; a scheme-less Location
    becomes requestable, while an `http:` Location stays as it is and is not.
   */
  lemma PrefixedTargetIsHttp(v: Variant, location: string)
    requires v.prefixScheme
    ensures Text.StartsWith(Target(v, location), "http")
    ensures !Text.StartsWith(location, "http") ==> Requestable(Target(v, location))
    ensures Text.StartsWith(location, "http:") ==> !Requestable(Target(v, location))
  {
    if !Text.StartsWith(location, "http") {
      assert "https:" + location == "https" + (":" + location);
      assert "https:" + location == "https:" + location;
    } else if Text.StartsWith(location, "http:") {
      assert Target(v, location)[4] == ':' != 's';
    }
  }

  /** How the chain of requests ended. */
  datatype Ending =
    | Wrote(response: Response)  // this answer was piped into the file
    | Failed                     // a request emitted 'error'
    | Unanswered                 // the network holds no outcome for the last request: it is never answered
    | Threw                      // a redirect target was not requestable, so `https.get` threw

  /** The URLs requested, in order, and how the chain ended. */
  datatype Transfer = Transfer(requested: seq<string>, ending: Ending)

  /** The `i`-th answer was a redirect and the next request went to its target. */
  predicate HopAt(v: Variant, network: seq<Exchange>, requested: seq<string>, i: nat) {
    && i < |network| && i + 1 < |requested|
    && network[i].Answered? && IsRedirect(network[i].response)
    && requested[i + 1] == Target(v, network[i].response.location.value)
    && Requestable(requested[i + 1])
  }

  /**
    The nested `https.get` callbacks: request `url`; while redirects are left
    and the answer is a redirect, request its target (or throw, if it is not
    requestable); otherwise pipe the answer into the file, whatever its status.
   */
  function Follow(v: Variant, url: string, hopsLeft: nat, network: seq<Exchange>): (t: Transfer)
    ensures 1 <= |t.requested| <= hopsLeft + 1 && t.requested[0] == url
    ensures forall i: nat :: i < |t.requested| - 1 ==> HopAt(v, network, t.requested, i)
    ensures t.ending.Wrote? ==>
              var k := |t.requested| - 1;
              k < |network| && network[k] == Answered(t.ending.response)
              && (k == hopsLeft || !IsRedirect(t.ending.response))
    ensures t.ending.Failed? ==>
              var k := |t.requested| - 1;
              k < |network| && network[k] == NetworkError
    ensures t.ending.Unanswered? <==> |t.requested| - 1 == |network|
    ensures t.ending.Threw? ==>
              var k := |t.requested| - 1;
              && k < hopsLeft && k < |network| && network[k].Answered? && IsRedirect(network[k].response)
              && !Requestable(Target(v, network[k].response.location.value))
    decreases hopsLeft
  {
    if |network| == 0 then Transfer([url], Unanswered)
    else match network[0]
      case NetworkError => Transfer([url], Failed)
      case Answered(r) =>
        if hopsLeft > 0 && IsRedirect(r) then
          var next := Target(v, r.location.value);
          if !Requestable(next) then Transfer([url], Threw)
          else
            var rest := Follow(v, next, hopsLeft - 1, network[1..]);
            var t := Transfer([url] + rest.requested, rest.ending);
            assert forall i: nat :: i < |t.requested| - 1 ==> HopAt(v, network, t.requested, i) by {
              forall i: nat | 1 <= i < |t.requested| - 1
                ensures HopAt(v, network, t.requested, i)
              {
                var j: nat := i - 1;
                assert HopAt(v, network[1..], rest.requested, j);
              }
            }
            t
        else
          Transfer([url], Wrote(r))
  }

  /**
    What handleResponse in stats_v2.js rejects a finished file for, if
    anything. `readFileSync` takes no `start`/`end` options (those belong to
    `createReadStream`), so the header test decodes and searches the whole
    file. UTF-8 decoding turns every ASCII byte into its own character,
    whatever surrounds it, so searching the text for the magic is searching
    the bytes for it.
   */
  function Problem(f: FileInfo): (e: Option<FetchError>)
    ensures e.None? <==> f.size >= MinBytes && exists i :: Text.OccursAt(f.body, SqliteMagic, i)
    ensures e == Some(TooSmall(f.size)) <==> f.size < MinBytes
    ensures e == Some(NotSqlite) <==> f.size >= MinBytes && forall i :: !Text.OccursAt(f.body, SqliteMagic, i)
  {
    Text.ContainsAt(f.body, SqliteMagic);
    if f.size < MinBytes then Some(TooSmall(f.size))
    else if !Text.Contains(f.body, SqliteMagic) then Some(NotSqlite)
    else None
  }

  /** The test at the top of downloadDatabase. */
  predicate Reusable(v: Variant, st: FetchState) {
    && st.dbPath.Some? && st.dbPath.value in st.disk
    && (v.cache == WhenPresent || st.disk[st.dbPath.value].size > MinBytes)
  }

  /** The file name a download writes to, inside the temporary directory. */
  function CacheName(v: Variant, now: nat): (name: string)
    ensures !v.stamped ==> name == "sunsun_database.db"
    ensures v.stamped ==> name == "sunsun_database_" + Text.NatToString(now) + ".db"
  {
    if v.stamped then "sunsun_database_" + Text.NatToString(now) + ".db" else "sunsun_database.db"
  }

  /**
    Two downloads at different milliseconds write to different files, so a
    stamped variant never overwrites the file an earlier call left behind.
   */
  lemma StampedNamesDiffer(v: Variant, now1: nat, now2: nat)
    requires v.stamped && now1 != now2
    ensures CacheName(v, now1) != CacheName(v, now2)
  {
    var a := Text.NatToString(now1);
    var b := Text.NatToString(now2);
    if CacheName(v, now1) == CacheName(v, now2) {
      var pre := "sunsun_database_";
      assert |a| == |b|;
      assert a == CacheName(v, now1)[|pre|..|pre| + |a|];
      assert b == CacheName(v, now2)[|pre|..|pre| + |b|];
      Text.DecimalValueOfNatToString(now1);
      Text.DecimalValueOfNatToString(now2);
      assert false;
    }
  }

  /** The result of one `downloadDatabase()` call: the resolved path or the rejection, the new state, and the URLs requested. */
  datatype Fetched = Fetched(result: Result<string, FetchError>, state: FetchState, requested: seq<string>)

  /**
    The part of downloadDatabase after the cache test: point `dbPath` at a
    new file (createWriteStream creates it empty at once), follow redirects,
    write the final body to it, and, if the variant validates, check it.
    The file stays on disk whatever the verdict.
   */
  function Download(v: Variant, st: FetchState, now: nat, network: seq<Exchange>): (f: Fetched)
    ensures var p := CacheName(v, now);
            && f.state.dbPath == Some(p) && p in f.state.disk
            && f.state.disk == st.disk[p := f.state.disk[p]]
    ensures f.requested == Follow(v, v.source, v.maxHops, network).requested
    ensures var t := Follow(v, v.source, v.maxHops, network);
            var file := f.state.disk[CacheName(v, now)];
            && (t.ending.Failed? ==> file == FileInfo(0, []) && f.result == Err(RequestFailed))
            && (t.ending.Unanswered? ==> file == FileInfo(0, []) && f.result == Err(Hung))
            && (t.ending.Threw? ==> file == FileInfo(0, []) && f.result == Err(Crashed))
            && (t.ending.Wrote? ==> file == FileInfo(t.ending.response.size, t.ending.response.body))
            && (t.ending.Wrote? && !v.validate ==> f.result == Ok(CacheName(v, now)))
            && (t.ending.Wrote? && v.validate ==>
                  (f.result == Ok(CacheName(v, now)) <==> Problem(file).None?)
                  && (f.result.Err? <==> Problem(file).Some?))
  {
    var p := CacheName(v, now);
    var t := Follow(v, v.source, v.maxHops, network);
    var empty := FetchState(Some(p), st.disk[p := FileInfo(0, [])]);
    match t.ending
    case Failed => Fetched(Err(RequestFailed), empty, t.requested)
    case Unanswered => Fetched(Err(Hung), empty, t.requested)
    case Threw => Fetched(Err(Crashed), empty, t.requested)
    case Wrote(r) =>
      var file := FileInfo(r.size, r.body);
      var st' := FetchState(Some(p), st.disk[p := file]);
      if !v.validate then Fetched(Ok(p), st', t.requested)
      else match Problem(file)
        case Some(e) => Fetched(Err(e), st', t.requested)
        case None => Fetched(Ok(p), st', t.requested)
  }

  /**
    A file the sqlite3 driver can query: one that starts with the SQLite
    header. The empty file createWriteStream leaves behind opens as an empty
    database without tables, and any other file is "not a database", so
    every query on either fails.
   */
  predicate IsDatabase(file: FileInfo) {
    SqliteMagic <= file.body
  }

  /** The download resolved, and the path it resolved with holds a database. */
  predicate ServesDatabase(f: Fetched) {
    f.result.Ok? && f.result.value in f.state.disk && IsDatabase(f.state.disk[f.result.value])
  }

  /** The bytes recorded for a body or a file are all of it: as many as its size. */
  predicate Consistent(file: FileInfo) {
    |file.body| == file.size
  }

  /** Every answer on the network records its whole body. */
  predicate ConsistentAnswers(network: seq<Exchange>) {
    forall k :: 0 <= k < |network| && network[k].Answered? ==>
      Consistent(FileInfo(network[k].response.size, network[k].response.body))
  }

  predicate ConsistentDisk(st: FetchState) {
    forall p :: p in st.disk ==> Consistent(st.disk[p])
  }

  /**
    A download only ever writes an answer's body or an empty file, so it
    keeps the disk consistent; a served database then holds at least the
    header's bytes.
   */
  lemma EnsureKeepsDiskConsistent(v: Variant, st: FetchState, now: nat, network: seq<Exchange>)
    requires ConsistentDisk(st) && ConsistentAnswers(network)
    ensures var f := Ensure(v, st, now, network);
            && ConsistentDisk(f.state)
            && (ServesDatabase(f) ==> f.state.disk[f.result.value].size >= |SqliteMagic|)
  {
    var f := Ensure(v, st, now, network);
    if !Reusable(v, st) {
      var t := Follow(v, v.source, v.maxHops, network);
      if t.ending.Wrote? {
        var k := |t.requested| - 1;
        assert network[k] == Answered(t.ending.response);
      }
      assert Consistent(f.state.disk[CacheName(v, now)]);
      forall p | p in f.state.disk ensures Consistent(f.state.disk[p]) {
        if p != CacheName(v, now) {
          assert p in st.disk;
        }
      }
    }
    if ServesDatabase(f) {
      assert Consistent(f.state.disk[f.result.value]);
    }
  }

  /** `downloadDatabase()`: serve the cached file if the variant's test allows it, otherwise download. */
  function Ensure(v: Variant, st: FetchState, now: nat, network: seq<Exchange>): (f: Fetched)
    ensures Reusable(v, st) ==> f == Fetched(Ok(st.dbPath.value), st, [])
    ensures !Reusable(v, st) ==> f == Download(v, st, now, network) && |f.requested| >= 1
    ensures f.result.Ok? ==> f.result.value in f.state.disk
  {
    if Reusable(v, st) then Fetched(Ok(st.dbPath.value), st, []) else Download(v, st, now, network)
  }

  /**
    What a JavaScript handler that needs the database leaves behind: its
    reply, the downloader's state for the next invocation, and the URLs it
    requested.
   */
  datatype Served<+T> = Served(reply: Http.Reply<T>, state: FetchState, requested: seq<string>)

  // ---------------------------------------------------------------------
  // The properties of the variants.
  // ---------------------------------------------------------------------

  /**
    stats_v2.js (and search.js, script_detail.js): the cached path is served,
    with no request, exactly when it is set, the file exists and it holds
    more than 1,000,000 bytes; otherwise a fresh timestamped path is chosen.
   */
  lemma CacheReuseValidating(st: FetchState, now: nat, network: seq<Exchange>)
    ensures var f := Ensure(StatsV2, st, now, network);
            (f.requested == [] <==>
               st.dbPath.Some? && st.dbPath.value in st.disk && st.disk[st.dbPath.value].size > MinBytes)
            && (f.requested != [] ==>
               f.state.dbPath == Some("sunsun_database_" + Text.NatToString(now) + ".db"))
  {
  }

  /**
    stats_v2.js: at most two redirects are followed; when the first two
    answers are redirects, the third answer is written to the file whatever
    its status, even if it is a redirect too.
   */
  lemma ThirdAnswerIsWritten(r1: Response, r2: Response, r3: Response, rest: seq<Exchange>)
    requires IsRedirect(r1) && IsRedirect(r2)
    requires Requestable(Target(StatsV2, r1.location.value)) && Requestable(Target(StatsV2, r2.location.value))
    ensures var t := Follow(StatsV2, DropboxUrlV2, 2, [Answered(r1), Answered(r2), Answered(r3)] + rest);
            && t.ending == Wrote(r3)
            && t.requested == [DropboxUrlV2, Target(StatsV2, r1.location.value), Target(StatsV2, r2.location.value)]
  {
    var n := [Answered(r1), Answered(r2), Answered(r3)] + rest;
    assert n[1..] == [Answered(r2), Answered(r3)] + rest;
    assert n[1..][1..] == [Answered(r3)] + rest;
  }

  /** Whatever the network does, a two-hop variant issues at most three requests and a one-hop variant at most two. */
  lemma HopBound(st: FetchState, now: nat, network: seq<Exchange>)
    ensures |Ensure(StatsV2, st, now, network).requested| <= 3
    ensures |Ensure(Validating, st, now, network).requested| <= 3
    ensures |Ensure(ListScripts, st, now, network).requested| <= 3
    ensures |Ensure(Stats, st, now, network).requested| <= 2
  {
  }

  /**
    stats_v2.js never looks at the final status code: two final answers with
    the same body give the same verdict and the same file, even if one is a
    200 and the other a 404.
   */
  lemma StatusNeverInspected(st: FetchState, now: nat, r1: Response, r2: Response)
    requires !IsRedirect(r1) && !IsRedirect(r2)
    requires r1.size == r2.size && r1.body == r2.body
    ensures Ensure(StatsV2, st, now, [Answered(r1)]) == Ensure(StatsV2, st, now, [Answered(r2)])
  {
  }

  /**
    The boundary mismatch of stats_v2.js: a valid download of exactly
    1,000,000 bytes is accepted (`size < 1000000` fails), yet the very next
    call does not reuse it (`size > 1000000` fails) and downloads again.
   */
  lemma ExactlyMinBytesIsAcceptedButNeverReused(st: FetchState, now: nat, later: nat, r: Response, network: seq<Exchange>)
    requires !Reusable(StatsV2, st)
    requires !IsRedirect(r) && r.size == MinBytes && SqliteMagic <= r.body
    ensures var first := Ensure(StatsV2, st, now, [Answered(r)]);
            && first.result == Ok(CacheName(StatsV2, now))
            && |Ensure(StatsV2, first.state, later, network).requested| >= 1
  {
    assert Text.OccursAt(r.body, SqliteMagic, 0);
  }

  /**
    stats_v2.js leaves a rejected file at `dbPath`. A body of more than
    1,000,000 bytes with "SQLite format 3" nowhere in it is rejected once, and the
    next call serves it from the cache, unvalidated, without any request.
   */
  lemma RejectedLargeFileIsServedNextTime(st: FetchState, now: nat, later: nat, r: Response, network: seq<Exchange>)
    requires !Reusable(StatsV2, st)
    requires !IsRedirect(r) && r.size > MinBytes && forall i :: !Text.OccursAt(r.body, SqliteMagic, i)
    ensures var first := Ensure(StatsV2, st, now, [Answered(r)]);
            && first.result == Err(NotSqlite)
            && Ensure(StatsV2, first.state, later, network) == Fetched(Ok(CacheName(StatsV2, now)), first.state, [])
  {
  }

  /**
    stats_v2.js accepts a body of at least 1,000,000 bytes that holds
    "SQLite format 3" at any offset, not only within its first sixteen bytes.
    The download resolves; the path it resolves with holds a database only
    when the body starts with the magic, so any other such body reaches the
    handler's queries.
   */
  lemma MagicAnywhereIsAccepted(st: FetchState, now: nat, r: Response, i: int)
    requires !Reusable(StatsV2, st)
    requires !IsRedirect(r) && r.size >= MinBytes && Text.OccursAt(r.body, SqliteMagic, i)
    ensures var f := Ensure(StatsV2, st, now, [Answered(r)]);
            && f.result == Ok(CacheName(StatsV2, now))
            && (ServesDatabase(f) <==> SqliteMagic <= r.body)
  {
  }

  /** stats_v2.js rejects every file under 1,000,000 bytes, whatever its header. */
  lemma SmallFileRejected(st: FetchState, now: nat, r: Response)
    requires !Reusable(StatsV2, st)
    requires !IsRedirect(r) && r.size < MinBytes
    ensures Ensure(StatsV2, st, now, [Answered(r)]).result == Err(TooSmall(r.size))
  {
  }

  /** stats.js serves the cached path whenever it is set and the file exists, whatever its size. */
  lemma CacheReuseStats(st: FetchState, now: nat, network: seq<Exchange>)
    ensures var f := Ensure(Stats, st, now, network);
            && (f.requested == [] <==> st.dbPath.Some? && st.dbPath.value in st.disk)
            && (f.requested != [] ==> f.state.dbPath == Some("sunsun_database.db"))
  {
  }

  /**
    stats.js follows exactly one redirect with the Location verbatim (no
    scheme is added) and writes the second answer whatever it is; nothing is
    validated, so the call succeeds as soon as the write finishes.
   */
  lemma StatsFollowsOneHopVerbatim(st: FetchState, now: nat, r1: Response, r2: Response, rest: seq<Exchange>)
    requires !Reusable(Stats, st) && IsRedirect(r1) && Requestable(r1.location.value)
    ensures var f := Ensure(Stats, st, now, [Answered(r1), Answered(r2)] + rest);
            && f.requested == [DropboxUrl, r1.location.value]
            && f.result == Ok("sunsun_database.db")
            && f.state.disk["sunsun_database.db"] == FileInfo(r2.size, r2.body)
  {
    var n := [Answered(r1), Answered(r2)] + rest;
    assert n[1..] == [Answered(r2)] + rest;
  }

  /**
    stats.js hands the Location to `https.get` as it is, so a relative,
    protocol-relative or `http:` Location throws inside the response
    callback: the download never settles and nothing more is requested.
   */
  lemma StatsCrashesOnUnrequestableLocation(st: FetchState, now: nat, r1: Response, rest: seq<Exchange>)
    requires !Reusable(Stats, st) && IsRedirect(r1) && !Requestable(r1.location.value)
    ensures var f := Ensure(Stats, st, now, [Answered(r1)] + rest);
            && f.result == Err(Crashed)
            && f.requested == [DropboxUrl]
            && FailureReply<int>(f.result.error) == Http.Unhandled
  {
  }

  /**
    stats_v2.js prefixes only a Location that does not start with "http", so
    a redirect to a plain `http:` URL throws, while a protocol-relative one
    is followed.
   */
  lemma PlainHttpRedirectCrashes(st: FetchState, now: nat, r1: Response, rest: seq<Exchange>)
    requires !Reusable(StatsV2, st) && IsRedirect(r1)
    ensures Text.StartsWith(r1.location.value, "http:") ==>
              Ensure(StatsV2, st, now, [Answered(r1)] + rest).result == Err(Crashed)
    ensures !Text.StartsWith(r1.location.value, "http") ==>
              |Ensure(StatsV2, st, now, [Answered(r1)] + rest).requested| >= 2
  {
    PrefixedTargetIsHttp(StatsV2, r1.location.value);
  }

  /**
    A request that is never answered neither resolves nor rejects the
    download, whether it is the first request or one after a redirect: the
    invocation ends at the platform's time-out without the handler's reply,
    and `dbPath` is left pointing at the empty file createWriteStream made.
   */
  lemma UnansweredRequestHangs(v: Variant, st: FetchState, now: nat, r1: Response)
    requires !Reusable(v, st)
    ensures var f := Ensure(v, st, now, []);
            && f.result == Err(Hung) && f.requested == [v.source]
            && f.state.disk[CacheName(v, now)] == FileInfo(0, [])
            && Http.Status(FailureReply<int>(f.result.error)).None?
    ensures v.maxHops >= 1 && IsRedirect(r1) && Requestable(Target(v, r1.location.value)) ==>
              var f := Ensure(v, st, now, [Answered(r1)]);
              f.result == Err(Hung) && |f.requested| == 2
  {
  }

  /**
    stats.js after a failed request: the empty file createWriteStream left
    behind exists, so the next call serves it as the database.
   */
  lemma StatsServesEmptyFileAfterFailure(st: FetchState, now: nat, later: nat, network: seq<Exchange>)
    requires !Reusable(Stats, st)
    ensures var first := Ensure(Stats, st, now, [NetworkError]);
            && first.result == Err(RequestFailed)
            && var second := Ensure(Stats, first.state, later, network);
               second.result == Ok("sunsun_database.db") && second.requested == []
               && second.state.disk["sunsun_database.db"].size == 0
  {
  }

  /**
    list_scripts.js: reuse above 1,000,000 bytes, two prefixed hops, and no
    validation: any written body resolves the call, even a tiny one.
   */
  lemma ListScriptsNeverValidates(st: FetchState, now: nat, r1: Response, r2: Response)
    requires !Reusable(ListScripts, st) && IsRedirect(r1) && !IsRedirect(r2)
    requires Requestable(Target(ListScripts, r1.location.value))
    ensures var f := Ensure(ListScripts, st, now, [Answered(r1), Answered(r2)]);
            && f.result == Ok(CacheName(ListScripts, now))
            && f.requested == [DropboxUrl, Target(ListScripts, r1.location.value)]
            && Text.StartsWith(f.requested[1], "http")
  {
    PrefixedTargetIsHttp(ListScripts, r1.location.value);
    var n := [Answered(r1), Answered(r2)];
    assert n[1..] == [Answered(r2)];
  }
}
