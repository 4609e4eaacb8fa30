/**
  The Flask application api.py: keyword search with a stripped `q`, the
  theme list aggregated from the distinct `themes` strings, the `has_more`
  flag of the paginated searches, and the 404 of the script details.
 */
module Api {
  import opened Basics
  import Text
  import Http
  import Ranking

  // ---------------------------------------------------------------------
  // /api/search/keyword
  // ---------------------------------------------------------------------

  /** One row of the grouped keyword query; the columns may be NULL. */
  datatype KeywordRow = KeywordRow(
    scriptName: string, scriptUrl: Option<string>, allCharacters: Option<string>, releaseDate: Option<string>,
    youtubeTitle: Option<string>, youtubeUrl: Option<string>, matchCount: nat)

  /** One formatted result: every NULL becomes `''`, and the release date doubles as the YouTube date. */
  datatype KeywordHit = KeywordHit(
    scriptName: string, scriptUrl: string, characters: string, releaseDate: string,
    youtubeTitle: string, youtubeUrl: string, youtubeReleaseDate: string, matchCount: nat)

  datatype KeywordResults = KeywordResults(keyword: string, totalResults: nat, data: seq<KeywordHit>)

  function Format(row: KeywordRow): (h: KeywordHit)
    ensures h.scriptName == row.scriptName && h.matchCount == row.matchCount
    ensures h.youtubeReleaseDate == h.releaseDate
    ensures row.releaseDate.Some? ==> h.releaseDate == row.releaseDate.value
    ensures row.releaseDate.None? ==> h.releaseDate == ""
    ensures row.scriptUrl.Some? ==> h.scriptUrl == row.scriptUrl.value
    ensures row.scriptUrl.None? ==> h.scriptUrl == ""
    ensures row.allCharacters.Some? ==> h.characters == row.allCharacters.value
    ensures row.allCharacters.None? ==> h.characters == ""
    ensures row.youtubeTitle.Some? ==> h.youtubeTitle == row.youtubeTitle.value
    ensures row.youtubeTitle.None? ==> h.youtubeTitle == ""
    ensures row.youtubeUrl.Some? ==> h.youtubeUrl == row.youtubeUrl.value
    ensures row.youtubeUrl.None? ==> h.youtubeUrl == ""
  {
    var date := OrEmpty(row.releaseDate);
    KeywordHit(row.scriptName, OrEmpty(row.scriptUrl), OrEmpty(row.allCharacters), date,
               OrEmpty(row.youtubeTitle), OrEmpty(row.youtubeUrl), date, row.matchCount)
  }

  /** `''` read back as NULL. */
  function FromText(t: string): (o: Option<string>)
    ensures o.None? <==> t == ""
    ensures o.Some? ==> o.value == t
  {
    if t == "" then None else Some(t)
  }

  /** The row a formatted hit would come from, if no text column held `''`. */
  function Unformat(h: KeywordHit): (row: KeywordRow)
    ensures row.scriptName == h.scriptName && row.matchCount == h.matchCount
  {
    KeywordRow(h.scriptName, FromText(h.scriptUrl), FromText(h.characters), FromText(h.releaseDate),
               FromText(h.youtubeTitle), FromText(h.youtubeUrl), h.matchCount)
  }

  /** No nullable column holds the empty string. */
  predicate NoEmptyColumn(row: KeywordRow) {
    && row.scriptUrl != Some("") && row.allCharacters != Some("") && row.releaseDate != Some("")
    && row.youtubeTitle != Some("") && row.youtubeUrl != Some("")
  }

  /**
    Formatting forgets only the difference between NULL and `''`: a row with
    no empty column is recovered from its hit, and two rows that differ only
    in NULL against `''` give the same hit.
   */
  lemma FormatRoundTrip(row: KeywordRow)
    ensures NoEmptyColumn(row) ==> Unformat(Format(row)) == row
    ensures Format(Unformat(Format(row))) == Format(row)
  {
  }

  /**
    `search_by_keyword`: `q` stripped, 400 when nothing is left, 500 when
    the database or the query fails (`rows` is None), otherwise the rows
    formatted in query order.
   */
  function SearchByKeyword(args: map<string, string>, rows: Option<seq<KeywordRow>>): (r: Http.Reply<KeywordResults>)
    ensures r.BadRequest? <==> Http.RawParamStripped(args, "q") == ""
    ensures r.BadRequest? ==> r.error == Http.KeywordRequired
    ensures r.ServerError? <==> Http.RawParamStripped(args, "q") != "" && rows.None?
    ensures r.Ok? ==> && rows.Some? && r.payload.keyword == Http.RawParamStripped(args, "q")
                      && r.payload.totalResults == |r.payload.data| == |rows.value|
                      && forall i :: 0 <= i < |rows.value| ==> r.payload.data[i] == Format(rows.value[i])
  {
    var keyword := Http.RawParamStripped(args, "q");
    if keyword == "" then Http.BadRequest(Http.KeywordRequired)
    else match rows
      case None => Http.ServerError
      case Some(found) =>
        var data := seq(|found|, i requires 0 <= i < |found| => Format(found[i]));
        Http.Ok(KeywordResults(keyword, |data|, data))
  }

  /** Unlike search.js, a `q` of spaces alone is refused before any query runs. */
  lemma BlankKeywordRefused(args: map<string, string>, rows: Option<seq<KeywordRow>>)
    requires "q" in args && args["q"] == "  "
    ensures SearchByKeyword(args, rows) == Http.BadRequest(Http.KeywordRequired)
  {
    assert Text.IsSpace(Text.Py, ' ');
  }

  /**
    The keyword search refuses exactly the requests whose `q` is missing or
    made only of whitespace; any other request searches for a keyword that
    is cut out of `q` and neither starts nor ends with whitespace.
   */
  lemma KeywordRefusedIffBlank(args: map<string, string>, rows: Option<seq<KeywordRow>>)
    ensures SearchByKeyword(args, rows).BadRequest? <==> "q" !in args || Text.AllPass(Text.Spaces(Text.Py), args["q"])
    ensures var r := SearchByKeyword(args, rows);
            r.Ok? ==> var k := r.payload.keyword;
                      && k != "" && Text.Contains(args["q"], k)
                      && !Text.IsSpace(Text.Py, k[0]) && !Text.IsSpace(Text.Py, k[|k| - 1])
  {
    Http.StrippedParamIsEmptyIffBlank(args, "q");
  }

  // ---------------------------------------------------------------------
  // /api/themes
  // ---------------------------------------------------------------------

  /** One entry of the theme list. */
  datatype ThemeCount = ThemeCount(theme: string, count: nat)

  /** The stripped, non-empty pieces among `pieces`, in order. */
  function Kept(pieces: seq<string>): (r: seq<string>)
    ensures |r| <= |pieces|
    ensures forall i :: 0 <= i < |r| ==> r[i] != ""
    decreases |pieces|
  {
    if |pieces| == 0 then []
    else
      var t := Text.Trim(Text.Py, pieces[|pieces| - 1]);
      Kept(pieces[..|pieces| - 1]) + (if t != "" then [t] else [])
  }

  /** The themes one `themes` string names: `themes.split(',')`, each piece stripped, empty ones skipped. */
  function ThemesOf(themes: string): (r: seq<string>)
    ensures forall i :: 0 <= i < |r| ==> r[i] != ""
  {
    Kept(Text.Split(themes, ','))
  }

  /** Every theme mention over the distinct `themes` strings, in order; an empty string is skipped. */
  function Mentions(all: seq<string>): (r: seq<string>)
    ensures forall i :: 0 <= i < |r| ==> r[i] != ""
    decreases |all|
  {
    if |all| == 0 then []
    else
      var last := all[|all| - 1];
      Mentions(all[..|all| - 1]) + (if last != "" then ThemesOf(last) else [])
  }

  /** `Kept` works piece by piece: a concatenation keeps what each part keeps, in order. */
  lemma {:induction false} KeptAppend(a: seq<string>, b: seq<string>)
    ensures Kept(a + b) == Kept(a) + Kept(b)
    decreases |b|
  {
    if |b| == 0 {
      assert a + b == a;
    } else {
      var b' := b[..|b| - 1];
      assert (a + b)[..|a + b| - 1] == a + b';
      assert b[..|b| - 1] == b';
      KeptAppend(a, b');
    }
  }

  /** A single piece is kept stripped, unless stripping leaves nothing. */
  lemma KeptOne(p: string)
    ensures Kept([p]) == if Text.Trim(Text.Py, p) != "" then [Text.Trim(Text.Py, p)] else []
  {
    assert [p][..0] == [];
  }

  /** A theme is kept iff it is non-empty and is the strip of some piece. */
  lemma {:induction false} KeptIsTrimmedPieces(pieces: seq<string>)
    ensures forall t :: t in Kept(pieces) <==> t != "" && exists p :: p in pieces && Text.Trim(Text.Py, p) == t
    decreases |pieces|
  {
    if |pieces| > 0 {
      var front := pieces[..|pieces| - 1];
      var last := pieces[|pieces| - 1];
      KeptIsTrimmedPieces(front);
      assert pieces == front + [last];
      forall t | t != "" && exists p :: p in pieces && Text.Trim(Text.Py, p) == t
        ensures t in Kept(pieces)
      {
        var p :| p in pieces && Text.Trim(Text.Py, p) == t;
        if p != last {
          assert p in front;
        }
      }
    }
  }

  /** The themes of one string are exactly the non-empty strips of its comma-separated pieces. */
  lemma ThemesOfIsTrimmedPieces(themes: string)
    ensures forall t :: t in ThemesOf(themes) <==>
              t != "" && exists p :: p in Text.Split(themes, ',') && Text.Trim(Text.Py, p) == t
  {
    KeptIsTrimmedPieces(Text.Split(themes, ','));
  }

  /** The empty string names no theme. */
  lemma ThemesOfEmpty()
    ensures ThemesOf("") == []
  {
    assert Text.Split("", ',') == [""];
    KeptOne("");
  }

  /** One more string adds its themes at the end, whatever it is. */
  lemma MentionsAreThemesInOrder(all: seq<string>, s: string)
    ensures Mentions(all + [s]) == Mentions(all) + ThemesOf(s)
  {
    ThemesOfEmpty();
    assert (all + [s])[..|all|] == all;
  }

  /** A theme is mentioned iff some string names it. */
  lemma {:induction false} MentionIffTheme(all: seq<string>)
    ensures forall t :: t in Mentions(all) <==> exists s :: s in all && t in ThemesOf(s)
    decreases |all|
  {
    if |all| > 0 {
      var front := all[..|all| - 1];
      var last := all[|all| - 1];
      MentionIffTheme(front);
      assert all == front + [last];
      MentionsAreThemesInOrder(front, last);
      forall t | exists s :: s in all && t in ThemesOf(s)
        ensures t in Mentions(all)
      {
        var s :| s in all && t in ThemesOf(s);
        if s != last {
          assert s in front;
        }
      }
    }
  }

  /** The themes of a tally, in its order. */
  function Themes(tally: seq<ThemeCount>): (r: seq<string>)
    ensures |r| == |tally| && forall i :: 0 <= i < |tally| ==> r[i] == tally[i].theme
  {
    seq(|tally|, i requires 0 <= i < |tally| => tally[i].theme)
  }

  /** `theme_count[theme] = theme_count.get(theme, 0) + 1`: a dict keeps a new key at the end. */
  function Bump(tally: seq<ThemeCount>, theme: string): (r: seq<ThemeCount>)
  {
    var names := Themes(tally);
    if theme in names then
      var i := FirstIndex(names, theme);
      tally[i := ThemeCount(theme, tally[i].count + 1)]
    else tally + [ThemeCount(theme, 1)]
  }

  /** The dict after the loop, as its items in insertion order. */
  function Tally(mentions: seq<string>): (r: seq<ThemeCount>)
    decreases |mentions|
  {
    if |mentions| == 0 then []
    else Bump(Tally(mentions[..|mentions| - 1]), mentions[|mentions| - 1])
  }

  /** The reference the loop is measured against: each distinct theme in first-seen order with its number of mentions. */
  function Counted(mentions: seq<string>): (r: seq<ThemeCount>)
    ensures |r| == |FirstSeen(mentions)|
    ensures forall i :: 0 <= i < |r| ==> r[i] == ThemeCount(FirstSeen(mentions)[i], Count(mentions, FirstSeen(mentions)[i]))
  {
    var names := FirstSeen(mentions);
    seq(|names|, i requires 0 <= i < |names| => ThemeCount(names[i], Count(mentions, names[i])))
  }

  lemma CountSnoc<T>(s: seq<T>, x: T, y: T)
    ensures Count(s + [x], y) == Count(s, y) + (if x == y then 1 else 0)
  {
    assert (s + [x])[..|s|] == s;
  }

  /** The counting loop computes the reference: one entry per distinct theme, first-seen order, exact counts. */
  lemma {:induction false} TallyIsCounted(mentions: seq<string>)
    ensures Tally(mentions) == Counted(mentions)
    decreases |mentions|
  {
    if |mentions| > 0 {
      var p := mentions[..|mentions| - 1];
      var x := mentions[|mentions| - 1];
      assert p + [x] == mentions;
      TallyIsCounted(p);
      BumpCounted(p, x);
    }
  }

  lemma BumpCounted(p: seq<string>, x: string)
    ensures Bump(Counted(p), x) == Counted(p + [x])
  {
    if x in p {
      BumpCountedSeen(p, x);
    } else {
      BumpCountedNew(p, x);
    }
  }

  /** A theme already counted: its entry goes up by one and keeps its place. */
  lemma BumpCountedSeen(p: seq<string>, x: string)
    requires x in p
    ensures Bump(Counted(p), x) == Counted(p + [x])
  {
    assert Themes(Counted(p)) == FirstSeen(p);
    CountedSnocSeen(p, x);
  }

  lemma CountedSnocSeen(p: seq<string>, x: string)
    requires x in p
    ensures var i := FirstIndex(FirstSeen(p), x);
            Counted(p + [x]) == Counted(p)[i := ThemeCount(x, Counted(p)[i].count + 1)]
  {
    var c := Counted(p);
    var i := FirstIndex(FirstSeen(p), x);
    FirstSeenSnoc(p, x);
    var c' := Counted(p + [x]);
    forall j | 0 <= j < |c| && j != i ensures c'[j] == c[j] {
      CountedSnocAt(p, x, j);
    }
    CountedSnocAt(p, x, i);
    UpdatedAt(c', c, i, ThemeCount(x, c[i].count + 1));
  }

  /** A sequence that agrees with `b` except at `i`, where it holds `v`, is `b[i := v]`. */
  lemma UpdatedAt<T>(a: seq<T>, b: seq<T>, i: nat, v: T)
    requires i < |b| == |a| && a[i] == v
    requires forall j :: 0 <= j < |a| && j != i ==> a[j] == b[j]
    ensures a == b[i := v]
  {
  }

  /** Entry `j` of the tally after one more mention of a theme already seen. */
  lemma CountedSnocAt(p: seq<string>, x: string, j: nat)
    requires x in p && j < |FirstSeen(p)|
    ensures var c := Counted(p);
            var i := FirstIndex(FirstSeen(p), x);
            Counted(p + [x])[j] == c[i := ThemeCount(x, c[i].count + 1)][j]
  {
    var names := FirstSeen(p);
    var i := FirstIndex(names, x);
    FirstSeenSnoc(p, x);
    CountSnoc(p, x, names[j]);
    if j != i {
      assert names[j] != names[i];
    }
  }

  /** A new theme: it is appended with a count of one. */
  lemma BumpCountedNew(p: seq<string>, x: string)
    requires x !in p
    ensures Bump(Counted(p), x) == Counted(p + [x])
  {
    assert Themes(Counted(p)) == FirstSeen(p);
    CountedSnocNew(p, x);
  }

  lemma CountedSnocNew(p: seq<string>, x: string)
    requires x !in p
    ensures Counted(p + [x]) == Counted(p) + [ThemeCount(x, 1)]
  {
    var c := Counted(p);
    var names := FirstSeen(p);
    FirstSeenSnoc(p, x);
    var c' := Counted(p + [x]);
    forall j | 0 <= j < |c| ensures c'[j] == c[j] {
      CountSnoc(p, x, names[j]);
    }
    CountSnoc(p, x, x);
  }

  /** The sum of the counts. */
  function Total(tally: seq<ThemeCount>): (n: nat)
    decreases |tally|
  {
    if |tally| == 0 then 0 else tally[0].count + Total(tally[1..])
  }

  lemma {:induction false} TotalAppend(a: seq<ThemeCount>, b: seq<ThemeCount>)
    ensures Total(a + b) == Total(a) + Total(b)
    decreases |a|
  {
    if |a| == 0 {
      assert a + b == b;
    } else {
      assert (a + b)[1..] == a[1..] + b;
      TotalAppend(a[1..], b);
    }
  }

  lemma TotalUpdate(t: seq<ThemeCount>, i: nat, e: ThemeCount)
    requires i < |t|
    ensures Total(t[i := e]) + t[i].count == Total(t) + e.count
  {
    assert t == t[..i] + [t[i]] + t[i + 1..];
    assert t[i := e] == t[..i] + [e] + t[i + 1..];
    TotalAppend(t[..i] + [t[i]], t[i + 1..]);
    TotalAppend(t[..i], [t[i]]);
    TotalAppend(t[..i] + [e], t[i + 1..]);
    TotalAppend(t[..i], [e]);
  }

  /** Every mention adds exactly one to the total. */
  lemma {:induction false} TotalOfTally(mentions: seq<string>)
    ensures Total(Tally(mentions)) == |mentions|
    decreases |mentions|
  {
    if |mentions| > 0 {
      var p := mentions[..|mentions| - 1];
      var x := mentions[|mentions| - 1];
      var t := Tally(p);
      TotalOfTally(p);
      var names := Themes(t);
      if x in names {
        TotalUpdate(t, FirstIndex(names, x), ThemeCount(x, t[FirstIndex(names, x)].count + 1));
      } else {
        TotalAppend(t, [ThemeCount(x, 1)]);
      }
    }
  }

  /** Reordering a tally does not change its total. */
  lemma {:induction false} TotalOfPermutation(a: seq<ThemeCount>, b: seq<ThemeCount>)
    requires multiset(a) == multiset(b)
    ensures Total(a) == Total(b)
    decreases |a|
  {
    if |a| == 0 {
      assert |b| == |multiset(b)| == 0;
    } else {
      assert a[0] in multiset(b);
      var i :| 0 <= i < |b| && b[i] == a[0];
      var b' := b[..i] + b[i + 1..];
      RemoveAt(b, i);
      assert a == [a[0]] + a[1..];
      assert multiset(a[1..]) == multiset(a) - multiset{a[0]};
      TotalOfPermutation(a[1..], b');
      TotalRemove(b, i);
    }
  }

  /** Taking out the element at `i` takes one copy of it out of the multiset. */
  lemma RemoveAt<T>(b: seq<T>, i: nat)
    requires i < |b|
    ensures multiset(b[..i] + b[i + 1..]) == multiset(b) - multiset{b[i]}
  {
    assert b == b[..i] + [b[i]] + b[i + 1..];
    assert multiset(b) == multiset(b[..i]) + multiset{b[i]} + multiset(b[i + 1..]);
  }

  /** Taking out the entry at `i` takes its count off the total. */
  lemma TotalRemove(b: seq<ThemeCount>, i: nat)
    requires i < |b|
    ensures Total(b) == b[i].count + Total(b[..i] + b[i + 1..])
  {
    assert b == b[..i] + [b[i]] + b[i + 1..];
    TotalAppend(b[..i] + [b[i]], b[i + 1..]);
    TotalAppend(b[..i], [b[i]]);
    TotalAppend(b[..i], b[i + 1..]);
  }

  /** The sort key of a theme: its count alone. */
  function ByCount(t: ThemeCount): (k: Ranking.SortKey)
    ensures k.count == t.count
  {
    Ranking.SortKey(t.count, "")
  }

  /** `get_themes`: tally the mentions, then sort by count, largest first, ties in insertion order. */
  function ThemeList(all: seq<string>): (r: seq<ThemeCount>)
    ensures Ranking.Descending(ByCount, r)
    ensures multiset(r) == multiset(Tally(Mentions(all)))
    ensures forall k :: Ranking.WithKey(ByCount, r, k) == Ranking.WithKey(ByCount, Tally(Mentions(all)), k)
  {
    Ranking.SortDescending(ByCount, Tally(Mentions(all)))
  }

  /** Each entry of the theme list carries its theme's number of mentions, never zero. */
  lemma ThemeListCounts(all: seq<string>)
    ensures var r := ThemeList(all);
            forall i :: 0 <= i < |r| ==> r[i].count == Count(Mentions(all), r[i].theme) > 0
  {
    var m := Mentions(all);
    var r := ThemeList(all);
    TallyIsCounted(m);
    var c := Counted(m);
    forall i | 0 <= i < |r| ensures r[i].count == Count(m, r[i].theme) > 0 {
      assert r[i] in multiset(c);
      var j :| 0 <= j < |c| && c[j] == r[i];
      assert FirstSeen(m)[j] in m;
    }
  }

  /** The counts of the theme list add up to the number of mentions. */
  lemma ThemeListTotal(all: seq<string>)
    ensures Total(ThemeList(all)) == |Mentions(all)|
  {
    TotalOfTally(Mentions(all));
    TotalOfPermutation(ThemeList(all), Tally(Mentions(all)));
  }

  /** A theme is listed exactly when it is mentioned. */
  lemma ThemeListCovers(all: seq<string>)
    ensures forall x :: x in Mentions(all) <==> x in Themes(ThemeList(all))
  {
    var m := Mentions(all);
    var r := ThemeList(all);
    TallyIsCounted(m);
    var c := Counted(m);
    forall x ensures x in m <==> x in Themes(r) {
      if x in m {
        var j := FirstIndex(FirstSeen(m), x);
        assert c[j] in multiset(r);
        var k :| 0 <= k < |r| && r[k] == c[j];
        assert Themes(r)[k] == x;
      }
      if x in Themes(r) {
        var k :| 0 <= k < |r| && Themes(r)[k] == x;
        assert r[k] in multiset(c);
      }
    }
  }

  /** No theme is listed twice. */
  lemma ThemeListDistinct(all: seq<string>)
    ensures Ranking.DistinctBy((t: ThemeCount) => t.theme, ThemeList(all))
  {
    var m := Mentions(all);
    TallyIsCounted(m);
    var c := Counted(m);
    assert Ranking.DistinctBy((t: ThemeCount) => t.theme, c) by {
      assert Distinct(FirstSeen(m));
    }
    Ranking.SortKeepsDistinctBy(ByCount, (t: ThemeCount) => t.theme, c);
  }

  /** Themes with equal counts keep the order in which they were first mentioned. */
  lemma ThemeListTiesInFirstSeenOrder(all: seq<string>)
    ensures forall k :: Ranking.WithKey(ByCount, ThemeList(all), k) == Ranking.WithKey(ByCount, Counted(Mentions(all)), k)
  {
    TallyIsCounted(Mentions(all));
  }

  /**
    A theme named twice in one string is counted twice: the counts are of
    mentions, not of rows.
   */
  lemma RepeatedThemeCountsTwice(a: string)
    requires a != "" && ',' !in a && !Text.IsSpace(Text.Py, a[0]) && !Text.IsSpace(Text.Py, a[|a| - 1])
    ensures Mentions([a + "," + a]) == [a, a]
    ensures ThemeList([a + "," + a]) == [ThemeCount(a, 2)]
  {
    var s := a + "," + a;
    assert ThemesOf(s) == [a, a] by {
      Text.SplitJoin([a, a], ',');
      assert Text.Join([a, a], ',') == s;
      Text.TrimOfUntrimmed(Text.Py, a);
      assert Kept([a, a]) == Kept([a]) + [a] by {
        assert [a, a][..1] == [a];
      }
      assert Kept([a]) == [a] by {
        assert [a][..0] == [];
      }
    }
    assert Mentions([s]) == Mentions([]) + ThemesOf(s) by {
      assert [s][..0] == [];
    }
    TallyOfTwin(a);
    SortOfOne(ThemeCount(a, 2));
  }

  lemma TallyOfTwin(a: string)
    ensures Tally([a, a]) == [ThemeCount(a, 2)]
  {
    assert Tally([a, a]) == Bump(Tally([a]), a) by {
      assert [a, a][..1] == [a];
    }
    assert Tally([a]) == [ThemeCount(a, 1)] by {
      assert [a][..0] == [];
    }
    assert Themes([ThemeCount(a, 1)]) == [a];
  }

  lemma SortOfOne(t: ThemeCount)
    ensures Ranking.SortDescending(ByCount, [t]) == [t]
  {
    var r := Ranking.SortDescending(ByCount, [t]);
    assert |r| == 1;
    assert r[0] in multiset(r);
  }

  /** `get_themes` as a reply: the list, or a 500 when the query fails. */
  function ThemesReply(all: Option<seq<string>>): (r: Http.Reply<seq<ThemeCount>>)
    ensures r.Ok? <==> all.Some?
    ensures r.Ok? ==> r.payload == ThemeList(all.value)
    ensures !r.Ok? ==> r == Http.ServerError
  {
    match all
    case None => Http.ServerError
    case Some(found) => Http.Ok(ThemeList(found))
  }

  // ---------------------------------------------------------------------
  // /api/search/scripts and /api/search/dialogues: pagination
  // ---------------------------------------------------------------------

  /** One page of a search: the rows after `offset`, at most `limit` of them, and the flag. */
  datatype Page<T> = Page(results: seq<T>, totalCount: nat, hasMore: bool)

  /** `(offset + limit) < total_count`. */
  predicate HasMore(offset: int, limit: int, totalCount: int) {
    offset + limit < totalCount
  }

  /**
    A page cut from the full ordered result `all` (what `LIMIT ? OFFSET ?`
    selects), with `total_count` whatever the separate count query gave.
   */
  function Paginate<T>(all: seq<T>, totalCount: nat, limit: nat, offset: nat): (p: Page<T>)
    ensures p.totalCount == totalCount && |p.results| <= limit
    ensures forall i :: 0 <= i < |p.results| ==> offset + i < |all| && p.results[i] == all[offset + i]
    ensures offset + limit <= |all| ==> |p.results| == limit
    ensures offset < |all| ==> |p.results| > 0 || limit == 0
    ensures |p.results| == if offset >= |all| then 0 else if limit <= |all| - offset then limit else |all| - offset
    ensures p.hasMore <==> HasMore(offset, limit, totalCount)
  {
    var from := if offset <= |all| then offset else |all|;
    var to := if offset + limit <= |all| then offset + limit else |all|;
    Page(all[from..to], totalCount, HasMore(offset, limit, totalCount))
  }

  /**
    `search_dialogues`: the count query is `COUNT(*)` under the page query's
    own WHERE, so `total_count` is the number of rows, and `has_more` is set
    exactly when some row lies beyond the page returned.
   */
  lemma HasMoreIffRowsRemain<T>(all: seq<T>, totalCount: nat, limit: nat, offset: nat)
    requires totalCount == |all|
    ensures var p := Paginate(all, totalCount, limit, offset);
            p.hasMore <==> offset + |p.results| < |all|
  {
    var p := Paginate(all, totalCount, limit, offset);
    if offset + limit <= |all| {
      assert |p.results| == limit;
    } else {
      assert offset + |p.results| >= |all|;
    }
  }

  /** One row of `search_scripts`: a script name and the other six grouped columns. */
  datatype ScriptGroup = ScriptGroup(scriptName: string, grouped: seq<Option<string>>)

  function ScriptNames(groups: seq<ScriptGroup>): (names: seq<string>)
    ensures |names| == |groups|
    ensures forall i :: 0 <= i < |groups| ==> names[i] == groups[i].scriptName
  {
    seq(|groups|, i requires 0 <= i < |groups| => groups[i].scriptName)
  }

  /**
    `search_scripts`: the page rows are groups over seven columns, while
    `total_count` is `COUNT(DISTINCT script_name)`, the number of different
    names among them.
   */
  function ScriptsPage(groups: seq<ScriptGroup>, limit: nat, offset: nat): (p: Page<ScriptGroup>)
    ensures p.totalCount == |Basics.FirstSeen(ScriptNames(groups))|
    ensures forall i :: 0 <= i < |p.results| ==> offset + i < |groups| && p.results[i] == groups[offset + i]
    ensures |p.results| == if offset >= |groups| then 0 else if limit <= |groups| - offset then limit else |groups| - offset
    ensures p.hasMore <==> offset + limit < |Basics.FirstSeen(ScriptNames(groups))|
  {
    Paginate(groups, |Basics.FirstSeen(ScriptNames(groups))|, limit, offset)
  }

  /**
    One script whose rows disagree on a grouped column gives two page rows
    but a count of one: the first page of size one says nothing more is
    left, although the second row is.
   */
  lemma ScriptsPageHidesRows()
    ensures var groups := [ScriptGroup("A", [Some("x")]), ScriptGroup("A", [Some("y")])];
            var p := ScriptsPage(groups, 1, 0);
            && p.results == [groups[0]] && !p.hasMore && |p.results| < |groups|
  {
    var groups := [ScriptGroup("A", [Some("x")]), ScriptGroup("A", [Some("y")])];
    var names := ScriptNames(groups);
    assert names == ["A", "A"];
    assert names[..1] == ["A"];
    assert Basics.FirstSeen(names[..1]) == ["A"];
    assert Basics.FirstSeen(names) == ["A"];
  }

  /**
    When every script contributes one group (its grouped columns agree
    across its rows), the distinct count is the row count, so `has_more`
    is set exactly when rows remain, as for `search_dialogues`.
   */
  lemma ScriptsPageExactWhenNamesDistinct(groups: seq<ScriptGroup>, limit: nat, offset: nat)
    requires Basics.Distinct(ScriptNames(groups))
    ensures var p := ScriptsPage(groups, limit, offset);
            p.totalCount == |groups| && (p.hasMore <==> offset + |p.results| < |groups|)
  {
    Basics.FirstSeenOfDistinct(ScriptNames(groups));
    HasMoreIffRowsRemain(groups, |groups|, limit, offset);
  }

  // ---------------------------------------------------------------------
  // /api/script/<script_name>
  // ---------------------------------------------------------------------

  /** The 404 message of `get_script_details`. */
  const ScriptNotFound := "Script not found"

  /** What a query gives: its rows, or an exception. */
  datatype Query<T> = Failed | Rows(rows: seq<T>)

  datatype ScriptDetails<I, L, C> = ScriptDetails(scriptInfo: I, dialogues: seq<L>, characterStats: seq<C>)

  /**
    `get_script_details`: `fetchone()` of the information query; no row is
    a 404, otherwise the lines and the character counts are queried too.
    Any exception is a 500.
   */
  function GetScriptDetails<I, L, C>(info: Query<I>, lines: Query<L>, stats: Query<C>): (r: Http.Reply<ScriptDetails<I, L, C>>)
    ensures r.NotFound? <==> info == Rows([])
    ensures r.NotFound? ==> r.error == ScriptNotFound
    ensures r.Ok? <==> info.Rows? && |info.rows| > 0 && lines.Rows? && stats.Rows?
    ensures r.Ok? ==> r.payload == ScriptDetails(info.rows[0], lines.rows, stats.rows)
    ensures !r.Ok? && !r.NotFound? ==> r == Http.ServerError
  {
    match info
    case Failed => Http.ServerError
    case Rows(found) =>
      if |found| == 0 then Http.NotFound(ScriptNotFound)
      else match (lines, stats)
        case (Rows(ls), Rows(cs)) => Http.Ok(ScriptDetails(found[0], ls, cs))
        case _ => Http.ServerError
  }
}
