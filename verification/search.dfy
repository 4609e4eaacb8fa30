/**
  Keyword search (netlify/functions/search.js and api/search.py). The query
  returns rows ordered by script name and row number whose dialogue, script
  name, video title, themes or subjects contain the keyword; the handler
  then groups the rows by script, keeps only the lines whose own dialogue
  contains the keyword (ignoring ASCII case), drops scripts left without a
  line, caps each script's sample at three lines and sorts the scripts by
  match count and release date, both descending.
 */
module Search {
  import opened Basics
  import Text
  import Http
  import Ranking
  import Fetcher

  /** One row of the search query; every column but the script name may be NULL. */
  datatype Row = Row(
    scriptName: string,
    scriptUrl: Option<string>,
    character: Option<string>,
    dialogue: Option<string>,
    rowNumber: Option<int>,
    releaseDate: Option<string>,
    youtubeTitle: Option<string>,
    youtubeUrl: Option<string>)

  /** One line of a script's sample. */
  datatype Line = Line(character: string, dialogue: string, rowNumber: int)

  /** A script while the rows are being grouped: its metadata and the lines kept so far. */
  datatype Group = Group(
    scriptName: string,
    scriptUrl: string,
    releaseDate: string,
    youtubeTitle: string,
    youtubeUrl: string,
    lines: seq<Line>,
    characters: seq<string>)

  /** A script in the response: at most three sample lines and the uncapped number of kept lines. */
  datatype ScriptHit = ScriptHit(
    scriptName: string,
    scriptUrl: string,
    releaseDate: string,
    youtubeTitle: string,
    youtubeUrl: string,
    sample: seq<Line>,
    characters: seq<string>,
    matchCount: nat)

  /** The script names of the rows, in row order. */
  function Names(rows: seq<Row>): (ns: seq<string>)
    ensures |ns| == |rows|
    ensures forall i :: 0 <= i < |rows| ==> ns[i] == rows[i].scriptName
  {
    seq(|rows|, i requires 0 <= i < |rows| => rows[i].scriptName)
  }

  /** The row's line is kept: its dialogue, lower-cased, contains the lower-cased keyword. */
  predicate Keeps(keyword: string, row: Row) {
    Text.Contains(Text.Lower(OrEmpty(row.dialogue)), Text.Lower(keyword))
  }

  function LineOf(row: Row): Line {
    Line(OrEmpty(row.character), OrEmpty(row.dialogue), OrZero(row.rowNumber))
  }

  /** The row's character if it is truthy (neither NULL nor empty), as a zero- or one-element list. */
  function CharacterOf(row: Row): (cs: seq<string>)
    ensures |cs| <= 1
    ensures |cs| == 1 <==> row.character.Some? && row.character.value != ""
    ensures |cs| == 1 ==> cs[0] == row.character.value
  {
    if row.character.Some? && row.character.value != "" then [row.character.value] else []
  }

  // ---------------------------------------------------------------------
  // The reference: what each script's entry should hold, read off the rows.
  // ---------------------------------------------------------------------

  /** The kept lines of script `name`, in row order. */
  function KeptLines(keyword: string, rows: seq<Row>, name: string): seq<Line>
    decreases |rows|
  {
    if |rows| == 0 then []
    else
      var last := rows[|rows| - 1];
      KeptLines(keyword, rows[..|rows| - 1], name)
        + (if last.scriptName == name && Keeps(keyword, last) then [LineOf(last)] else [])
  }

  /** The truthy characters of the kept lines of script `name`, in row order, repeats included. */
  function KeptCharacters(keyword: string, rows: seq<Row>, name: string): seq<string>
    decreases |rows|
  {
    if |rows| == 0 then []
    else
      var last := rows[|rows| - 1];
      KeptCharacters(keyword, rows[..|rows| - 1], name)
        + (if last.scriptName == name && Keeps(keyword, last) then CharacterOf(last) else [])
  }

  /** The first row of script `name`. */
  function FirstRow(rows: seq<Row>, name: string): (r: Row)
    requires name in Names(rows)
    ensures r.scriptName == name
  {
    rows[FirstIndex(Names(rows), name)]
  }

  /**
    What the entry of script `name` holds once every row is seen: the
    metadata of its first row, every kept line, and its characters without
    repetition in order of first appearance.
   */
  function Expected(keyword: string, rows: seq<Row>, name: string): Group
    requires name in Names(rows)
  {
    var first := FirstRow(rows, name);
    Group(name, OrEmpty(first.scriptUrl), OrEmpty(first.releaseDate), OrEmpty(first.youtubeTitle),
          OrEmpty(first.youtubeUrl), KeptLines(keyword, rows, name), FirstSeen(KeptCharacters(keyword, rows, name)))
  }

  // ---------------------------------------------------------------------
  // The grouping loop.
  // ---------------------------------------------------------------------

  /** The position of script `name` among the groups, or `|gs|` if it has none. */
  function Lookup(gs: seq<Group>, name: string): (i: nat)
    ensures i <= |gs|
    ensures i < |gs| ==> gs[i].scriptName == name
    ensures forall k :: 0 <= k < i ==> gs[k].scriptName != name
  {
    if |gs| == 0 then 0
    else if gs[0].scriptName == name then 0
    else 1 + Lookup(gs[1..], name)
  }

  /** A new entry, with the metadata of the row that opened it and no lines. */
  function Opened(row: Row): Group {
    Group(row.scriptName, OrEmpty(row.scriptUrl), OrEmpty(row.releaseDate), OrEmpty(row.youtubeTitle),
          OrEmpty(row.youtubeUrl), [], [])
  }

  /** Push the row's line if it is kept, and add its character to the set. */
  function Extend(keyword: string, g: Group, row: Row): Group {
    if !Keeps(keyword, row) then g
    else
      var cs := CharacterOf(row);
      g.(lines := g.lines + [LineOf(row)],
         characters := if |cs| == 1 && cs[0] !in g.characters then g.characters + cs else g.characters)
  }

  /** One iteration of the loop: open the row's entry if it has none, then extend it. */
  function Absorb(keyword: string, gs: seq<Group>, row: Row): seq<Group> {
    var i := Lookup(gs, row.scriptName);
    if i < |gs| then gs[i := Extend(keyword, gs[i], row)]
    else gs + [Extend(keyword, Opened(row), row)]
  }

  /**
    The loop over the rows. Its result is the reference: one entry per
    script, in order of first appearance, each equal to `Expected`.
   */
  function GroupRows(keyword: string, rows: seq<Row>): (gs: seq<Group>)
    ensures |gs| == |FirstSeen(Names(rows))|
    ensures forall i :: 0 <= i < |gs| ==> gs[i] == Expected(keyword, rows, FirstSeen(Names(rows))[i])
    decreases |rows|
  {
    if |rows| == 0 then []
    else
      var before := GroupRows(keyword, rows[..|rows| - 1]);
      AbsorbMatchesExpected(keyword, rows, before);
      Absorb(keyword, before, rows[|rows| - 1])
  }

  /** The names of the rows without their last row. */
  lemma NamesOfPrefix(rows: seq<Row>)
    requires |rows| > 0
    ensures Names(rows)[..|rows| - 1] == Names(rows[..|rows| - 1])
  {
  }

  /** A script with no row has no kept lines and no characters. */
  lemma {:induction false} AbsentScriptIsEmpty(keyword: string, rows: seq<Row>, name: string)
    requires name !in Names(rows)
    ensures KeptLines(keyword, rows, name) == [] && KeptCharacters(keyword, rows, name) == []
    decreases |rows|
  {
    if |rows| > 0 {
      NamesOfPrefix(rows);
      assert rows[|rows| - 1].scriptName == Names(rows)[|rows| - 1];
      assert forall y :: y in Names(rows[..|rows| - 1]) ==> y in Names(rows);
      AbsentScriptIsEmpty(keyword, rows[..|rows| - 1], name);
    }
  }

  /** One more row leaves the entries of the other scripts as they were. */
  lemma ExpectedOfOtherScript(keyword: string, rows: seq<Row>, name: string)
    requires |rows| > 0
    requires name in Names(rows[..|rows| - 1]) && name != rows[|rows| - 1].scriptName
    ensures name in Names(rows)
    ensures Expected(keyword, rows, name) == Expected(keyword, rows[..|rows| - 1], name)
  {
    var prefix := rows[..|rows| - 1];
    var last := rows[|rows| - 1];
    NamesOfPrefix(rows);
    FirstIndexOfPrefix(Names(rows));
    var k := FirstIndex(Names(prefix), name);
    assert FirstIndex(Names(rows), name) == k;
    assert FirstRow(rows, name) == FirstRow(prefix, name) by {
      assert rows[k] == prefix[k];
    }
    assert KeptLines(keyword, rows, name) == KeptLines(keyword, prefix, name);
    assert KeptCharacters(keyword, rows, name) == KeptCharacters(keyword, prefix, name);
    var first := FirstRow(prefix, name);
    assert Expected(keyword, rows, name) == Group(name, OrEmpty(first.scriptUrl), OrEmpty(first.releaseDate), OrEmpty(first.youtubeTitle),
          OrEmpty(first.youtubeUrl), KeptLines(keyword, prefix, name), FirstSeen(KeptCharacters(keyword, prefix, name)));
  }

  /** One more row extends the entry of its own script, opening it if the script is new. */
  lemma ExpectedOfLastScript(keyword: string, rows: seq<Row>)
    requires |rows| > 0
    ensures var prefix := rows[..|rows| - 1];
            var last := rows[|rows| - 1];
            && last.scriptName in Names(rows)
            && (last.scriptName in Names(prefix) ==>
                  Expected(keyword, rows, last.scriptName) == Extend(keyword, Expected(keyword, prefix, last.scriptName), last))
            && (last.scriptName !in Names(prefix) ==>
                  Expected(keyword, rows, last.scriptName) == Extend(keyword, Opened(last), last))
  {
    var prefix := rows[..|rows| - 1];
    var last := rows[|rows| - 1];
    var name := last.scriptName;
    NamesOfPrefix(rows);
    FirstIndexOfPrefix(Names(rows));
    assert Names(rows)[|rows| - 1] == name;
    var kc := KeptCharacters(keyword, prefix, name);
    var extra := if Keeps(keyword, last) then CharacterOf(last) else [];
    assert KeptCharacters(keyword, rows, name) == kc + extra;
    if |extra| == 0 {
      assert kc + extra == kc;
    } else {
      FirstSeenSnoc(kc, extra[0]);
      assert extra == [extra[0]];
    }
    if name !in Names(prefix) {
      AbsentScriptIsEmpty(keyword, prefix, name);
      assert FirstIndex(Names(rows), name) == |rows| - 1;
    } else {
      assert FirstIndex(Names(rows), name) == FirstIndex(Names(prefix), name);
    }
  }

  /** The inductive step of `GroupRows`. */
  lemma AbsorbMatchesExpected(keyword: string, rows: seq<Row>, before: seq<Group>)
    requires |rows| > 0
    requires |before| == |FirstSeen(Names(rows[..|rows| - 1]))|
    requires forall i :: 0 <= i < |before| ==>
               before[i] == Expected(keyword, rows[..|rows| - 1], FirstSeen(Names(rows[..|rows| - 1]))[i])
    ensures var gs := Absorb(keyword, before, rows[|rows| - 1]);
            && |gs| == |FirstSeen(Names(rows))|
            && forall i :: 0 <= i < |gs| ==> gs[i] == Expected(keyword, rows, FirstSeen(Names(rows))[i])
  {
    var prefix := rows[..|rows| - 1];
    var name := rows[|rows| - 1].scriptName;
    var seen := FirstSeen(Names(prefix));
    NamesOfPrefix(rows);
    assert Names(rows) == Names(prefix) + [name];
    FirstSeenSnoc(Names(prefix), name);
    assert forall k :: 0 <= k < |before| ==> before[k].scriptName == seen[k];
    if Lookup(before, name) < |before| {
      AbsorbIntoOpenEntry(keyword, rows, before);
    } else {
      AbsorbIntoNewEntry(keyword, rows, before);
    }
  }

  /** The row's script already has an entry: that entry, and only it, is extended. */
  lemma AbsorbIntoOpenEntry(keyword: string, rows: seq<Row>, before: seq<Group>)
    requires |rows| > 0
    requires |before| == |FirstSeen(Names(rows[..|rows| - 1]))|
    requires forall i :: 0 <= i < |before| ==>
               before[i] == Expected(keyword, rows[..|rows| - 1], FirstSeen(Names(rows[..|rows| - 1]))[i])
    requires Names(rows) == Names(rows[..|rows| - 1]) + [rows[|rows| - 1].scriptName]
    requires Lookup(before, rows[|rows| - 1].scriptName) < |before|
    ensures var gs := Absorb(keyword, before, rows[|rows| - 1]);
            && |gs| == |FirstSeen(Names(rows))|
            && forall i :: 0 <= i < |gs| ==> gs[i] == Expected(keyword, rows, FirstSeen(Names(rows))[i])
  {
    var prefix := rows[..|rows| - 1];
    var last := rows[|rows| - 1];
    var name := last.scriptName;
    var seen := FirstSeen(Names(prefix));
    var i := Lookup(before, name);
    assert before[i].scriptName == seen[i];
    FirstSeenSnoc(Names(prefix), name);
    assert FirstSeen(Names(rows)) == seen;
    ExpectedOfLastScript(keyword, rows);
    var gs := before[i := Extend(keyword, before[i], last)];
    forall k | 0 <= k < |gs|
      ensures gs[k] == Expected(keyword, rows, seen[k])
    {
      if k != i {
        assert seen[k] != name;
        OtherEntryUnchanged(keyword, rows, before, k);
      }
    }
  }

  /** The row's script is new: the entries so far stay, and a new one is appended for it. */
  lemma AbsorbIntoNewEntry(keyword: string, rows: seq<Row>, before: seq<Group>)
    requires |rows| > 0
    requires |before| == |FirstSeen(Names(rows[..|rows| - 1]))|
    requires forall i :: 0 <= i < |before| ==>
               before[i] == Expected(keyword, rows[..|rows| - 1], FirstSeen(Names(rows[..|rows| - 1]))[i])
    requires Names(rows) == Names(rows[..|rows| - 1]) + [rows[|rows| - 1].scriptName]
    requires Lookup(before, rows[|rows| - 1].scriptName) == |before|
    ensures var gs := Absorb(keyword, before, rows[|rows| - 1]);
            && |gs| == |FirstSeen(Names(rows))|
            && forall i :: 0 <= i < |gs| ==> gs[i] == Expected(keyword, rows, FirstSeen(Names(rows))[i])
  {
    var prefix := rows[..|rows| - 1];
    var last := rows[|rows| - 1];
    var name := last.scriptName;
    var seen := FirstSeen(Names(prefix));
    assert forall k :: 0 <= k < |before| ==> seen[k] != name by {
      forall k | 0 <= k < |before| ensures seen[k] != name {
        assert before[k].scriptName == seen[k];
      }
    }
    FirstSeenSnoc(Names(prefix), name);
    var all := FirstSeen(Names(rows));
    assert all == seen + [name];
    ExpectedOfLastScript(keyword, rows);
    var gs := before + [Extend(keyword, Opened(last), last)];
    forall k | 0 <= k < |gs|
      ensures gs[k] == Expected(keyword, rows, all[k])
    {
      if k < |before| {
        OtherEntryUnchanged(keyword, rows, before, k);
      }
    }
  }

  /** An entry of another script than the row's stays what it was. */
  lemma OtherEntryUnchanged(keyword: string, rows: seq<Row>, before: seq<Group>, k: nat)
    requires |rows| > 0
    requires |before| == |FirstSeen(Names(rows[..|rows| - 1]))|
    requires forall i :: 0 <= i < |before| ==>
               before[i] == Expected(keyword, rows[..|rows| - 1], FirstSeen(Names(rows[..|rows| - 1]))[i])
    requires k < |before| && FirstSeen(Names(rows[..|rows| - 1]))[k] != rows[|rows| - 1].scriptName
    ensures FirstSeen(Names(rows[..|rows| - 1]))[k] in Names(rows)
    ensures before[k] == Expected(keyword, rows, FirstSeen(Names(rows[..|rows| - 1]))[k])
  {
    ExpectedOfOtherScript(keyword, rows, FirstSeen(Names(rows[..|rows| - 1]))[k]);
  }

  // ---------------------------------------------------------------------
  // Shaping and ordering the result.
  // ---------------------------------------------------------------------

  function Min(a: int, b: int): int {
    if a < b then a else b
  }

  /** The response entry of a group: the first three lines, and the number of all of them. */
  function HitOf(g: Group): (h: ScriptHit)
    ensures h.matchCount == |g.lines|
    ensures h.sample <= g.lines && |h.sample| == Min(3, |g.lines|)
    ensures h.scriptName == g.scriptName && h.releaseDate == g.releaseDate && h.characters == g.characters
  {
    ScriptHit(g.scriptName, g.scriptUrl, g.releaseDate, g.youtubeTitle, g.youtubeUrl,
              g.lines[..Min(3, |g.lines|)], g.characters, |g.lines|)
  }

  /** The groups with at least one line, as response entries, in group order. */
  function Finalize(gs: seq<Group>): (hits: seq<ScriptHit>)
    ensures |hits| <= |gs|
    ensures forall j :: 0 <= j < |hits| ==> hits[j].matchCount >= 1
    decreases |gs|
  {
    if |gs| == 0 then []
    else
      var prefix := Finalize(gs[..|gs| - 1]);
      var g := gs[|gs| - 1];
      if |g.lines| > 0 then prefix + [HitOf(g)] else prefix
  }

  /** Every entry is the entry of a group with at least one line. */
  lemma {:induction false} FinalizeSource(gs: seq<Group>, j: nat) returns (i: nat)
    requires j < |Finalize(gs)|
    ensures i < |gs| && |gs[i].lines| > 0 && Finalize(gs)[j] == HitOf(gs[i])
    decreases |gs|
  {
    var front := gs[..|gs| - 1];
    var prefix := Finalize(front);
    if j < |prefix| {
      i := FinalizeSource(front, j);
      assert front[i] == gs[i];
    } else {
      i := |gs| - 1;
    }
  }

  /** Every group with at least one line has an entry. */
  lemma {:induction false} FinalizeCovers(gs: seq<Group>, i: nat) returns (j: nat)
    requires i < |gs| && |gs[i].lines| > 0
    ensures j < |Finalize(gs)| && Finalize(gs)[j] == HitOf(gs[i])
    decreases |gs|
  {
    var front := gs[..|gs| - 1];
    var prefix := Finalize(front);
    if i < |gs| - 1 {
      assert front[i] == gs[i];
      j := FinalizeCovers(front, i);
    } else {
      j := |prefix|;
    }
  }

  /** Finalize keeps the relative order of the groups it keeps. */
  lemma {:induction false} FinalizeKeepsOrder(gs: seq<Group>, rank: string -> int)
    requires forall i, j :: 0 <= i < j < |gs| ==> rank(gs[i].scriptName) < rank(gs[j].scriptName)
    ensures forall i, j :: 0 <= i < j < |Finalize(gs)| ==> rank(Finalize(gs)[i].scriptName) < rank(Finalize(gs)[j].scriptName)
    decreases |gs|
  {
    if |gs| > 0 {
      var front := gs[..|gs| - 1];
      FinalizeKeepsOrder(front, rank);
      var prefix := Finalize(front);
      var g := gs[|gs| - 1];
      forall j | 0 <= j < |prefix|
        ensures rank(prefix[j].scriptName) < rank(g.scriptName)
      {
        var i := FinalizeSource(front, j);
        assert front[i] == gs[i];
      }
      var hits := Finalize(gs);
      if |g.lines| > 0 {
        assert hits == prefix + [HitOf(g)];
        forall i, j | 0 <= i < j < |hits|
          ensures rank(hits[i].scriptName) < rank(hits[j].scriptName)
        {
          if j == |prefix| {
            assert hits[i] == prefix[i];
          } else {
            assert hits[i] == prefix[i] && hits[j] == prefix[j];
          }
        }
      } else {
        assert hits == prefix;
      }
    }
  }

  /** The sort key: match count, then release date. */
  function HitKey(h: ScriptHit): Ranking.SortKey {
    Ranking.SortKey(h.matchCount, h.releaseDate)
  }

  function HitName(h: ScriptHit): string {
    h.scriptName
  }

  /** The whole pipeline after the query: group, keep, cap, drop and sort. */
  function Aggregate(keyword: string, rows: seq<Row>): (hits: seq<ScriptHit>)
    ensures Ranking.Descending(HitKey, hits)
  {
    Ranking.SortDescending(HitKey, Finalize(GroupRows(keyword, rows)))
  }

  /** The position at which a script first appears in the rows. */
  function NameRank(rows: seq<Row>, name: string): int {
    if name in Names(rows) then FirstIndex(Names(rows), name) else -1
  }

  // ---------------------------------------------------------------------
  // What the response promises.
  // ---------------------------------------------------------------------

  /** An entry of the result is the finalized expected entry of a script of the rows. */
  lemma EntryIsExpected(keyword: string, rows: seq<Row>, h: ScriptHit)
    requires h in Aggregate(keyword, rows)
    ensures h.scriptName in Names(rows)
    ensures h == HitOf(Expected(keyword, rows, h.scriptName)) && h.matchCount >= 1
  {
    var gs := GroupRows(keyword, rows);
    var fin := Finalize(gs);
    var out := Ranking.SortDescending(HitKey, fin);
    assert multiset(out) == multiset(fin);
    assert h in multiset(fin);
    var j :| 0 <= j < |fin| && fin[j] == h;
    var i := FinalizeSource(gs, j);
    var names := FirstSeen(Names(rows));
    assert gs[i] == Expected(keyword, rows, names[i]);
    assert names[i] in names;
  }

  /**
    Every entry is the faithful summary of one script of the rows: at least
    one kept line, the number of all its kept lines, the first three of
    them, its characters, and the metadata of its first row.
   */
  lemma AggregateEntries(keyword: string, rows: seq<Row>, h: ScriptHit)
    requires h in Aggregate(keyword, rows)
    ensures h.scriptName in Names(rows)
    ensures var lines := KeptLines(keyword, rows, h.scriptName);
            && h.matchCount == |lines| >= 1
            && h.sample == lines[..Min(3, |lines|)]
            && h.characters == FirstSeen(KeptCharacters(keyword, rows, h.scriptName))
    ensures var first := FirstRow(rows, h.scriptName);
            && h.scriptUrl == OrEmpty(first.scriptUrl) && h.releaseDate == OrEmpty(first.releaseDate)
            && h.youtubeTitle == OrEmpty(first.youtubeTitle) && h.youtubeUrl == OrEmpty(first.youtubeUrl)
  {
    EntryIsExpected(keyword, rows, h);
  }

  /** A script has an entry exactly when at least one of its lines is kept. */
  lemma AggregateCovers(keyword: string, rows: seq<Row>, name: string)
    ensures (exists j :: 0 <= j < |Aggregate(keyword, rows)| && Aggregate(keyword, rows)[j].scriptName == name)
        <==> |KeptLines(keyword, rows, name)| > 0
  {
    var gs := GroupRows(keyword, rows);
    var out := Aggregate(keyword, rows);
    if |KeptLines(keyword, rows, name)| > 0 {
      if name !in Names(rows) {
        AbsentScriptIsEmpty(keyword, rows, name);
      }
      var seen := FirstSeen(Names(rows));
      var i := FirstIndex(seen, name);
      assert gs[i] == Expected(keyword, rows, name);
      var k := FinalizeCovers(gs, i);
      assert HitOf(gs[i]) in multiset(out);
      var j :| 0 <= j < |out| && out[j] == HitOf(gs[i]);
      assert out[j].scriptName == name;
    }
    if exists j :: 0 <= j < |out| && out[j].scriptName == name {
      var j :| 0 <= j < |out| && out[j].scriptName == name;
      EntryIsExpected(keyword, rows, out[j]);
    }
  }

  /** Before the sort, the entries follow the order in which their scripts first appear. */
  lemma FinalizedInRowOrder(keyword: string, rows: seq<Row>)
    ensures forall i, j :: 0 <= i < j < |Finalize(GroupRows(keyword, rows))| ==>
              NameRank(rows, Finalize(GroupRows(keyword, rows))[i].scriptName)
                < NameRank(rows, Finalize(GroupRows(keyword, rows))[j].scriptName)
  {
    var gs := GroupRows(keyword, rows);
    var seen := FirstSeen(Names(rows));
    FirstSeenOrder(Names(rows));
    var rank := (n: string) => NameRank(rows, n);
    forall i, j | 0 <= i < j < |gs|
      ensures rank(gs[i].scriptName) < rank(gs[j].scriptName)
    {
      assert gs[i].scriptName == seen[i] && gs[j].scriptName == seen[j];
    }
    FinalizeKeepsOrder(gs, rank);
  }

  /** No script has two entries. */
  lemma AggregateNamesDistinct(keyword: string, rows: seq<Row>)
    ensures Ranking.DistinctBy(HitName, Aggregate(keyword, rows))
  {
    FinalizedInRowOrder(keyword, rows);
    SortedRankedEntries(rows, Finalize(GroupRows(keyword, rows)));
  }

  /**
    Entries with the same match count and release date come in the order in
    which their scripts first appear in the rows: both sorts are stable.
   */
  lemma AggregateTiesInRowOrder(keyword: string, rows: seq<Row>)
    ensures forall i, j :: 0 <= i < j < |Aggregate(keyword, rows)| && HitKey(Aggregate(keyword, rows)[i]) == HitKey(Aggregate(keyword, rows)[j]) ==>
              NameRank(rows, Aggregate(keyword, rows)[i].scriptName) < NameRank(rows, Aggregate(keyword, rows)[j].scriptName)
  {
    FinalizedInRowOrder(keyword, rows);
    SortedRankedEntries(rows, Finalize(GroupRows(keyword, rows)));
  }

  /** Sorting entries whose scripts' first rows increase: names stay distinct, ties stay in that order. */
  lemma SortedRankedEntries(rows: seq<Row>, fin: seq<ScriptHit>)
    requires forall i, j :: 0 <= i < j < |fin| ==> NameRank(rows, fin[i].scriptName) < NameRank(rows, fin[j].scriptName)
    ensures Ranking.DistinctBy(HitName, Ranking.SortDescending(HitKey, fin))
    ensures forall i, j ::
              (0 <= i < j < |Ranking.SortDescending(HitKey, fin)|
               && HitKey(Ranking.SortDescending(HitKey, fin)[i]) == HitKey(Ranking.SortDescending(HitKey, fin)[j])) ==>
              NameRank(rows, Ranking.SortDescending(HitKey, fin)[i].scriptName) < NameRank(rows, Ranking.SortDescending(HitKey, fin)[j].scriptName)
  {
    var rank := (h: ScriptHit) => NameRank(rows, h.scriptName);
    assert Ranking.Increasing(rank, fin);
    assert Ranking.DistinctBy(HitName, fin);
    Ranking.SortKeepsDistinctBy(HitKey, HitName, fin);
    Ranking.SortPutsTiesInRankOrder(HitKey, rank, fin);
  }

  /**
    A row whose dialogue does not contain the keyword (it matched through
    the title, themes or subjects) changes nothing: it adds no line and no
    character, and a script with only such rows gets no entry.
   */
  lemma UnkeptRowChangesNothing(keyword: string, rows: seq<Row>, r: Row)
    requires !Keeps(keyword, r)
    ensures Aggregate(keyword, rows + [r]) == Aggregate(keyword, rows)
  {
    var all := rows + [r];
    assert all[..|all| - 1] == rows;
    var gs := GroupRows(keyword, rows);
    assert GroupRows(keyword, all) == Absorb(keyword, gs, r);
    var i := Lookup(gs, r.scriptName);
    if i < |gs| {
      assert Extend(keyword, gs[i], r) == gs[i];
      assert gs[i := gs[i]] == gs;
    } else {
      var more := gs + [Opened(r)];
      assert Extend(keyword, Opened(r), r) == Opened(r);
      assert more[..|more| - 1] == gs;
      assert Finalize(more) == Finalize(gs);
    }
    assert Finalize(GroupRows(keyword, all)) == Finalize(gs);
  }

  // ---------------------------------------------------------------------
  // The handlers.
  // ---------------------------------------------------------------------

  /** The JSON body of a successful search. */
  datatype SearchPayload = SearchPayload(keyword: string, totalResults: nat, data: seq<ScriptHit>)

  /** What the search query returned: its rows, or an error. */
  datatype QueryAnswer = Rows(rows: seq<Row>) | QueryFailed

  function Respond(keyword: string, rows: seq<Row>): (p: SearchPayload)
    ensures p.totalResults == |p.data| && p.keyword == keyword
    ensures p.data == Aggregate(keyword, rows)
  {
    var hits := Aggregate(keyword, rows);
    SearchPayload(keyword, |hits|, hits)
  }

  /** The script names of a search's results, in result order. */
  function ReportedNames(keyword: string, rows: seq<Row>): (ns: seq<string>)
    ensures |ns| == |Aggregate(keyword, rows)|
    ensures forall j :: 0 <= j < |ns| ==> ns[j] == Aggregate(keyword, rows)[j].scriptName
  {
    HitNames(Aggregate(keyword, rows))
  }

  function HitNames(data: seq<ScriptHit>): (ns: seq<string>)
    ensures |ns| == |data|
    ensures forall j :: 0 <= j < |ns| ==> ns[j] == data[j].scriptName
  {
    seq(|data|, j requires 0 <= j < |data| => data[j].scriptName)
  }

  lemma ReportedNamesDistinct(keyword: string, rows: seq<Row>)
    ensures Distinct(ReportedNames(keyword, rows))
  {
    var data := Aggregate(keyword, rows);
    var hn := ReportedNames(keyword, rows);
    AggregateNamesDistinct(keyword, rows);
    forall i, j | 0 <= i < j < |hn|
      ensures hn[i] != hn[j]
    {
      assert HitName(data[i]) != HitName(data[j]);
    }
  }

  /** A name is reported exactly when it is the name of some row with a kept line. */
  lemma ReportedIffKept(keyword: string, rows: seq<Row>, n: string)
    ensures n in ReportedNames(keyword, rows) <==> n in Names(rows) && |KeptLines(keyword, rows, n)| > 0
  {
    var hn := ReportedNames(keyword, rows);
    AggregateCovers(keyword, rows, n);
    if n !in Names(rows) {
      AbsentScriptIsEmpty(keyword, rows, n);
    }
    if n in hn {
      var j :| 0 <= j < |hn| && hn[j] == n;
    }
    if |KeptLines(keyword, rows, n)| > 0 {
      var j :| 0 <= j < |Aggregate(keyword, rows)| && Aggregate(keyword, rows)[j].scriptName == n;
      assert hn[j] == n;
    }
  }

  /** The reported names are exactly the names of the rows with a kept line. */
  lemma ReportedSet(keyword: string, rows: seq<Row>)
    ensures (set x | x in ReportedNames(keyword, rows)) == set n | n in Names(rows) && |KeptLines(keyword, rows, n)| > 0
  {
    forall n | n in Names(rows) || n in ReportedNames(keyword, rows)
      ensures n in ReportedNames(keyword, rows) <==> n in Names(rows) && |KeptLines(keyword, rows, n)| > 0
    {
      ReportedIffKept(keyword, rows, n);
    }
  }

  /** `total_results` is the number of different scripts with at least one kept line. */
  lemma RespondCountsScripts(keyword: string, rows: seq<Row>)
    ensures Respond(keyword, rows).totalResults == |set n | n in Names(rows) && |KeptLines(keyword, rows, n)| > 0|
  {
    var hn := ReportedNames(keyword, rows);
    ReportedNamesDistinct(keyword, rows);
    DistinctCard(hn);
    ReportedSet(keyword, rows);
  }

  /**
    netlify/functions/search.js. The keyword is `q` as given, never trimmed;
    the database is fetched with the validating downloader; a failed query,
    or any query on a file that is no database, rejects the returned promise.
   */
  function SearchJs(httpMethod: string, params: map<string, string>, st: Fetcher.FetchState, now: nat,
                    network: seq<Fetcher.Exchange>, answer: QueryAnswer): (out: Fetcher.Served<SearchPayload>)
    ensures httpMethod != "GET" ==> out.state == st && out.requested == []
    ensures httpMethod == "OPTIONS" ==> out.reply == Http.Preflight
    ensures httpMethod != "GET" && httpMethod != "OPTIONS" ==> out.reply == Http.MethodNotAllowed
    ensures httpMethod == "GET" && Http.RawParam(params, "q") == "" ==>
              out == Fetcher.Served(Http.BadRequest(Http.KeywordRequired), st, [])
    ensures httpMethod == "GET" && Http.RawParam(params, "q") != "" ==>
              var f := Fetcher.Ensure(Fetcher.Validating, st, now, network);
              && out.state == f.state && out.requested == f.requested
              && (f.result.Err? ==> out.reply == Fetcher.FailureReply(f.result.error))
              && (f.result.Ok? && (!Fetcher.ServesDatabase(f) || answer.QueryFailed?) ==> out.reply == Http.Unhandled)
              && (Fetcher.ServesDatabase(f) && answer.Rows? ==> out.reply == Http.Ok(Respond(params["q"], answer.rows)))
  {
    if httpMethod != "GET" then
      Fetcher.Served(Http.Dispatch(httpMethod, Http.Unhandled), st, [])
    else
      var keyword := Http.RawParam(params, "q");
      if keyword == "" then Fetcher.Served(Http.BadRequest(Http.KeywordRequired), st, [])
      else
        var f := Fetcher.Ensure(Fetcher.Validating, st, now, network);
        if f.result.Err? then Fetcher.Served(Fetcher.FailureReply(f.result.error), f.state, f.requested)
        else if !Fetcher.ServesDatabase(f) then Fetcher.Served(Http.Unhandled, f.state, f.requested)
        else match answer
          case QueryFailed => Fetcher.Served(Http.Unhandled, f.state, f.requested)
          case Rows(rows) => Fetcher.Served(Http.Ok(Respond(keyword, rows)), f.state, f.requested)
  }

  /**
    api/search.py. The keyword is the first `q` value, stripped; the
    download and the query are one step that either yields rows or raises,
    and anything raised becomes a 500.
   */
  function SearchPy(httpMethod: string, params: map<string, seq<string>>, answer: QueryAnswer): (r: Http.Reply<SearchPayload>)
    ensures httpMethod == "GET" && Http.FirstValueStripped(params, "q") == "" ==> r == Http.BadRequest(Http.KeywordRequired)
    ensures httpMethod == "GET" && Http.FirstValueStripped(params, "q") != "" ==>
              && (answer.QueryFailed? ==> r == Http.ServerError)
              && (answer.Rows? ==> r == Http.Ok(Respond(Http.FirstValueStripped(params, "q"), answer.rows)))
    ensures httpMethod == "OPTIONS" ==> r == Http.Preflight
    ensures httpMethod != "GET" && httpMethod != "OPTIONS" ==> r == Http.NotImplemented
  {
    var onGet :=
      var keyword := Http.FirstValueStripped(params, "q");
      if keyword == "" then Http.BadRequest(Http.KeywordRequired)
      else match answer
        case QueryFailed => Http.ServerError
        case Rows(rows) => Http.Ok(Respond(keyword, rows));
    Http.ServePy(httpMethod, onGet)
  }

  /** The JavaScript handler rejects only the empty keyword: a keyword of spaces is searched for. */
  lemma BlankKeywordSearchedInJs(params: map<string, string>, st: Fetcher.FetchState, now: nat,
                                 network: seq<Fetcher.Exchange>, rows: seq<Row>)
    requires params == map["q" := " "]
    requires Fetcher.ServesDatabase(Fetcher.Ensure(Fetcher.Validating, st, now, network))
    ensures SearchJs("GET", params, st, now, network, Rows(rows)).reply == Http.Ok(Respond(" ", rows))
  {
  }

  /** The Python handler strips `q`, so a keyword of spaces is refused. */
  lemma BlankKeywordRefusedInPy(answer: QueryAnswer)
    ensures SearchPy("GET", map["q" := [" "]], answer) == Http.BadRequest(Http.KeywordRequired)
  {
    assert Text.IsSpace(Text.Py, ' ');
    assert |Text.Trim(Text.Py, " ")| == 0;
  }
}
