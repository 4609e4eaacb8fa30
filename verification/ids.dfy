/**
  Management numbers read off the front of a script name. The URL scripts
  and the range analysis use `re.match(r'^(B\d+)', name)`;
  extract_urls_comprehensive.py tries `^([ABEFHP]K?[-_]?\d+)` first and
  `^([A-Z]+\d+)` only when that fails. Each regex is modelled as a parser
  that returns the parts of its match; `\d` is an ASCII digit.
 */
module ManagementIds {
  import opened Basics
  import Text

  // ---------------------------------------------------------------------
  // ^(B\d+)
  // ---------------------------------------------------------------------

  /** A string of the form `B` followed by one or more digits. */
  predicate IsBNumber(t: string) {
    |t| >= 2 && t[0] == 'B' && Text.AllDigits(t[1..])
  }

  /** `extract_script_id_from_name`: the match of `^(B\d+)`, or None. */
  function ExtractB(s: string): (r: Option<string>)
    ensures r.Some? ==> IsBNumber(r.value) && r.value <= s
    ensures r.Some? ==> |r.value| == |s| || !Text.IsDigit(s[|r.value|])
    ensures r.None? <==> !(|s| >= 2 && s[0] == 'B' && Text.IsDigit(s[1]))
  {
    if |s| > 0 && s[0] == 'B' then
      var n := Text.DigitRun(s[1..]);
      assert s[..n + 1][1..] == s[1..][..n];
      if n > 0 then Some(s[..n + 1]) else None
    else None
  }

  /** Every prefix of the form `B` + digits is found, and none is longer than the one returned. */
  lemma ExtractBIsLongest(s: string, p: string)
    requires IsBNumber(p) && p <= s
    ensures ExtractB(s).Some? && |p| <= |ExtractB(s).value|
  {
    assert s[1..][..|p| - 1] == p[1..];
    Text.DigitRunIsLongest(s[1..], |p| - 1);
  }

  // ---------------------------------------------------------------------
  // ^([ABEFHP]K?[-_]?\d+)
  // ---------------------------------------------------------------------

  /** The series letters the first pattern accepts. */
  predicate IsSeries(c: char) {
    c == 'A' || c == 'B' || c == 'E' || c == 'F' || c == 'H' || c == 'P'
  }

  predicate IsSeparator(c: char) {
    c == '-' || c == '_'
  }

  /** The parts of a match of the first pattern: letter, optional `K`, optional separator, digits. */
  datatype SeriesId = SeriesId(series: char, k: bool, sep: Option<char>, digits: string)

  predicate SeriesWellFormed(id: SeriesId) {
    && IsSeries(id.series)
    && (id.sep.Some? ==> IsSeparator(id.sep.value))
    && |id.digits| > 0 && Text.AllDigits(id.digits)
  }

  /** The matched text. */
  function SpellSeries(id: SeriesId): (t: string)
    ensures |t| == 1 + (if id.k then 1 else 0) + (if id.sep.Some? then 1 else 0) + |id.digits|
  {
    [id.series] + (if id.k then "K" else "") + (if id.sep.Some? then [id.sep.value] else "") + id.digits
  }

  /** Where the digits of a series match start, given what precedes them. */
  function DigitsStart(id: SeriesId): (j: nat)
    ensures j == |SpellSeries(id)| - |id.digits|
  {
    1 + (if id.k then 1 else 0) + (if id.sep.Some? then 1 else 0)
  }

  /**
    The first pattern at the start of `s`. `K?` and `[-_]?` are greedy, and
    giving either back could only leave a `K` or a separator where a digit
    is needed, so no backtracking ever succeeds.
   */
  function MatchSeries(s: string): (r: Option<SeriesId>)
    ensures r.Some? ==> SeriesWellFormed(r.value) && SpellSeries(r.value) <= s
    ensures r.Some? ==> |SpellSeries(r.value)| == |s| || !Text.IsDigit(s[|SpellSeries(r.value)|])
  {
    if |s| == 0 || !IsSeries(s[0]) then None
    else
      var k := 1 < |s| && s[1] == 'K';
      var i := if k then 2 else 1;
      var sep := if i < |s| && IsSeparator(s[i]) then Some(s[i]) else None;
      var j := if sep.Some? then i + 1 else i;
      var n := Text.DigitRun(s[j..]);
      if n > 0 then
        var id := SeriesId(s[0], k, sep, s[j..][..n]);
        SpellIsPrefix(s, id, j + n);
        Some(id)
      else None
  }

  /** A series match read off `s` spells the prefix it was read from. */
  lemma SpellIsPrefix(s: string, id: SeriesId, end: nat)
    requires |s| > 0 && id.series == s[0] && end <= |s| && DigitsStart(id) + |id.digits| == end
    requires id.k ==> s[1] == 'K'
    requires id.sep.Some? ==> s[DigitsStart(id) - 1] == id.sep.value
    requires id.digits == s[DigitsStart(id)..][..|id.digits|]
    ensures SpellSeries(id) == s[..end]
  {
    var t := SpellSeries(id);
    var j := DigitsStart(id);
    forall x | 0 <= x < end ensures t[x] == s[x] {
      if x >= j {
        assert t[x] == id.digits[x - j];
      }
    }
  }

  /** Every match of the first pattern at the start of `s` is found, and the one returned is the longest. */
  lemma MatchSeriesFindsEveryMatch(s: string, id: SeriesId)
    requires SeriesWellFormed(id) && SpellSeries(id) <= s
    ensures MatchSeries(s).Some?
    ensures |SpellSeries(id)| <= |SpellSeries(MatchSeries(s).value)|
  {
    var t := SpellSeries(id);
    var j := DigitsStart(id);
    assert t[j..] == id.digits;
    assert t[0] == s[0] == id.series;
    assert Text.IsDigit(t[j]);
    if id.k {
      assert s[1] == t[1] == 'K';
    } else {
      assert s[1] == t[1];
    }
    if id.sep.Some? {
      assert s[j - 1] == t[j - 1] == id.sep.value;
    } else {
      assert s[j] == t[j];
    }
    assert s[j..][..|id.digits|] == id.digits;
    Text.DigitRunIsLongest(s[j..], |id.digits|);
  }

  // ---------------------------------------------------------------------
  // ^([A-Z]+\d+)
  // ---------------------------------------------------------------------

  predicate IsUpper(c: char) {
    'A' <= c <= 'Z'
  }

  /** The parts of a match of the second pattern. */
  datatype LetteredId = LetteredId(letters: string, digits: string)

  predicate LetteredWellFormed(id: LetteredId) {
    && |id.letters| > 0 && Text.AllPass(IsUpper, id.letters)
    && |id.digits| > 0 && Text.AllDigits(id.digits)
  }

  /** The second pattern at the start of `s`: the greedy letters must be followed by a digit. */
  function MatchLettered(s: string): (r: Option<LetteredId>)
    ensures r.Some? ==> LetteredWellFormed(r.value) && r.value.letters + r.value.digits <= s
    ensures r.Some? ==> var n := |r.value.letters + r.value.digits|; n == |s| || !Text.IsDigit(s[n])
  {
    var m := Text.LeadingRun(IsUpper, s);
    if m == 0 then None
    else
      var n := Text.DigitRun(s[m..]);
      if n == 0 then None
      else
        assert s[..m] + s[m..][..n] == s[..m + n];
        Some(LetteredId(s[..m], s[m..][..n]))
  }

  /** Every match of the second pattern at the start of `s` is found, and the one returned is the longest. */
  lemma MatchLetteredFindsEveryMatch(s: string, id: LetteredId)
    requires LetteredWellFormed(id) && id.letters + id.digits <= s
    ensures MatchLettered(s).Some?
    ensures |id.letters + id.digits| <= |MatchLettered(s).value.letters + MatchLettered(s).value.digits|
  {
    var m := |id.letters|;
    assert s[..m] == id.letters;
    Text.LeadingRunIsLongest(IsUpper, s, m);
    assert s[m] == id.digits[0];
    Text.LeadingRunStopsAt(IsUpper, s, m);
    assert s[m..][..|id.digits|] == id.digits;
    Text.DigitRunIsLongest(s[m..], |id.digits|);
  }

  // ---------------------------------------------------------------------
  // extract_management_id_from_name
  // ---------------------------------------------------------------------

  /** The first pattern's match if there is one, otherwise the second's, otherwise None. */
  function ExtractAny(s: string): (r: Option<string>)
    ensures r.Some? ==> r.value <= s && |r.value| >= 2
    ensures MatchSeries(s).Some? ==> r == Some(SpellSeries(MatchSeries(s).value))
    ensures r.None? <==> MatchSeries(s).None? && MatchLettered(s).None?
    ensures MatchSeries(s).None? && MatchLettered(s).Some? ==>
              r == Some(MatchLettered(s).value.letters + MatchLettered(s).value.digits)
  {
    match MatchSeries(s)
    case Some(id) => Some(SpellSeries(id))
    case None =>
      match MatchLettered(s)
      case Some(id) => Some(id.letters + id.digits)
      case None => None
  }

  /** A name that starts with any well-formed identifier of either pattern yields an ID. */
  lemma ExtractAnyFindsSeries(s: string, id: SeriesId)
    requires SeriesWellFormed(id) && SpellSeries(id) <= s
    ensures ExtractAny(s).Some?
  {
    MatchSeriesFindsEveryMatch(s, id);
  }

  lemma ExtractAnyFindsLettered(s: string, id: LetteredId)
    requires LetteredWellFormed(id) && id.letters + id.digits <= s
    ensures ExtractAny(s).Some?
  {
    MatchLetteredFindsEveryMatch(s, id);
  }

  /** On names that start with `B` and a digit the two extractors agree. */
  lemma ExtractorsAgreeOnBNumbers(s: string)
    requires ExtractB(s).Some?
    ensures ExtractAny(s) == ExtractB(s)
  {
    var n := Text.DigitRun(s[1..]);
    assert Text.IsDigit(s[1]);
    assert !IsSeparator(s[1]) && s[1] != 'K';
    var id := MatchSeries(s).value;
    assert SpellSeries(id) == s[..n + 1];
  }
}
