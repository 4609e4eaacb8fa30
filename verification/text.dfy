/**
  String operations the handlers and the offline scripts rely on: the two
  runtimes' notions of whitespace and trimming, ASCII case folding, substring
  search, plain code-point string order, and decimal numerals.
 */
module Text {

  /** Whose whitespace: JavaScript's `String.prototype.trim` or Python's `str.strip()`. */
  datatype Runtime = Js | Py

  /** Space separators (Unicode category Zs), which both runtimes strip. */
  predicate IsSpaceSeparator(c: char) {
    c == ' ' || c == '\U{00A0}' || c == '\U{1680}' || ('\U{2000}' <= c <= '\U{200A}')
    || c == '\U{202F}' || c == '\U{205F}' || c == '\U{3000}'
  }

  /**
    Whitespace as each runtime sees it. Both strip TAB, LF, VT, FF, CR, the
    line and paragraph separators and every space separator (the full-width
    U+3000 among them). Only JavaScript strips the byte-order mark U+FEFF;
    only Python strips the information separators U+001C..U+001F and NEL U+0085.
   */
  predicate IsSpace(rt: Runtime, c: char) {
    || c == '\t' || c == '\n' || c == '\U{000B}' || c == '\U{000C}' || c == '\r'
    || c == '\U{2028}' || c == '\U{2029}'
    || IsSpaceSeparator(c)
    || (rt == Js && c == '\U{FEFF}')
    || (rt == Py && (('\U{001C}' <= c <= '\U{001F}') || c == '\U{0085}'))
  }

  /** The runtime's whitespace test as a value, so that trimming can be stated for any test. */
  function Spaces(rt: Runtime): (p: char -> bool)
    ensures forall c :: p(c) == IsSpace(rt, c)
  {
    c => IsSpace(rt, c)
  }

  /** Every character of `s` passes `p`. */
  predicate AllPass(p: char -> bool, s: string)
    decreases |s|
  {
    |s| == 0 || (p(s[0]) && AllPass(p, s[1..]))
  }

  lemma {:induction false} AllPassAppend(p: char -> bool, a: string, b: string)
    ensures AllPass(p, a + b) <==> AllPass(p, a) && AllPass(p, b)
    decreases |a|
  {
    if |a| == 0 {
      assert a + b == b;
    } else {
      assert (a + b)[1..] == a[1..] + b;
      AllPassAppend(p, a[1..], b);
    }
  }

  /** The number of leading characters of `s` that pass `p`. */
  function LeadingRun(p: char -> bool, s: string): (n: nat)
    ensures n <= |s| && AllPass(p, s[..n])
    ensures n == |s| || !p(s[n])
    decreases |s|
  {
    if |s| > 0 && p(s[0]) then
      var m := LeadingRun(p, s[1..]);
      assert s[..m + 1][1..] == s[1..][..m];
      m + 1
    else 0
  }

  /** The number of trailing characters of `s` at or after index `lo` that pass `p`. */
  function TrailingRun(p: char -> bool, s: string, lo: nat): (n: nat)
    requires lo <= |s|
    ensures n <= |s| - lo && AllPass(p, s[|s| - n..])
    ensures n == |s| - lo || !p(s[|s| - n - 1])
    decreases |s|
  {
    if |s| > lo && p(s[|s| - 1]) then
      var u := s[..|s| - 1];
      var m := TrailingRun(p, u, lo);
      assert s[|s| - (m + 1)..] == u[|u| - m..] + [s[|s| - 1]];
      AllPassAppend(p, u[|u| - m..], [s[|s| - 1]]);
      m + 1
    else 0
  }

  /** A leading run of passing characters never exceeds what LeadingRun counts. */
  lemma {:induction false} LeadingRunIsLongest(p: char -> bool, s: string, k: nat)
    requires k <= |s| && AllPass(p, s[..k])
    ensures k <= LeadingRun(p, s)
    decreases k
  {
    if k > 0 {
      assert s[..k][1..] == s[1..][..k - 1];
      LeadingRunIsLongest(p, s[1..], k - 1);
    }
  }

  /** LeadingRun stops at the first character that fails `p`. */
  lemma {:induction false} LeadingRunStopsAt(p: char -> bool, s: string, k: nat)
    requires k < |s| && !p(s[k])
    ensures LeadingRun(p, s) <= k
    decreases k
  {
    if k > 0 && p(s[0]) {
      LeadingRunStopsAt(p, s[1..], k - 1);
    }
  }

  /** `r` is the slice of `s` at offset `i`, and everything of `s` around it passes `p`. */
  predicate CutFrom(p: char -> bool, s: string, r: string, i: int) {
    && 0 <= i <= |s| - |r| && r == s[i..i + |r|]
    && AllPass(p, s[..i]) && AllPass(p, s[i + |r|..])
  }

  /** `s` with both ends stripped of the characters that pass `p`. */
  function Strip(p: char -> bool, s: string): (r: string)
    ensures |r| <= |s|
    ensures CutFrom(p, s, r, LeadingRun(p, s))
    ensures |r| == 0 || (!p(r[0]) && !p(r[|r| - 1]))
  {
    var i := LeadingRun(p, s);
    var j := TrailingRun(p, s, i);
    assert |s[i..|s| - j]| == |s| - j - i;
    s[i..|s| - j]
  }

  /** Stripping removes a last character that passes `p`, so the result is strictly shorter. */
  lemma StripDropsLast(p: char -> bool, s: string)
    requires |s| > 0 && p(s[|s| - 1])
    ensures |Strip(p, s)| < |s|
  {
    var i := LeadingRun(p, s);
    if i < |s| {
      assert TrailingRun(p, s, i) == TrailingRun(p, s[..|s| - 1], i) + 1;
    }
  }

  /** A string whose ends do not pass `p` is left as it is. */
  lemma StripOfUnpadded(p: char -> bool, s: string)
    requires |s| == 0 || (!p(s[0]) && !p(s[|s| - 1]))
    ensures Strip(p, s) == s
  {
  }

  /**
    `s.trim()` in JavaScript, `s.strip()` in Python: the slice of `s` that
    neither starts nor ends with the runtime's whitespace, everything cut
    off being whitespace.
   */
  function Trim(rt: Runtime, s: string): (r: string)
    ensures |r| <= |s|
    ensures CutFrom(Spaces(rt), s, r, LeadingRun(Spaces(rt), s))
    ensures |r| == 0 || (!IsSpace(rt, r[0]) && !IsSpace(rt, r[|r| - 1]))
  {
    Strip(Spaces(rt), s)
  }

  /** Trimming removes a trailing space, so a name ending in ' ' gets strictly shorter. */
  lemma TrimDropsTrailingSpace(rt: Runtime, s: string)
    requires |s| > 0 && s[|s| - 1] == ' '
    ensures |Trim(rt, s)| < |s|
  {
    assert Spaces(rt)(s[|s| - 1]);
    StripDropsLast(Spaces(rt), s);
  }

  /** Python's str.strip() and JavaScript's trim() both leave a string without whitespace at its ends alone. */
  lemma TrimOfUntrimmed(rt: Runtime, s: string)
    requires |s| == 0 || (!IsSpace(rt, s[0]) && !IsSpace(rt, s[|s| - 1]))
    ensures Trim(rt, s) == s
  {
    StripOfUnpadded(Spaces(rt), s);
  }

  /** Trimming leaves nothing exactly when the string is whitespace through and through. */
  lemma TrimEmptyIffBlank(rt: Runtime, s: string)
    ensures Trim(rt, s) == "" <==> AllPass(Spaces(rt), s)
  {
    var p := Spaces(rt);
    var i := LeadingRun(p, s);
    assert s == s[..i] + s[i..];
    AllPassAppend(p, s[..i], s[i..]);
    if AllPass(p, s) {
      assert s[..|s|] == s;
      LeadingRunIsLongest(p, s, |s|);
    }
  }

  /** JavaScript's `length`: UTF-16 code units, two for a character beyond the Basic Multilingual Plane. */
  function Utf16Length(s: string): (n: nat)
    ensures |s| <= n <= 2 * |s|
    decreases |s|
  {
    if |s| == 0 then 0 else Utf16Length(s[..|s| - 1]) + (if s[|s| - 1] as int > 0xFFFF then 2 else 1)
  }

  lemma {:induction false} Utf16LengthAppend(a: string, b: string)
    ensures Utf16Length(a + b) == Utf16Length(a) + Utf16Length(b)
    decreases |b|
  {
    if |b| == 0 {
      assert a + b == a;
    } else {
      var b' := b[..|b| - 1];
      assert (a + b)[..|a + b| - 1] == a + b';
      assert (a + b)[|a + b| - 1] == b[|b| - 1];
      Utf16LengthAppend(a, b');
    }
  }

  /**
    A part is never longer than the whole in UTF-16 units, and is as long
    only when nothing surrounds it.
   */
  lemma Utf16LengthOfPart(a: string, t: string, b: string)
    ensures Utf16Length(t) <= Utf16Length(a + t + b)
    ensures Utf16Length(t) == Utf16Length(a + t + b) <==> |a| == 0 && |b| == 0
  {
    Utf16LengthAppend(a, t);
    Utf16LengthAppend(a + t, b);
  }

  /** ASCII case folding of one character; every other character is left alone. */
  function LowerChar(c: char): (d: char)
    ensures 'A' <= c <= 'Z' ==> 'a' <= d <= 'z'
    ensures !('A' <= c <= 'Z') ==> d == c
  {
    if 'A' <= c <= 'Z' then (c as int + 32) as char else c
  }

  /** `toLowerCase()` / `lower()`, restricted to ASCII letters. */
  function Lower(s: string): (r: string)
    ensures |r| == |s|
    ensures forall i :: 0 <= i < |s| ==> r[i] == LowerChar(s[i])
  {
    seq(|s|, i requires 0 <= i < |s| => LowerChar(s[i]))
  }

  /** Substring test: `hay.includes(needle)` in JavaScript, `needle in hay` in Python. */
  predicate Contains<T(==)>(hay: seq<T>, needle: seq<T>)
    decreases |hay|
  {
    needle <= hay || (|hay| > 0 && Contains(hay[1..], needle))
  }

  /** `needle` occurs in `hay` starting at index `i`. */
  predicate OccursAt<T(==)>(hay: seq<T>, needle: seq<T>, i: int) {
    0 <= i <= |hay| - |needle| && hay[i..i + |needle|] == needle
  }

  /** Contains means `needle` occurs at some offset of `hay`. */
  lemma ContainsAt<T>(hay: seq<T>, needle: seq<T>)
    ensures Contains(hay, needle) <==> exists i :: OccursAt(hay, needle, i)
  {
    if Contains(hay, needle) {
      var i := ContainsWitness(hay, needle);
    }
    forall i | OccursAt(hay, needle, i)
      ensures Contains(hay, needle)
    {
      ContainsFromOccurrence(hay, needle, i);
    }
  }

  /** Where a contained `needle` occurs. */
  lemma {:induction false} ContainsWitness<T>(hay: seq<T>, needle: seq<T>) returns (i: nat)
    requires Contains(hay, needle)
    ensures OccursAt(hay, needle, i)
    decreases |hay|
  {
    if needle <= hay {
      i := 0;
    } else {
      var j := ContainsWitness(hay[1..], needle);
      assert hay[1..][j..j + |needle|] == hay[j + 1..j + 1 + |needle|];
      i := j + 1;
    }
  }

  /** An occurrence anywhere makes `needle` contained. */
  lemma {:induction false} ContainsFromOccurrence<T>(hay: seq<T>, needle: seq<T>, i: int)
    requires OccursAt(hay, needle, i)
    ensures Contains(hay, needle)
    decreases i
  {
    if i > 0 {
      assert hay[1..][i - 1..i - 1 + |needle|] == hay[i..i + |needle|];
      ContainsFromOccurrence(hay[1..], needle, i - 1);
    }
  }

  /** `s.startsWith(p)` / `s.startswith(p)`. */
  predicate StartsWith(s: string, p: string) {
    p <= s
  }

  /**
    Python's `<` on strings: code-point lexicographic order, a proper prefix
    coming first.
   */
  predicate StrLess(a: string, b: string)
    decreases |a|
  {
    if |a| == 0 then |b| > 0
    else if |b| == 0 then false
    else if a[0] != b[0] then a[0] < b[0]
    else StrLess(a[1..], b[1..])
  }

  lemma {:induction false} StrLessIrreflexive(a: string)
    ensures !StrLess(a, a)
    decreases |a|
  {
    if |a| > 0 { StrLessIrreflexive(a[1..]); }
  }

  lemma {:induction false} StrLessTransitive(a: string, b: string, c: string)
    requires StrLess(a, b) && StrLess(b, c)
    ensures StrLess(a, c)
    decreases |a|
  {
    if |a| > 0 && |b| > 0 && |c| > 0 && a[0] == b[0] && b[0] == c[0] {
      StrLessTransitive(a[1..], b[1..], c[1..]);
    }
  }

  /** Any two different strings are ordered one way or the other. */
  lemma {:induction false} StrLessTotal(a: string, b: string)
    ensures a == b || StrLess(a, b) || StrLess(b, a)
    decreases |a|
  {
    if |a| > 0 && |b| > 0 && a[0] == b[0] {
      StrLessTotal(a[1..], b[1..]);
      if a[1..] == b[1..] { assert a == [a[0]] + a[1..] && b == [b[0]] + b[1..]; }
    }
  }

  predicate IsDigit(c: char) {
    '0' <= c <= '9'
  }

  predicate AllDigits(s: string) {
    forall i :: 0 <= i < |s| ==> IsDigit(s[i])
  }

  /** Length of the longest run of decimal digits at the start of `s` (what a greedy `\d+` consumes). */
  function DigitRun(s: string): (n: nat)
    ensures n <= |s|
    ensures AllDigits(s[..n])
    ensures n == |s| || !IsDigit(s[n])
  {
    if |s| > 0 && IsDigit(s[0]) then
      var n := 1 + DigitRun(s[1..]);
      assert s[..n] == [s[0]] + s[1..][..n - 1];
      n
    else 0
  }

  /** A leading run of digits never exceeds what DigitRun counts: `\d+` is greedy. */
  lemma {:induction false} DigitRunIsLongest(s: string, k: nat)
    requires k <= |s| && AllDigits(s[..k])
    ensures k <= DigitRun(s)
    decreases k
  {
    if k > 0 {
      assert s[0] == s[..k][0];
      assert s[1..][..k - 1] == s[..k][1..];
      DigitRunIsLongest(s[1..], k - 1);
    }
  }

  /** The decimal digit for 0..9. */
  function DigitChar(d: nat): (c: char)
    requires d < 10
    ensures IsDigit(c)
  {
    ('0' as int + d) as char
  }

  /** The value of a string of decimal digits, as Python's `int()` reads it: leading zeros count for nothing. */
  function DecimalValue(s: string): (n: nat)
    requires AllDigits(s)
  {
    if |s| == 0 then 0
    else DecimalValue(s[..|s| - 1]) * 10 + (s[|s| - 1] as int - '0' as int)
  }

  /** The decimal numeral of `n` without leading zeros, as f-strings and template literals print it. */
  function NatToString(n: nat): (r: string)
    ensures |r| > 0 && AllDigits(r)
    ensures r[0] == '0' ==> n == 0 && r == "0"
  {
    if n < 10 then [DigitChar(n)] else NatToString(n / 10) + [DigitChar(n % 10)]
  }

  /** Printing a number and reading it back gives the number. */
  lemma {:induction false} DecimalValueOfNatToString(n: nat)
    ensures DecimalValue(NatToString(n)) == n
    decreases n
  {
    if n >= 10 {
      DecimalValueOfNatToString(n / 10);
      var s := NatToString(n);
      assert s[..|s| - 1] == NatToString(n / 10);
    }
  }

  /** A leading zero does not change the value: `int("007") == int("7")`. */
  lemma {:induction false} DecimalValueLeadingZero(s: string)
    requires AllDigits(s)
    ensures AllDigits("0" + s) && DecimalValue("0" + s) == DecimalValue(s)
    decreases |s|
  {
    if |s| > 0 {
      DecimalValueLeadingZero(s[..|s| - 1]);
      assert ("0" + s)[..|s|] == "0" + s[..|s| - 1];
    }
  }

  /**
    Python's `s.split(sep)` for a one-character separator: the pieces
    between separators, empty ones included, so there is always at least one.
   */
  function Split(s: string, sep: char): (pieces: seq<string>)
    ensures |pieces| >= 1
    ensures forall i :: 0 <= i < |pieces| ==> sep !in pieces[i]
    decreases |s|
  {
    if |s| == 0 then [""]
    else
      var rest := Split(s[1..], sep);
      if s[0] == sep then [""] + rest
      else [[s[0]] + rest[0]] + rest[1..]
  }

  /** `sep.join(pieces)`. */
  function Join(pieces: seq<string>, sep: char): (s: string)
    requires |pieces| >= 1
    decreases |pieces|
  {
    if |pieces| == 1 then pieces[0] else pieces[0] + [sep] + Join(pieces[1..], sep)
  }

  /** Joining the pieces with the separator gives back the string that was split. */
  lemma {:induction false} JoinSplit(s: string, sep: char)
    ensures Join(Split(s, sep), sep) == s
    decreases |s|
  {
    if |s| > 0 {
      var rest := Split(s[1..], sep);
      JoinSplit(s[1..], sep);
      if s[0] != sep {
        var r := Split(s, sep);
        assert r[1..] == rest[1..];
        if |rest| > 1 {
          assert Join(rest, sep) == rest[0] + [sep] + Join(rest[1..], sep);
        }
      } else {
        assert Split(s, sep)[1..] == rest;
      }
    }
  }

  /** A piece without the separator, followed by the separator, splits off as the first piece. */
  lemma {:induction false} SplitAfterPiece(a: string, sep: char, t: string)
    requires sep !in a
    ensures Split(a + [sep] + t, sep) == [a] + Split(t, sep)
    decreases |a|
  {
    if |a| == 0 {
      assert a + [sep] + t == [sep] + t;
      assert ([sep] + t)[1..] == t;
    } else {
      var s := a + [sep] + t;
      assert s[0] == a[0] && s[1..] == a[1..] + [sep] + t;
      SplitAfterPiece(a[1..], sep, t);
      assert [a[0]] + a[1..] == a;
    }
  }

  /** A string without the separator is one piece. */
  lemma {:induction false} SplitOfPiece(a: string, sep: char)
    requires sep !in a
    ensures Split(a, sep) == [a]
    decreases |a|
  {
    if |a| > 0 {
      SplitOfPiece(a[1..], sep);
      assert [a[0]] + a[1..] == a;
    }
  }

  /** Splitting a join of separator-free pieces gives the pieces back. */
  lemma {:induction false} SplitJoin(pieces: seq<string>, sep: char)
    requires |pieces| >= 1 && forall i :: 0 <= i < |pieces| ==> sep !in pieces[i]
    ensures Split(Join(pieces, sep), sep) == pieces
    decreases |pieces|
  {
    if |pieces| == 1 {
      SplitOfPiece(pieces[0], sep);
    } else {
      SplitJoin(pieces[1..], sep);
      SplitAfterPiece(pieces[0], sep, Join(pieces[1..], sep));
      assert [pieces[0]] + pieces[1..] == pieces;
    }
  }
}
