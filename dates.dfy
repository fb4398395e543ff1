/**
 * Dates in the report parser: the pattern DATE_RE, `\b(\d{1,2}\.\d{1,2}\.\d{4})\b`,
 * and the leftmost search `re.search` performs with it; `parse_date_str`,
 * which hands the first match to `strptime(..., "%d.%m.%Y")`; and the ISO
 * text `date.isoformat()` produces and `strptime(..., "%Y-%m-%d")` reads back.
 *
 * The regex word class \w is taken to be ASCII letters, digits and '_'.
 */
module Dates {
  import opened Wrappers
  import opened Text

  /** A calendar date as datetime.date holds it. */
  datatype Date = Date(year: int, month: int, day: int)

  predicate IsLeapYear(y: int) {
    y % 4 == 0 && (y % 100 != 0 || y % 400 == 0)
  }

  function DaysInMonth(y: int, m: int): (n: int)
    requires 1 <= m <= 12
    ensures 28 <= n <= 31
    ensures n == 29 <==> m == 2 && IsLeapYear(y)
  {
    if m == 2 then (if IsLeapYear(y) then 29 else 28)
    else if m == 4 || m == 6 || m == 9 || m == 11 then 30
    else 31
  }

  /** The dates datetime.date accepts: years MINYEAR 1 to MAXYEAR 9999, Gregorian months. */
  predicate ValidDate(d: Date) {
    1 <= d.year <= 9999 && 1 <= d.month <= 12 && 1 <= d.day <= DaysInMonth(d.year, d.month)
  }

  /** Python's `<` on dates: chronological order. */
  predicate Before(a: Date, b: Date) {
    a.year < b.year || (a.year == b.year && (a.month < b.month || (a.month == b.month && a.day < b.day)))
  }

  /** Python's `<=` on dates. */
  predicate OnOrBefore(a: Date, b: Date) {
    a == b || Before(a, b)
  }

  predicate IsDigit(c: char) {
    '0' <= c <= '9'
  }

  predicate AllDigits(s: string) {
    forall k :: 0 <= k < |s| ==> IsDigit(s[k])
  }

  /** The regex class \w, restricted to ASCII. */
  predicate IsWordChar(c: char) {
    'a' <= c <= 'z' || 'A' <= c <= 'Z' || IsDigit(c) || c == '_'
  }

  function DigitValue(c: char): nat
    requires IsDigit(c)
  {
    c as int - '0' as int
  }

  /** The number a run of decimal digits denotes, as int() reads it. */
  function Value(s: string): nat
    requires AllDigits(s)
  {
    if s == [] then 0 else 10 * Value(s[..|s| - 1]) + DigitValue(s[|s| - 1])
  }

  /**
   * One match of DATE_RE in a string: where it starts and how many digits
   * its day and its month have (one or two each; the year has four).
   */
  datatype Match = Match(start: nat, dayLen: nat, monthLen: nat)

  /** Index just past the match. */
  function MatchEnd(m: Match): nat {
    m.start + m.dayLen + m.monthLen + 6
  }

  /** `m` is a match of DATE_RE in `s`, word boundaries included. */
  predicate IsMatch(s: string, m: Match) {
    && (m.dayLen == 1 || m.dayLen == 2)
    && (m.monthLen == 1 || m.monthLen == 2)
    && MatchEnd(m) <= |s|
    && (m.start == 0 || !IsWordChar(s[m.start - 1]))
    && AllDigits(s[m.start .. m.start + m.dayLen])
    && s[m.start + m.dayLen] == '.'
    && AllDigits(s[m.start + m.dayLen + 1 .. m.start + m.dayLen + 1 + m.monthLen])
    && s[m.start + m.dayLen + 1 + m.monthLen] == '.'
    && AllDigits(s[MatchEnd(m) - 4 .. MatchEnd(m)])
    && (MatchEnd(m) == |s| || !IsWordChar(s[MatchEnd(m)]))
  }

  predicate MatchStartsAt(s: string, i: nat) {
    IsMatch(s, Match(i, 2, 2)) || IsMatch(s, Match(i, 2, 1)) ||
    IsMatch(s, Match(i, 1, 2)) || IsMatch(s, Match(i, 1, 1))
  }

  /** At one start position at most one match exists, so the greedy order of \d{1,2} is immaterial. */
  lemma MatchUnique(s: string, m: Match, m': Match)
    requires IsMatch(s, m) && IsMatch(s, m') && m.start == m'.start
    ensures m == m'
  {
  }

  lemma MatchStarts(s: string, m: Match)
    requires IsMatch(s, m)
    ensures MatchStartsAt(s, m.start)
  {
    assert m == Match(m.start, m.dayLen, m.monthLen);
  }

  /** The regex engine tried at one start: two digits before one, as \d{1,2} is greedy. */
  /** Every character a match covers is a digit or one of its two dots. */
  lemma MatchChar(s: string, m: Match, k: nat)
    requires IsMatch(s, m) && m.start <= k < MatchEnd(m)
    ensures IsDigit(s[k]) || s[k] == '.'
  {
    var d := m.start + m.dayLen;
    var e := d + 1 + m.monthLen;
    if k < d {
      assert s[m.start..d][k - m.start] == s[k];
    } else if d < k < e {
      assert s[d + 1..e][k - d - 1] == s[k];
    } else if e < k {
      assert s[MatchEnd(m) - 4..MatchEnd(m)][k - (MatchEnd(m) - 4)] == s[k];
    }
  }

  /** A match lying inside s[a..b] is a match of that slice too, shifted by a. */
  /** The characters a match covers are all digits and dots. */
  lemma MatchChars(s: string, m: Match)
    requires IsMatch(s, m)
    ensures forall k :: m.start <= k < MatchEnd(m) ==> IsDigit(s[k]) || s[k] == '.'
  {
    forall k | m.start <= k < MatchEnd(m) ensures IsDigit(s[k]) || s[k] == '.' {
      MatchChar(s, m, k);
    }
  }

  lemma SliceOfSlice(s: string, a: nat, b: nat, i: nat, j: nat)
    requires a <= i <= j <= b <= |s|
    ensures s[a..b][i - a..j - a] == s[i..j]
  {
    assert forall k :: 0 <= k < j - i ==> s[a..b][i - a..j - a][k] == s[i..j][k];
  }

  lemma MatchInSlice(s: string, m: Match, a: nat, b: nat)
    requires IsMatch(s, m) && a <= m.start && MatchEnd(m) <= b <= |s|
    ensures IsMatch(s[a..b], Match(m.start - a, m.dayLen, m.monthLen))
  {
    var d := m.start + m.dayLen;
    var e := d + 1 + m.monthLen;
    var f := MatchEnd(m);
    SliceOfSlice(s, a, b, m.start, d);
    SliceOfSlice(s, a, b, d + 1, e);
    SliceOfSlice(s, a, b, f - 4, f);
  }

  /** A match ending by `b` makes the prefix s[..b] carry a date token. */
  lemma TokenInPrefix(s: string, m: Match, b: nat)
    requires IsMatch(s, m) && MatchEnd(m) <= b <= |s|
    ensures HasDateToken(s[..b])
  {
    MatchInSlice(s, m, 0, b);
    assert s[0..b] == s[..b];
    MatchStarts(s[..b], m);
  }

  /** A match starting at or after `a` makes the suffix s[a..] carry a date token. */
  lemma TokenInSuffix(s: string, m: Match, a: nat)
    requires IsMatch(s, m) && a <= m.start
    ensures HasDateToken(s[a..])
  {
    MatchInSlice(s, m, a, |s|);
    assert s[a..|s|] == s[a..];
    MatchStarts(s[a..], Match(m.start - a, m.dayLen, m.monthLen));
  }

  lemma StripWindow(a: string, m: Match)
    requires IsMatch(a, m)
    ensures LeadingSpaces(a) <= m.start && MatchEnd(m) <= LeadingSpaces(a) + |Strip(a)|
    ensures Strip(a) == a[LeadingSpaces(a)..LeadingSpaces(a) + |Strip(a)|]
  {
    MatchChar(a, m, m.start);
    MatchChar(a, m, MatchEnd(m) - 1);
    StripKeeps(a, m.start, MatchEnd(m));
  }

  /** A match inside the window a[l..l + |r|] is a match of `r` when `r` is that window. */
  lemma MatchInWindow(a: string, m: Match, l: nat, r: string)
    requires IsMatch(a, m) && l <= m.start && MatchEnd(m) <= l + |r| <= |a| && r == a[l..l + |r|]
    ensures IsMatch(r, Match(m.start - l, m.dayLen, m.monthLen))
  {
    MatchInSlice(a, m, l, l + |r|);
  }

  /** Stripping the blank edges of a string keeps every match in it, shifted left. */
  lemma MatchSurvivesStrip(a: string, m: Match)
    requires IsMatch(a, m)
    ensures LeadingSpaces(a) <= m.start
    ensures IsMatch(Strip(a), Match(m.start - LeadingSpaces(a), m.dayLen, m.monthLen))
  {
    StripWindow(a, m);
    MatchInWindow(a, m, LeadingSpaces(a), Strip(a));
  }

  function MatchAt(s: string, i: nat): (r: Option<Match>)
    ensures r.Some? ==> r.value.start == i && IsMatch(s, r.value)
    ensures r.None? ==> !MatchStartsAt(s, i)
  {
    if IsMatch(s, Match(i, 2, 2)) then Some(Match(i, 2, 2))
    else if IsMatch(s, Match(i, 2, 1)) then Some(Match(i, 2, 1))
    else if IsMatch(s, Match(i, 1, 2)) then Some(Match(i, 1, 2))
    else if IsMatch(s, Match(i, 1, 1)) then Some(Match(i, 1, 1))
    else None
  }

  function SearchFrom(s: string, i: nat): (r: Option<Match>)
    requires i <= |s|
    ensures r.Some? ==> i <= r.value.start && IsMatch(s, r.value)
    ensures r.Some? ==> forall j :: i <= j < r.value.start ==> !MatchStartsAt(s, j)
    ensures r.None? ==> forall j :: i <= j ==> !MatchStartsAt(s, j)
    decreases |s| - i
  {
    match MatchAt(s, i)
    case Some(m) => Some(m)
    case None =>
      if i == |s| then
        assert forall j :: i < j ==> !MatchStartsAt(s, j);
        None
      else SearchFrom(s, i + 1)
  }

  /** `DATE_RE.search(s)`: the leftmost match, or none when no position starts one. */
  function Search(s: string): (r: Option<Match>)
    ensures r.Some? ==> IsMatch(s, r.value)
    ensures r.Some? ==> forall j :: 0 <= j < r.value.start ==> !MatchStartsAt(s, j)
    ensures r.None? <==> forall j :: !MatchStartsAt(s, j)
  {
    var r := SearchFrom(s, 0);
    if r.Some? then MatchStarts(s, r.value); r else r
  }

  /** The truth value of `DATE_RE.search(s)`. */
  predicate HasDateToken(s: string) {
    Search(s).Some?
  }

  /** Day, month and year as written in a match, before any calendar check. */
  function MatchedDate(s: string, m: Match): Date
    requires IsMatch(s, m)
  {
    Date(Value(s[MatchEnd(m) - 4 .. MatchEnd(m)]),
         Value(s[m.start + m.dayLen + 1 .. m.start + m.dayLen + 1 + m.monthLen]),
         Value(s[m.start .. m.start + m.dayLen]))
  }

  /**
   * `parse_date_str`: the date of the leftmost DATE_RE match, or None when the
   * string is empty, has no match, or that first match is not a calendar date
   * (strptime's %d and %m take one or two digits in 1..31 and 1..12, and
   * datetime.date rejects year 0 and days past the month's end).
   * A later match is never consulted.
   */
  function ParseDateStr(s: string): (r: Option<Date>)
    ensures r.Some? ==> ValidDate(r.value)
    ensures r.Some? <==> HasDateToken(s) && ValidDate(MatchedDate(s, Search(s).value))
    ensures r.Some? ==> r.value == MatchedDate(s, Search(s).value)
  {
    if s == [] then None
    else
      match Search(s)
      case None => None
      case Some(m) =>
        var d := MatchedDate(s, m);
        if ValidDate(d) then Some(d) else None
  }

  /** A five-digit year is no token at all: the word boundary after four digits fails. */
  lemma ParseDateStrFiveDigitYear()
    ensures ParseDateStr("1.2.20255") == None
  {
  }

  /** Day 0, day 32, 29 February of a common year and year 0 are not calendar dates. */
  lemma NotCalendarDates(y: int, m: int, d: int)
    ensures !ValidDate(Date(y, m, 0)) && !ValidDate(Date(y, m, 32))
    ensures !ValidDate(Date(0, m, d))
    ensures !IsLeapYear(y) ==> !ValidDate(Date(y, 2, 29))
  {
  }

  /** Any match makes `DATE_RE.search` succeed. */
  lemma MatchGivesToken(s: string, m: Match)
    requires IsMatch(s, m)
    ensures HasDateToken(s)
  {
    MatchStarts(s, m);
  }

  /** A date parse reads the leftmost match, whichever it is. */
  lemma ParseDateStrLeftmost(s: string, m: Match)
    requires IsMatch(s, m)
    requires forall j :: 0 <= j < m.start ==> !MatchStartsAt(s, j)
    ensures Search(s) == Some(m)
    ensures ParseDateStr(s) == if ValidDate(MatchedDate(s, m)) then Some(MatchedDate(s, m)) else None
  {
    MatchStarts(s, m);
    var r := Search(s).value;
    MatchStarts(s, r);
    MatchUnique(s, r, m);
  }


  /** Decimal digit for 0..9. */
  function DigitChar(n: nat): char
    requires n < 10
  {
    ('0' as int + n) as char
  }

  function Pow10(w: nat): nat {
    if w == 0 then 1 else 10 * Pow10(w - 1)
  }

  /** `n` written with exactly `w` decimal digits, zero-padded on the left (`%0wd`). */
  function Pad(n: nat, w: nat): (r: string)
    ensures |r| == w && AllDigits(r)
  {
    if w == 0 then [] else Pad(n / 10, w - 1) + [DigitChar(n % 10)]
  }

  /** Reading back a padded number gives the number, when it fits the width. */
  lemma {:induction false} PadValue(n: nat, w: nat)
    requires n < Pow10(w)
    ensures Value(Pad(n, w)) == n
  {
    if w > 0 {
      PadValue(n / 10, w - 1);
      var r := Pad(n, w);
      assert r[..|r| - 1] == Pad(n / 10, w - 1);
    }
  }

  /** Writing a digit string's value back at its own width gives the string. */
  lemma {:induction false} ValuePad(s: string)
    requires AllDigits(s)
    ensures Value(s) < Pow10(|s|)
    ensures Pad(Value(s), |s|) == s
  {
    if s != [] {
      var init := s[..|s| - 1];
      ValuePad(init);
      var v := Value(s);
      assert v / 10 == Value(init) && v % 10 == DigitValue(s[|s| - 1]);
      assert s == init + [s[|s| - 1]];
    }
  }

  /** Two numbers that fit the width have the same padded text only when they are equal. */
  lemma PadInjective(n: nat, m: nat, w: nat)
    requires n < Pow10(w) && m < Pow10(w)
    ensures Pad(n, w) == Pad(m, w) <==> n == m
  {
    PadValue(n, w);
    PadValue(m, w);
  }

  lemma DigitCharOrder(x: nat, y: nat)
    requires x < 10 && y < 10
    ensures StrLess([DigitChar(x)], [DigitChar(y)]) <==> x < y
  {
    assert [DigitChar(x)][1..] == [] && [DigitChar(y)][1..] == [];
  }

  /** Fixed-width decimal text compares as str exactly as the numbers compare. */
  lemma {:induction false} PadOrder(n: nat, m: nat, w: nat)
    requires n < Pow10(w) && m < Pow10(w)
    ensures StrLess(Pad(n, w), Pad(m, w)) <==> n < m
  {
    if w == 0 {
      StrLessIrreflexive([]);
    } else {
      var hn, hm := Pad(n / 10, w - 1), Pad(m / 10, w - 1);
      assert Pad(n, w) == hn + [DigitChar(n % 10)];
      assert Pad(m, w) == hm + [DigitChar(m % 10)];
      PadOrder(n / 10, m / 10, w - 1);
      StrLessConcat(hn, [DigitChar(n % 10)], hm, [DigitChar(m % 10)]);
      PadInjective(n / 10, m / 10, w - 1);
      DigitCharOrder(n % 10, m % 10);
      assert n < m <==> n / 10 < m / 10 || (n / 10 == m / 10 && n % 10 < m % 10);
    }
  }

  /** A padded field followed by more text: the field decides, and on a tie the rest. */
  lemma PadThen(n: nat, m: nat, w: nat, q: string, q': string)
    requires n < Pow10(w) && m < Pow10(w)
    ensures StrLess(Pad(n, w) + q, Pad(m, w) + q') <==> n < m || (n == m && StrLess(q, q'))
  {
    StrLessConcat(Pad(n, w), q, Pad(m, w), q');
    PadOrder(n, m, w);
    PadInjective(n, m, w);
  }

  /** A shared separator in front does not change the comparison. */
  lemma DashThen(q: string, q': string)
    ensures StrLess("-" + q, "-" + q') <==> StrLess(q, q')
  {
    StrLessConcat("-", q, "-", q');
    StrLessIrreflexive("-");
  }

  /** The dates `date.isoformat()` can be asked to print, with room for the padding "0000-00-00". */
  predicate InIsoRange(d: Date) {
    0 <= d.year <= 9999 && 0 <= d.month <= 99 && 0 <= d.day <= 99
  }

  /** `re.match(r'\d{4}-\d{2}-\d{2}', s)`: s opens with an ISO-looking date. */
  predicate IsoPrefix(s: string) {
    |s| >= 10 && AllDigits(s[..4]) && s[4] == '-' && AllDigits(s[5..7]) && s[7] == '-' && AllDigits(s[8..10])
  }

  /** `date.isoformat()`: YYYY-MM-DD. */
  function IsoFormat(d: Date): (r: string)
    requires InIsoRange(d)
    ensures |r| == 10 && IsoPrefix(r)
  {
    Pad(d.year, 4) + "-" + Pad(d.month, 2) + "-" + Pad(d.day, 2)
  }

  /**
   * `datetime.strptime(s, "%Y-%m-%d").date()` on a string that opens with an
   * ISO-looking date; None where strptime raises: trailing text ("unconverted
   * data remains"), a month or day out of range, or year 0.
   */
  function IsoParse(s: string): (r: Option<Date>)
    requires IsoPrefix(s)
    ensures r.Some? ==> ValidDate(r.value)
  {
    if |s| != 10 then None
    else
      var d := Date(Value(s[..4]), Value(s[5..7]), Value(s[8..10]));
      if ValidDate(d) then Some(d) else None
  }

  lemma IsoFormatParts(d: Date)
    requires InIsoRange(d)
    ensures IsoFormat(d)[..4] == Pad(d.year, 4)
    ensures IsoFormat(d)[5..7] == Pad(d.month, 2)
    ensures IsoFormat(d)[8..10] == Pad(d.day, 2)
  {
  }

  /** Printing a valid date in ISO form and parsing it back gives the date. */
  lemma IsoRoundTrip(d: Date)
    requires ValidDate(d)
    ensures IsoParse(IsoFormat(d)) == Some(d)
  {
    IsoFormatParts(d);
    PadValue(d.year, 4);
    PadValue(d.month, 2);
    PadValue(d.day, 2);
  }

  /** Whatever IsoParse accepts is exactly the ISO text of the date it returns. */
  lemma IsoParseExact(s: string)
    requires IsoPrefix(s) && IsoParse(s).Some?
    ensures IsoFormat(IsoParse(s).value) == s
  {
    var d := IsoParse(s).value;
    ValuePad(s[..4]);
    ValuePad(s[5..7]);
    ValuePad(s[8..10]);
    IsoFormatParts(d);
    var r := IsoFormat(d);
    assert r == s by {
      assert r[..4] == s[..4] && r[5..7] == s[5..7] && r[8..10] == s[8..10];
      forall k | 0 <= k < 10 ensures r[k] == s[k] {
        if k < 4 { assert r[k] == r[..4][k]; assert s[k] == s[..4][k]; }
        else if 5 <= k < 7 { assert r[k] == r[5..7][k - 5]; assert s[k] == s[5..7][k - 5]; }
        else if 8 <= k { assert r[k] == r[8..10][k - 8]; assert s[k] == s[8..10][k - 8]; }
      }
    }
  }

  /** Comparing ISO texts as str is comparing the dates: why sorting by the text sorts by date. */
  lemma IsoOrder(a: Date, b: Date)
    requires InIsoRange(a) && InIsoRange(b)
    ensures StrLess(IsoFormat(a), IsoFormat(b)) <==> Before(a, b)
  {
    var da, db := Pad(a.day, 2), Pad(b.day, 2);
    var ma, mb := Pad(a.month, 2) + ("-" + da), Pad(b.month, 2) + ("-" + db);
    assert IsoFormat(a) == Pad(a.year, 4) + ("-" + ma);
    assert IsoFormat(b) == Pad(b.year, 4) + ("-" + mb);
    PadThen(a.year, b.year, 4, "-" + ma, "-" + mb);
    DashThen(ma, mb);
    PadThen(a.month, b.month, 2, "-" + da, "-" + db);
    DashThen(da, db);
    PadOrder(a.day, b.day, 2);
  }
}
