/**
 * Line-level text handling of the report parser: Python's str.isspace and
 * str.strip, str.split('|'), the column splitter `split_cols`, the border
 * filter `is_separator`, and Python's ordering of str values.
 *
 * Report files are decoded as Latin-1, so every character is at most U+00FF;
 * IsSpace is exact on that range.
 */
module Text {

  /** Python's str.isspace() on a Latin-1 character. */
  predicate IsSpace(c: char) {
    var n := c as int;
    n == 0x20 || 0x09 <= n <= 0x0D || 0x1C <= n <= 0x1F || n == 0x85 || n == 0xA0
  }

  predicate AllSpace(s: string) {
    forall k :: 0 <= k < |s| ==> IsSpace(s[k])
  }

  /** A trimmed, non-empty cell: what `split_cols` keeps. */
  predicate IsTrimmed(s: string) {
    s != [] && !IsSpace(s[0]) && !IsSpace(s[|s| - 1])
  }

  /** Number of occurrences of `c` in `s` (Python's str.count). */
  function Count(s: string, c: char): nat {
    if s == [] then 0 else (if s[0] == c then 1 else 0) + Count(s[1..], c)
  }

  /** Length of the run of whitespace that opens `s`. */
  function LeadingSpaces(s: string): (n: nat)
    ensures n <= |s|
    ensures forall k :: 0 <= k < n ==> IsSpace(s[k])
    ensures n < |s| ==> !IsSpace(s[n])
  {
    if s == [] || !IsSpace(s[0]) then 0 else 1 + LeadingSpaces(s[1..])
  }

  /** Length of the run of whitespace that closes `s`. */
  function TrailingSpaces(s: string): (n: nat)
    ensures n <= |s|
    ensures forall k :: |s| - n <= k < |s| ==> IsSpace(s[k])
    ensures n < |s| ==> !IsSpace(s[|s| - 1 - n])
  {
    if s == [] || !IsSpace(s[|s| - 1]) then 0 else 1 + TrailingSpaces(s[..|s| - 1])
  }

  /** Python's str.strip() with no argument. */
  function Strip(s: string): (r: string)
    ensures r == [] <==> AllSpace(s)
    ensures r != [] ==> IsTrimmed(r)
    ensures LeadingSpaces(s) + |r| <= |s|
    ensures forall k :: 0 <= k < |r| ==> r[k] == s[LeadingSpaces(s) + k]
    ensures forall k :: LeadingSpaces(s) + |r| <= k < |s| ==> IsSpace(s[k])
  {
    var a := LeadingSpaces(s);
    if a == |s| then []
    else
      var b := |s| - TrailingSpaces(s);
      s[a..b]
  }

  /**
   * Strip removes exactly the surrounding whitespace: whatever trimmed text
   * is wrapped in whitespace on both sides comes back unchanged.
   */
  lemma StripUnwraps(p: string, t: string, q: string)
    requires AllSpace(p) && AllSpace(q)
    requires t == [] || IsTrimmed(t)
    ensures Strip(p + t + q) == t
  {
    if t == [] {
      assert p + t + q == p + q;
      BlankJoin(p, q);
    } else {
      StripAround(p, t, q);
    }
  }

  lemma BlankJoin(p: string, q: string)
    requires AllSpace(p) && AllSpace(q)
    ensures AllSpace(p + q)
  {
    var s := p + q;
    forall k | 0 <= k < |s| ensures IsSpace(s[k]) {
      if k < |p| { assert s[k] == p[k]; } else { assert s[k] == q[k - |p|]; }
    }
  }

  lemma StripAround(p: string, t: string, q: string)
    requires AllSpace(p) && AllSpace(q) && IsTrimmed(t)
    ensures Strip(p + t + q) == t
  {
    var s := p + t + q;
    assert LeadingSpaces(s) == |p| by {
      assert (t + q)[0] == t[0];
      LeadingSpacesOf(p, t + q);
      assert s == p + (t + q);
    }
    assert TrailingSpaces(s) == |q| by {
      assert (p + t)[|p + t| - 1] == t[|t| - 1];
      TrailingSpacesOf(p + t, q);
    }
    StripBetween(s, |p|, |q|);
    MiddleOf(p, t, q);
  }

  lemma StripBetween(s: string, a: nat, n: nat)
    requires a < |s| && LeadingSpaces(s) == a && TrailingSpaces(s) == n
    ensures a < |s| - n && Strip(s) == s[a..|s| - n]
  {
    assert !IsSpace(s[a]);
    assert !IsSpace(s[|s| - 1 - n]);
    StripKeeps(s, a, |s| - n);
    assert a + |Strip(s)| == |s| - n;
  }

  lemma MiddleOf(p: string, t: string, q: string)
    ensures (p + t + q)[|p|..|p + t + q| - |q|] == t
  {
  }

  lemma {:induction false} LeadingSpacesOf(p: string, u: string)
    requires AllSpace(p)
    requires u != [] && !IsSpace(u[0])
    ensures LeadingSpaces(p + u) == |p|
  {
    if p != [] {
      assert (p + u)[1..] == p[1..] + u;
      LeadingSpacesOf(p[1..], u);
    }
  }

  lemma {:induction false} TrailingSpacesOf(u: string, q: string)
    requires AllSpace(q)
    requires u != [] && !IsSpace(u[|u| - 1])
    ensures TrailingSpaces(u + q) == |q|
  {
    if q != [] {
      assert (u + q)[..|u + q| - 1] == u + q[..|q| - 1];
      TrailingSpacesOf(u, q[..|q| - 1]);
    } else {
      assert u + q == u;
    }
  }

  /** Strip cuts only the blank edges: a stretch that opens and closes on non-space survives it. */
  lemma StripKeeps(s: string, i: nat, j: nat)
    requires i < j <= |s| && !IsSpace(s[i]) && !IsSpace(s[j - 1])
    ensures LeadingSpaces(s) <= i && j <= LeadingSpaces(s) + |Strip(s)|
    ensures Strip(s) == s[LeadingSpaces(s)..LeadingSpaces(s) + |Strip(s)|]
  {
    assert !AllSpace(s);
    var l, r := LeadingSpaces(s), Strip(s);
    assert r == s[l..l + |r|];
  }

  /** The border filter `is_separator`: more than 20 dashes, or nothing but whitespace. */
  function IsSeparator(line: string): (r: bool)
    ensures r <==> Count(line, '-') > 20 || AllSpace(line)
  {
    Count(line, '-') > 20 || Strip(line) == []
  }

  /** Parts joined back with '|' between them: the inverse of Split. */
  function Join(parts: seq<string>): string
    requires |parts| >= 1
  {
    if |parts| == 1 then parts[0] else parts[0] + "|" + Join(parts[1..])
  }

  /** Python's str.split('|'): one more part than there are bars, none holding a bar. */
  function Split(s: string): (parts: seq<string>)
    ensures |parts| == Count(s, '|') + 1
    ensures forall k :: 0 <= k < |parts| ==> '|' !in parts[k]
    ensures Join(parts) == s
  {
    if s == [] then [[]]
    else
      var rest := Split(s[1..]);
      if s[0] == '|' then [[]] + rest
      else
        assert |rest| > 1 ==> Join(rest) == rest[0] + "|" + Join(rest[1..]);
        [[s[0]] + rest[0]] + rest[1..]
  }

  lemma {:induction false} SplitNoBar(x: string)
    requires '|' !in x
    ensures Split(x) == [x]
  {
    if x != [] {
      SplitNoBar(x[1..]);
      assert [x[0]] + x[1..] == x;
    }
  }

  lemma {:induction false} SplitFirst(x: string, y: string)
    requires '|' !in x
    ensures Split(x + "|" + y) == [x] + Split(y)
  {
    var s := x + "|" + y;
    if x == [] {
      assert s[1..] == y;
    } else {
      assert s[1..] == x[1..] + "|" + y;
      SplitFirst(x[1..], y);
      assert [x[0]] + x[1..] == x;
    }
  }

  /** Splitting a join of bar-free parts gives the parts back. */
  lemma {:induction false} SplitJoin(parts: seq<string>)
    requires |parts| >= 1
    requires forall k :: 0 <= k < |parts| ==> '|' !in parts[k]
    ensures Split(Join(parts)) == parts
  {
    if |parts| == 1 {
      SplitNoBar(parts[0]);
    } else {
      SplitJoin(parts[1..]);
      SplitFirst(parts[0], Join(parts[1..]));
      assert [parts[0]] + parts[1..] == parts;
    }
  }

  lemma {:induction false} JoinAppend(ps: seq<string>, qs: seq<string>)
    requires |ps| >= 1 && |qs| >= 1
    ensures Join(ps + qs) == Join(ps) + "|" + Join(qs)
  {
    if |ps| == 1 {
      assert (ps + qs)[1..] == qs;
    } else {
      assert (ps + qs)[1..] == ps[1..] + qs;
      JoinAppend(ps[1..], qs);
    }
  }

  /** Splitting at a bar splits the two sides independently. */
  lemma SplitAppend(a: string, b: string)
    ensures Split(a + "|" + b) == Split(a) + Split(b)
  {
    var ps := Split(a) + Split(b);
    JoinAppend(Split(a), Split(b));
    SplitJoin(ps);
  }

  /** The cells kept from split parts: each part stripped, empty results dropped, order kept. */
  function Cells(parts: seq<string>): (cols: seq<string>)
    ensures |cols| <= |parts|
    ensures forall k :: 0 <= k < |cols| ==> IsTrimmed(cols[k])
  {
    if parts == [] then []
    else
      var c := Strip(parts[0]);
      (if c == [] then [] else [c]) + Cells(parts[1..])
  }

  lemma {:induction false} CellsAppend(ps: seq<string>, qs: seq<string>)
    ensures Cells(ps + qs) == Cells(ps) + Cells(qs)
  {
    if ps != [] {
      assert (ps + qs)[1..] == ps[1..] + qs;
      CellsAppend(ps[1..], qs);
    } else {
      assert ps + qs == qs;
    }
  }

  lemma {:induction false} CellsNoBar(parts: seq<string>)
    requires forall k :: 0 <= k < |parts| ==> '|' !in parts[k]
    ensures forall k :: 0 <= k < |Cells(parts)| ==> '|' !in Cells(parts)[k]
  {
    if parts != [] {
      CellsNoBar(parts[1..]);
      var c := Strip(parts[0]);
      assert '|' !in c by {
        forall k | 0 <= k < |c| ensures c[k] != '|' {
          assert c[k] == parts[0][LeadingSpaces(parts[0]) + k];
        }
      }
    }
  }

  /** The column splitter `split_cols`: split on '|', strip every part, drop empty ones. */
  function SplitCols(line: string): (cols: seq<string>)
    ensures |cols| <= Count(line, '|') + 1
    ensures forall k :: 0 <= k < |cols| ==> IsTrimmed(cols[k]) && '|' !in cols[k]
  {
    CellsNoBar(Split(line));
    Cells(Split(line))
  }

  /** Columns keep their left-to-right order: the cells of `a|b` are those of `a` then those of `b`. */
  lemma SplitColsAppend(a: string, b: string)
    ensures SplitCols(a + "|" + b) == SplitCols(a) + SplitCols(b)
  {
    SplitAppend(a, b);
    CellsAppend(Split(a), Split(b));
  }

  /** A bar-free stretch of text is one cell, or none when it is blank. */
  lemma SplitColsNoBar(a: string)
    requires '|' !in a
    ensures SplitCols(a) == if AllSpace(a) then [] else [Strip(a)]
  {
    SplitNoBar(a);
    assert Split(a)[1..] == [];
  }

  /**
   * The shape `| a | |b|`: the bordering bars and the blank cell leave
   * exactly the two trimmed cells, in order, whatever whitespace pads them.
   */
  lemma SplitColsBordered(p: string, a: string, q: string, blank: string, b: string)
    requires AllSpace(p) && AllSpace(q) && AllSpace(blank)
    requires IsTrimmed(a) && IsTrimmed(b) && '|' !in a && '|' !in b
    ensures SplitCols("|" + p + a + q + "|" + blank + "|" + b + "|") == [a, b]
  {
    var rest := blank + "|" + b + "|";
    var cellThenRest := (p + a + q) + "|" + rest;
    BorderedShape(p, a, q, blank, b);
    assert SplitCols(cellThenRest) == [a, b] by {
      SplitColsBlankThenCell(blank, b);
      SplitColsCellThen(p, a, q, rest);
    }
    assert SplitCols("|" + cellThenRest) == [a, b] by {
      SplitColsLeadingBar(cellThenRest);
    }
  }

  lemma BorderedShape(p: string, a: string, q: string, blank: string, b: string)
    ensures "|" + p + a + q + "|" + blank + "|" + b + "|" == "|" + ((p + a + q) + "|" + (blank + "|" + b + "|"))
  {
  }

  /** A bar at the very start of a line adds no column. */
  lemma SplitColsLeadingBar(x: string)
    ensures SplitCols("|" + x) == SplitCols(x)
  {
    var e: string := [];
    assert "|" + x == e + "|" + x;
    SplitColsAppend(e, x);
    SplitColsOfCell(e, e, e);
    assert e + e + e == e;
  }

  /** A padded cell before a bar becomes the first column. */
  lemma SplitColsCellThen(p: string, a: string, q: string, rest: string)
    requires AllSpace(p) && AllSpace(q) && IsTrimmed(a) && '|' !in a
    ensures SplitCols((p + a + q) + "|" + rest) == [a] + SplitCols(rest)
  {
    SplitColsAppend(p + a + q, rest);
    SplitColsOfCell(p, a, q);
  }

  lemma SplitColsBlankThenCell(blank: string, b: string)
    requires AllSpace(blank) && IsTrimmed(b) && '|' !in b
    ensures SplitCols(blank + "|" + b + "|") == [b]
  {
    var e: string := [];
    BlankThenCellShape(blank, b);
    assert SplitCols(e) == [] by {
      SplitColsOfCell(e, e, e);
    }
    assert SplitCols(b + "|" + e) == [b] by {
      SplitColsAppend(b, e);
      SplitColsOfCell(e, b, e);
    }
    assert SplitCols(blank) == [] by {
      SplitColsOfCell(blank, e, e);
    }
    SplitColsAppend(blank, b + "|" + e);
  }

  lemma BlankThenCellShape(blank: string, b: string)
    ensures var e: string := []; blank + "|" + b + "|" == blank + "|" + (b + "|" + e)
    ensures var e: string := []; e + e + e == e && e + b + e == b && blank + e + e == blank
  {
  }

  /** A bar-free text wrapped around one trimmed (or no) cell. */
  lemma SplitColsOfCell(p: string, t: string, q: string)
    requires AllSpace(p) && AllSpace(q) && '|' !in t
    requires t == [] || IsTrimmed(t)
    ensures SplitCols(p + t + q) == if t == [] then [] else [t]
  {
    var a := p + t + q;
    assert '|' !in a by {
      forall k | 0 <= k < |a| ensures a[k] != '|' {
        if k < |p| { assert a[k] == p[k]; }
        else if k < |p| + |t| { assert a[k] == t[k - |p|]; }
        else { assert a[k] == q[k - |p| - |t|]; }
      }
    }
    SplitColsNoBar(a);
    StripUnwraps(p, t, q);
  }

  /** Python's `<` on str: code-point lexicographic order, a proper prefix first. */
  predicate StrLess(a: string, b: string) {
    if a == [] then b != []
    else b != [] && (a[0] < b[0] || (a[0] == b[0] && StrLess(a[1..], b[1..])))
  }

  lemma {:induction false} StrLessIrreflexive(a: string)
    ensures !StrLess(a, a)
  {
    if a != [] { StrLessIrreflexive(a[1..]); }
  }

  lemma {:induction false} StrLessTransitive(a: string, b: string, c: string)
    requires StrLess(a, b) && StrLess(b, c)
    ensures StrLess(a, c)
  {
    if a != [] && a[0] == b[0] && b[0] == c[0] {
      StrLessTransitive(a[1..], b[1..], c[1..]);
    }
  }

  lemma {:induction false} StrLessTotal(a: string, b: string)
    ensures a == b || StrLess(a, b) || StrLess(b, a)
  {
    if a != [] && b != [] && a[0] == b[0] {
      StrLessTotal(a[1..], b[1..]);
      if a[1..] == b[1..] {
        assert a == [a[0]] + a[1..] && b == [b[0]] + b[1..];
      }
    }
  }

  lemma StrLessAsymmetric(a: string, b: string)
    requires StrLess(a, b)
    ensures !StrLess(b, a)
  {
    if StrLess(b, a) {
      StrLessTransitive(a, b, a);
      StrLessIrreflexive(a);
    }
  }

  /** Comparing two concatenations whose first halves have equal length. */
  lemma {:induction false} StrLessConcat(p: string, q: string, p': string, q': string)
    requires |p| == |p'|
    ensures StrLess(p + q, p' + q') <==> StrLess(p, p') || (p == p' && StrLess(q, q'))
  {
    if p != [] {
      assert (p + q)[1..] == p[1..] + q;
      assert (p' + q')[1..] == p'[1..] + q';
      StrLessConcat(p[1..], q, p'[1..], q');
      if p[0] == p'[0] && p[1..] == p'[1..] {
        assert p == [p[0]] + p[1..] && p' == [p'[0]] + p'[1..];
      }
    } else {
      assert p + q == q && p' + q' == q';
    }
  }
}
