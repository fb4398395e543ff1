/**
 * The two report parsers, `parse_reservas_file` and `parse_requisicoes_file`,
 * from the point where the file's lines are in hand. Each line that contains
 * '|', is not a border line and carries a DATE_RE match is split into
 * columns; an anchor column holding a date is chosen and the card's fields
 * are read at fixed offsets from it (an empty string past the last column).
 * The cards are then sorted newest first by their ISO date text, cards
 * without a date last, and the first 200 are kept.
 */
module Reports {
  import opened Wrappers
  import opened Text
  import opened Dates
  import opened Sorting

  /** Both parsers return at most this many cards. */
  const MaxCards: nat := 200

  /** Sort key standing in for a missing ISO date; below every real one. */
  const NoDateKey: string := "0000-00-00"

  /** A reservation card, keyed as the JSON the service returns. */
  datatype Reservation = Reservation(
    dataNec: string,
    dataNecDate: Option<string>,
    material: string,
    descricao: string,
    quantidade: string,
    um: string,
    usuario: string,
    reserva: string,
    raw: string)

  /** A requisition card, keyed as the JSON the service returns. */
  datatype Requisition = Requisition(
    dataRem: string,
    dataRemDate: Option<string>,
    material: string,
    descricao: string,
    quantidade: string,
    um: string,
    pedido: string,
    raw: string)

  /** The local helper `get(i)`: column i, or "" past the last column. */
  function Get(cols: seq<string>, i: nat): string {
    if i < |cols| then cols[i] else ""
  }

  /**
   * The ISO field of a card: the ISO text of the date `parse_date_str` finds
   * in the cell, None when it finds none; strptime("%Y-%m-%d") reads that
   * text back as the same date.
   */
  function IsoDateOf(cell: string): (r: Option<string>)
    ensures r.Some? <==> ParseDateStr(cell).Some?
    ensures r.Some? ==> IsoPrefix(r.value) && IsoParse(r.value) == ParseDateStr(cell)
  {
    match ParseDateStr(cell)
    case None => None
    case Some(d) =>
      IsoRoundTrip(d);
      Some(IsoFormat(d))
  }

  function PositionsFrom(cols: seq<string>, i: nat): (ps: seq<nat>)
    requires i <= |cols|
    ensures forall k :: 0 <= k < |ps| ==> i <= ps[k] < |cols| && HasDateToken(cols[ps[k]])
    decreases |cols| - i
  {
    if i == |cols| then []
    else
      var rest := PositionsFrom(cols, i + 1);
      if HasDateToken(cols[i]) then [i] + rest else rest
  }

  /** No date-bearing column from `i` on is missed. */
  lemma {:induction false} PositionsFromComplete(cols: seq<string>, i: nat)
    requires i <= |cols|
    ensures forall j :: i <= j < |cols| && HasDateToken(cols[j]) ==> j in PositionsFrom(cols, i)
    decreases |cols| - i
  {
    if i < |cols| {
      var ps, rest := PositionsFrom(cols, i), PositionsFrom(cols, i + 1);
      PositionsFromComplete(cols, i + 1);
      if HasDateToken(cols[i]) {
        assert ps == [i] + rest;
        assert ps[0] == i;
      } else {
        assert ps == rest;
      }
    }
  }

  /** The positions come in increasing column order. */
  lemma {:induction false} PositionsFromIncreasing(cols: seq<string>, i: nat)
    requires i <= |cols|
    ensures forall k, l :: 0 <= k < l < |PositionsFrom(cols, i)| ==> PositionsFrom(cols, i)[k] < PositionsFrom(cols, i)[l]
    decreases |cols| - i
  {
    if i < |cols| {
      var ps, rest := PositionsFrom(cols, i), PositionsFrom(cols, i + 1);
      PositionsFromIncreasing(cols, i + 1);
      if HasDateToken(cols[i]) {
        assert ps == [i] + rest;
        ConsIncreasing(i, rest);
      } else {
        assert ps == rest;
      }
    }
  }

  lemma ConsIncreasing(i: nat, rest: seq<nat>)
    requires forall k :: 0 <= k < |rest| ==> i < rest[k]
    requires forall k, l :: 0 <= k < l < |rest| ==> rest[k] < rest[l]
    ensures forall k, l :: 0 <= k < l < |[i] + rest| ==> ([i] + rest)[k] < ([i] + rest)[l]
  {
    var ps := [i] + rest;
    forall k, l | 0 <= k < l < |ps| ensures ps[k] < ps[l] {
      assert ps[l] == rest[l - 1];
      if k > 0 {
        assert ps[k] == rest[k - 1];
      }
    }
  }

  /** The positions of all columns in which DATE_RE finds a date, increasing (`date_positions`). */
  function DatePositions(cols: seq<string>): (ps: seq<nat>)
    ensures forall k :: 0 <= k < |ps| ==> ps[k] < |cols| && HasDateToken(cols[ps[k]])
    ensures forall j :: 0 <= j < |cols| && HasDateToken(cols[j]) ==> j in ps
    ensures forall k, l :: 0 <= k < l < |ps| ==> ps[k] < ps[l]
  {
    PositionsFromComplete(cols, 0);
    PositionsFromIncreasing(cols, 0);
    PositionsFrom(cols, 0)
  }

  /** The first date-bearing column is the first of DatePositions. */
  lemma FirstDatePosition(cols: seq<string>, k: nat)
    requires k < |cols| && HasDateToken(cols[k])
    requires forall j :: 0 <= j < k ==> !HasDateToken(cols[j])
    ensures DatePositions(cols) != [] && DatePositions(cols)[0] == k
  {
    var ps := DatePositions(cols);
    assert k in ps;
    assert ps[0] >= k;
  }

  /** With date-bearing columns k1 < k2 and none other before k2, DatePositions starts [k1, k2]. */
  lemma SecondDatePosition(cols: seq<string>, k1: nat, k2: nat)
    requires k1 < k2 < |cols| && HasDateToken(cols[k1]) && HasDateToken(cols[k2])
    requires forall j :: 0 <= j < k2 && j != k1 ==> !HasDateToken(cols[j])
    ensures |DatePositions(cols)| >= 2 && DatePositions(cols)[0] == k1 && DatePositions(cols)[1] == k2
  {
    var ps := DatePositions(cols);
    FirstDatePosition(cols, k1);
    assert k2 in ps;
    var n :| 0 <= n < |ps| && ps[n] == k2;
    assert n >= 1;
    assert k1 < ps[1] && HasDateToken(cols[ps[1]]);
  }

  lemma {:induction false} PositionsFromOnly(cols: seq<string>, k: nat, i: nat)
    requires i <= |cols| && k < |cols|
    requires forall j :: 0 <= j < |cols| && j != k ==> !HasDateToken(cols[j])
    requires HasDateToken(cols[k])
    ensures PositionsFrom(cols, i) == if i <= k then [k] else []
    decreases |cols| - i
  {
    if i < |cols| {
      PositionsFromOnly(cols, k, i + 1);
      var rest := PositionsFrom(cols, i + 1);
      if i == k {
        assert PositionsFrom(cols, i) == [k] + rest;
        assert [k] + rest == [k];
      } else {
        assert !HasDateToken(cols[i]);
        assert PositionsFrom(cols, i) == rest;
      }
    }
  }

  /** With a single date-bearing column k, DatePositions is [k]. */
  lemma OnlyDatePosition(cols: seq<string>, k: nat)
    requires k < |cols| && HasDateToken(cols[k])
    requires forall j :: 0 <= j < |cols| && j != k ==> !HasDateToken(cols[j])
    ensures DatePositions(cols) == [k]
  {
    PositionsFromOnly(cols, k, 0);
  }

  /**
   * The scan for `date_idx`: the columns are tried left to right and the
   * first one holding a DATE_RE match is taken; None when no column holds one.
   */
  method FirstDateCol(cols: seq<string>) returns (dateIdx: Option<nat>)
    ensures dateIdx.Some? ==> dateIdx.value < |cols| && HasDateToken(cols[dateIdx.value])
    ensures dateIdx.Some? ==> forall j :: 0 <= j < dateIdx.value ==> !HasDateToken(cols[j])
    ensures dateIdx.None? ==> forall j :: 0 <= j < |cols| ==> !HasDateToken(cols[j])
  {
    for i := 0 to |cols|
      invariant forall j :: 0 <= j < i ==> !HasDateToken(cols[j])
    {
      if HasDateToken(cols[i]) {
        return Some(i);
      }
    }
    return None;
  }

  /** The three filters every line must pass before it is split. */
  predicate CandidateLine(raw: string) {
    '|' in raw && !IsSeparator(raw) && HasDateToken(raw)
  }

  /** A date token in a bar-free stretch of a line survives the strip into its cell. */
  lemma DateInPiece(a: string)
    requires HasDateToken(a) && '|' !in a
    ensures SplitCols(a) == [Strip(a)] && HasDateToken(Strip(a))
  {
    var m := Search(a).value;
    MatchSurvivesStrip(a, m);
    MatchGivesToken(Strip(a), Match(m.start - LeadingSpaces(a), m.dayLen, m.monthLen));
    MatchChar(a, m, m.start);
    SplitColsNoBar(a);
  }

  /** Cutting a line at a bar leaves its date token whole on one side. */
  lemma TokenBesideBar(raw: string, j: nat)
    requires HasDateToken(raw) && j < |raw| && raw[j] == '|'
    ensures HasDateToken(raw[..j]) || HasDateToken(raw[j + 1..])
  {
    var m := Search(raw).value;
    MatchChars(raw, m);
    if MatchEnd(m) <= j {
      TokenInPrefix(raw, m, j);
    } else {
      TokenInSuffix(raw, m, j + 1);
    }
  }

  /** A line carrying a date token has a cell carrying one. */
  lemma {:induction false} DateInSomeCell(raw: string)
    requires HasDateToken(raw)
    ensures exists k :: 0 <= k < |SplitCols(raw)| && HasDateToken(SplitCols(raw)[k])
    decreases |raw|
  {
    if '|' !in raw {
      DateInPiece(raw);
      assert HasDateToken(SplitCols(raw)[0]);
    } else {
      var j :| 0 <= j < |raw| && raw[j] == '|';
      var a, b := raw[..j], raw[j + 1..];
      assert SplitCols(raw) == SplitCols(a) + SplitCols(b) by {
        assert raw == a + "|" + b;
        SplitColsAppend(a, b);
      }
      TokenBesideBar(raw, j);
      if HasDateToken(a) {
        DateInSomeCell(a);
        var k :| 0 <= k < |SplitCols(a)| && HasDateToken(SplitCols(a)[k]);
        assert SplitCols(raw)[k] == SplitCols(a)[k];
      } else {
        DateInSomeCell(b);
        var k :| 0 <= k < |SplitCols(b)| && HasDateToken(SplitCols(b)[k]);
        assert SplitCols(raw)[|SplitCols(a)| + k] == SplitCols(b)[k];
      }
    }
  }

  /** Every line that passes the three filters yields a date-bearing column. */
  lemma CandidateHasDatePosition(raw: string)
    requires CandidateLine(raw)
    ensures SplitCols(raw) != [] && DatePositions(SplitCols(raw)) != []
  {
    DateInSomeCell(raw);
    var k :| 0 <= k < |SplitCols(raw)| && HasDateToken(SplitCols(raw)[k]);
    assert k in DatePositions(SplitCols(raw));
  }

  /** The card built from `cols`, anchored at the reservation's need-date column `k`. */
  function ReservationAt(raw: string, cols: seq<string>, k: nat): Reservation {
    var dataStr := Get(cols, k);
    Reservation(dataStr, IsoDateOf(dataStr), Get(cols, k + 1), Get(cols, k + 2), Get(cols, k + 3),
                Get(cols, k + 4), Get(cols, k + 5), Get(cols, k + 6), Strip(raw))
  }

  /** What one pass of the reservation loop makes of a line: a card, or nothing (`continue`). */
  function ReservationOf(raw: string): Option<Reservation> {
    if !CandidateLine(raw) then None
    else
      var cols := SplitCols(raw);
      if cols == [] then None
      else
        var ps := DatePositions(cols);
        if ps == [] then None else Some(ReservationAt(raw, cols, ps[0]))
  }

  /** The anchor of a requisition: the second date-bearing column if there is one, else the first. */
  function RemittanceIndex(ps: seq<nat>): nat
    requires ps != []
  {
    if |ps| >= 2 then ps[1] else ps[0]
  }

  /** The card built from `cols`, anchored at the requisition's remittance-date column `k`. */
  function RequisitionAt(raw: string, cols: seq<string>, k: nat): Requisition {
    var dataRemStr := Get(cols, k);
    Requisition(dataRemStr, IsoDateOf(dataRemStr), Get(cols, k + 1), Get(cols, k + 2), Get(cols, k + 3),
                Get(cols, k + 4), if |cols| > k + 6 then Get(cols, k + 6) else "", Strip(raw))
  }

  /** The order-number column is read with `get` like the others. */
  lemma RequisitionAtFields(raw: string, cols: seq<string>, k: nat)
    ensures RequisitionAt(raw, cols, k) ==
      Requisition(Get(cols, k), IsoDateOf(Get(cols, k)), Get(cols, k + 1), Get(cols, k + 2), Get(cols, k + 3),
                  Get(cols, k + 4), Get(cols, k + 6), Strip(raw))
  {
  }

  /** What one pass of the requisition loop makes of a line: a card, or nothing (`continue`). */
  function RequisitionOf(raw: string): Option<Requisition> {
    if !CandidateLine(raw) then None
    else
      var cols := SplitCols(raw);
      if cols == [] then None
      else
        var ps := DatePositions(cols);
        if ps == [] then None else Some(RequisitionAt(raw, cols, RemittanceIndex(ps)))
  }

  /** The cards `card` makes of `lines`, in line order; a line it rejects adds nothing. */
  function Collect<T>(lines: seq<string>, card: string -> Option<T>): seq<T> {
    if lines == [] then []
    else
      var last := card(lines[|lines| - 1]);
      Collect(lines[..|lines| - 1], card) + (if last.Some? then [last.value] else [])
  }

  /** `sort_key`: the ISO need-date, or "0000-00-00" when it is None. */
  function ReservationKey(c: Reservation): string {
    if c.dataNecDate.Some? then c.dataNecDate.value else NoDateKey
  }

  /** The requisition sort key: the ISO removal date, or the padding when it is missing or empty (Python's `or`). */
  function RequisitionKey(c: Requisition): string {
    if c.dataRemDate.None? || c.dataRemDate.value == "" then NoDateKey else c.dataRemDate.value
  }

  /** The first 200 cards, or all of them when there are fewer. */
  function Capped<T>(s: seq<T>): seq<T> {
    if |s| <= MaxCards then s else s[..MaxCards]
  }

  /** One pass of the reservation loop: the card `raw` yields, or None where the loop does `continue`. */
  method ReadReservationLine(raw: string) returns (card: Option<Reservation>)
    ensures card == ReservationOf(raw)
  {
    card := None;
    if '|' in raw && !IsSeparator(raw) && HasDateToken(raw) {
      var cols := SplitCols(raw);
      if cols != [] {
        var dateIdx := FirstDateCol(cols);
        if dateIdx.Some? {
          FirstDatePosition(cols, dateIdx.value);
          card := Some(ReservationAt(raw, cols, dateIdx.value));
        }
      }
    }
  }

  /** One pass of the requisition loop: the card `raw` yields, or None where the loop does `continue`. */
  method ReadRequisitionLine(raw: string) returns (card: Option<Requisition>)
    ensures card == RequisitionOf(raw)
  {
    card := None;
    if '|' in raw && !IsSeparator(raw) && HasDateToken(raw) {
      var cols := SplitCols(raw);
      if cols != [] {
        var dateIdx := FirstDateCol(cols);
        if dateIdx.Some? {
          FirstDatePosition(cols, dateIdx.value);
          var positions := DatePositions(cols);
          var dataRemIdx: Option<nat> :=
            if |positions| >= 2 then Some(positions[1])
            else if positions != [] then Some(positions[0])
            else None;
          if dataRemIdx.Some? {
            card := Some(RequisitionAt(raw, cols, dataRemIdx.value));
          }
        }
      }
    }
  }

  /**
   * `parse_reservas_file` after the file is read: the per-line loop, the
   * descending sort by `sort_key` and the cap at 200.
   */
  method ParseReservationsFile(lines: seq<string>) returns (cards: seq<Reservation>)
    ensures cards == Capped(SortDesc(Collect(lines, ReservationOf), ReservationKey))
  {
    cards := [];
    for i := 0 to |lines|
      invariant cards == Collect(lines[..i], ReservationOf)
    {
      assert lines[..i + 1][..i] == lines[..i];
      var card := ReadReservationLine(lines[i]);
      if card.Some? {
        cards := cards + [card.value];
      }
    }
    assert lines[..|lines|] == lines;
    cards := SortDesc(cards, ReservationKey);
    cards := Capped(cards);
  }

  /**
   * `parse_requisicoes_file` after the file is read: the per-line loop, the
   * descending sort by ISO removal date (padding when absent) and the cap at 200.
   */
  method ParseRequisitionsFile(lines: seq<string>) returns (cards: seq<Requisition>)
    ensures cards == Capped(SortDesc(Collect(lines, RequisitionOf), RequisitionKey))
  {
    cards := [];
    for i := 0 to |lines|
      invariant cards == Collect(lines[..i], RequisitionOf)
    {
      assert lines[..i + 1][..i] == lines[..i];
      var card := ReadRequisitionLine(lines[i]);
      if card.Some? {
        cards := cards + [card.value];
      }
    }
    assert lines[..|lines|] == lines;
    cards := SortDesc(cards, RequisitionKey);
    cards := Capped(cards);
  }

  /** A line yields a reservation card exactly when it passes the three filters. */
  lemma ReservationOfCandidate(raw: string)
    ensures ReservationOf(raw).Some? <==> CandidateLine(raw)
  {
    if CandidateLine(raw) {
      CandidateHasDatePosition(raw);
    }
  }

  /** A line yields a requisition card exactly when it passes the three filters. */
  lemma RequisitionOfCandidate(raw: string)
    ensures RequisitionOf(raw).Some? <==> CandidateLine(raw)
  {
    if CandidateLine(raw) {
      CandidateHasDatePosition(raw);
    }
  }

  /**
   * A reservation card is read from the leftmost date-bearing column: need
   * date there, then material, description, quantity, unit, user and
   * reservation number in the six columns after it.
   */
  lemma ReservationAnchor(raw: string, k: nat)
    requires CandidateLine(raw)
    requires k < |SplitCols(raw)| && HasDateToken(SplitCols(raw)[k])
    requires forall j :: 0 <= j < k ==> !HasDateToken(SplitCols(raw)[j])
    ensures var cols := SplitCols(raw);
      ReservationOf(raw) == Some(Reservation(cols[k], IsoDateOf(cols[k]), Get(cols, k + 1), Get(cols, k + 2),
                                             Get(cols, k + 3), Get(cols, k + 4), Get(cols, k + 5), Get(cols, k + 6),
                                             Strip(raw)))
  {
    var cols := SplitCols(raw);
    assert DatePositions(cols) != [] && DatePositions(cols)[0] == k by {
      FirstDatePosition(cols, k);
    }
    assert ReservationOf(raw) == Some(ReservationAt(raw, cols, k));
    assert Get(cols, k) == cols[k];
  }

  /**
   * A requisition line with two or more date-bearing columns is read from the
   * second one: removal date there, then material, description, quantity and
   * unit after it, and the order number six columns on ("" when that column
   * does not exist).
   */
  lemma RequisitionAnchorSecond(raw: string, k1: nat, k2: nat)
    requires CandidateLine(raw)
    requires k1 < k2 < |SplitCols(raw)|
    requires HasDateToken(SplitCols(raw)[k1]) && HasDateToken(SplitCols(raw)[k2])
    requires forall j :: 0 <= j < k2 && j != k1 ==> !HasDateToken(SplitCols(raw)[j])
    ensures var cols := SplitCols(raw);
      RequisitionOf(raw) == Some(Requisition(cols[k2], IsoDateOf(cols[k2]), Get(cols, k2 + 1), Get(cols, k2 + 2),
                                             Get(cols, k2 + 3), Get(cols, k2 + 4),
                                             Get(cols, k2 + 6), Strip(raw)))
  {
    var cols := SplitCols(raw);
    assert RemittanceIndex(DatePositions(cols)) == k2 by {
      SecondDatePosition(cols, k1, k2);
    }
    RequisitionAtFields(raw, cols, k2);
  }

  /** A requisition line with a single date-bearing column is read from that column. */
  lemma RequisitionAnchorSingle(raw: string, k: nat)
    requires CandidateLine(raw)
    requires k < |SplitCols(raw)| && HasDateToken(SplitCols(raw)[k])
    requires forall j :: 0 <= j < |SplitCols(raw)| && j != k ==> !HasDateToken(SplitCols(raw)[j])
    ensures var cols := SplitCols(raw);
      RequisitionOf(raw) == Some(Requisition(cols[k], IsoDateOf(cols[k]), Get(cols, k + 1), Get(cols, k + 2),
                                             Get(cols, k + 3), Get(cols, k + 4),
                                             Get(cols, k + 6), Strip(raw)))
  {
    var cols := SplitCols(raw);
    assert RemittanceIndex(DatePositions(cols)) == k by {
      OnlyDatePosition(cols, k);
    }
    RequisitionAtFields(raw, cols, k);
  }

  /** Collecting consecutive stretches of lines concatenates their cards: lines are read one at a time, in order. */
  lemma {:induction false} CollectAppend<T>(a: seq<string>, b: seq<string>, card: string -> Option<T>)
    ensures Collect(a + b, card) == Collect(a, card) + Collect(b, card)
    decreases |b|
  {
    if b != [] {
      var b' := b[..|b| - 1];
      assert (a + b)[..|a + b| - 1] == a + b';
      assert (a + b)[|a + b| - 1] == b[|b| - 1];
      CollectAppend(a, b', card);
    } else {
      assert a + b == a;
    }
  }

  /** Every collected card is the card of one of the lines, and every line's card is collected. */
  lemma {:induction false} CollectMembers<T>(lines: seq<string>, card: string -> Option<T>)
    ensures forall c :: c in Collect(lines, card) <==> exists i :: 0 <= i < |lines| && card(lines[i]) == Some(c)
  {
    if lines != [] {
      var init := lines[..|lines| - 1];
      CollectMembers(init, card);
      assert forall i :: 0 <= i < |init| ==> init[i] == lines[i];
    }
  }

  /** The padding key sorts below the ISO text of every valid date. */
  lemma NoDateKeyBelow(d: Date)
    requires ValidDate(d)
    ensures StrLess(NoDateKey, IsoFormat(d))
  {
    var zero := Date(0, 0, 0);
    assert IsoFormat(zero) == NoDateKey by {
      IsoFormatParts(zero);
    }
    IsoOrder(zero, d);
  }

  /** Sorting and capping keep the first cards of the stable sort, in order, taken from the input. */
  lemma CappedSort<T>(s: seq<T>, key: T -> string)
    ensures var r := Capped(SortDesc(s, key));
      && |r| == (if |s| <= MaxCards then |s| else MaxCards)
      && r == SortDesc(s, key)[..|r|]
      && SortedDesc(r, key)
      && multiset(r) <= multiset(s)
      && forall k :: WithKey(r, key, k) <= WithKey(s, key, k)
  {
    var t := SortDesc(s, key);
    var r := Capped(t);
    SortDescSorted(s, key);
    SortDescPermutes(s, key);
    assert |t| == |s| by {
      assert |multiset(t)| == |multiset(s)|;
    }
    assert t == r + t[|r|..];
    forall k ensures WithKey(r, key, k) <= WithKey(s, key, k) {
      SortDescStable(s, key, k);
      WithKeyPrefix(t, |r|, key, k);
    }
  }

  /**
   * In a sequence sorted by descending key, where each card's key is the ISO
   * text of the date in its cell (the padding when the cell holds no valid
   * date), undated cards come last and dated ones run from newest to oldest.
   */
  lemma NewestFirst<T>(r: seq<T>, key: T -> string, cell: T -> string)
    requires SortedDesc(r, key)
    requires forall c :: c in r ==> key(c) == IsoDateOf(cell(c)).GetOr(NoDateKey)
    ensures forall i, j :: 0 <= i < j < |r| && ParseDateStr(cell(r[i])).None? ==> ParseDateStr(cell(r[j])).None?
    ensures forall i, j :: 0 <= i < j < |r| && ParseDateStr(cell(r[i])).Some? && ParseDateStr(cell(r[j])).Some? ==>
      OnOrBefore(ParseDateStr(cell(r[j])).value, ParseDateStr(cell(r[i])).value)
  {
    forall i, j | 0 <= i < j < |r| && ParseDateStr(cell(r[i])).None?
      ensures ParseDateStr(cell(r[j])).None?
    {
      assert r[i] in r && r[j] in r;
      var v := IsoDateOf(cell(r[j]));
      if v.Some? {
        IsoParseExact(v.value);
        NoDateKeyBelow(ParseDateStr(cell(r[j])).value);
      }
    }
    forall i, j | 0 <= i < j < |r| && ParseDateStr(cell(r[i])).Some? && ParseDateStr(cell(r[j])).Some?
      ensures OnOrBefore(ParseDateStr(cell(r[j])).value, ParseDateStr(cell(r[i])).value)
    {
      assert r[i] in r && r[j] in r;
      var vi, vj := IsoDateOf(cell(r[i])).value, IsoDateOf(cell(r[j])).value;
      IsoParseExact(vi);
      IsoParseExact(vj);
      IsoOrder(ParseDateStr(cell(r[i])).value, ParseDateStr(cell(r[j])).value);
    }
  }

  /** A reservation card's need-date cell carries a date token, and its ISO date is that cell's date. */
  lemma ReservationOfDated(raw: string)
    ensures ReservationOf(raw).Some? ==>
      HasDateToken(ReservationOf(raw).value.dataNec) &&
      ReservationOf(raw).value.dataNecDate == IsoDateOf(ReservationOf(raw).value.dataNec)
  {
  }

  /** A requisition card's removal-date cell carries a date token, and its ISO date is that cell's date. */
  lemma RequisitionOfDated(raw: string)
    ensures RequisitionOf(raw).Some? ==>
      HasDateToken(RequisitionOf(raw).value.dataRem) &&
      RequisitionOf(raw).value.dataRemDate == IsoDateOf(RequisitionOf(raw).value.dataRem)
  {
  }

  /** For a card built by the parser the `or` in the sort key only replaces a missing date: an ISO date is never "". */
  lemma RequisitionKeyOfDated(c: Requisition)
    requires c.dataRemDate == IsoDateOf(c.dataRem)
    ensures RequisitionKey(c) == IsoDateOf(c.dataRem).GetOr(NoDateKey)
  {
    if c.dataRemDate.Some? {
      assert |c.dataRemDate.value| >= 10;
    }
  }

  /** Every card a line yields is sorted by the ISO text of its date, or by the padding when it has none. */
  lemma ReservationKeysOfLines(lines: seq<string>, r: seq<Reservation>)
    requires forall c :: c in r ==> exists i :: 0 <= i < |lines| && ReservationOf(lines[i]) == Some(c)
    ensures forall c :: c in r ==> ReservationKey(c) == IsoDateOf(c.dataNec).GetOr(NoDateKey)
  {
    forall c | c in r ensures ReservationKey(c) == IsoDateOf(c.dataNec).GetOr(NoDateKey) {
      var i :| 0 <= i < |lines| && ReservationOf(lines[i]) == Some(c);
      ReservationKeyOfCard(lines[i], c);
    }
  }

  lemma ReservationKeyOfCard(raw: string, c: Reservation)
    requires ReservationOf(raw) == Some(c)
    ensures ReservationKey(c) == IsoDateOf(c.dataNec).GetOr(NoDateKey)
  {
    ReservationOfDated(raw);
  }

  /**
   * What `parse_reservas_file` returns, whatever the lines: the first
   * min(n, 200) cards of the stable descending sort of the n cards the lines
   * yield, so cards of one date keep their file order; each the card of one
   * of the lines; cards whose need date does not parse come last, the others
   * run from the latest need date to the earliest.
   */
  lemma ReservationsReport(lines: seq<string>)
    ensures var all := Collect(lines, ReservationOf);
      var r := Capped(SortDesc(all, ReservationKey));
      && |r| == (if |all| <= MaxCards then |all| else MaxCards)
      && r == SortDesc(all, ReservationKey)[..|r|]
      && (forall k :: WithKey(r, ReservationKey, k) <= WithKey(all, ReservationKey, k))
      && (forall c :: c in r ==> exists i :: 0 <= i < |lines| && ReservationOf(lines[i]) == Some(c))
      && (forall i, j :: 0 <= i < j < |r| && ParseDateStr(r[i].dataNec).None? ==> ParseDateStr(r[j].dataNec).None?)
      && (forall i, j :: 0 <= i < j < |r| && ParseDateStr(r[i].dataNec).Some? && ParseDateStr(r[j].dataNec).Some? ==>
            OnOrBefore(ParseDateStr(r[j].dataNec).value, ParseDateStr(r[i].dataNec).value))
  {
    var all := Collect(lines, ReservationOf);
    var r := Capped(SortDesc(all, ReservationKey));
    CappedSort(all, ReservationKey);
    CollectMembers(lines, ReservationOf);
    forall c | c in r ensures exists i :: 0 <= i < |lines| && ReservationOf(lines[i]) == Some(c) {
      assert c in multiset(r);
    }
    ReservationKeysOfLines(lines, r);
    NewestFirst(r, ReservationKey, (c: Reservation) => c.dataNec);
  }

  /** Every card a line yields is sorted by the ISO text of its date, or by the padding when it has none. */
  lemma RequisitionKeysOfLines(lines: seq<string>, r: seq<Requisition>)
    requires forall c :: c in r ==> exists i :: 0 <= i < |lines| && RequisitionOf(lines[i]) == Some(c)
    ensures forall c :: c in r ==> RequisitionKey(c) == IsoDateOf(c.dataRem).GetOr(NoDateKey)
  {
    forall c | c in r ensures RequisitionKey(c) == IsoDateOf(c.dataRem).GetOr(NoDateKey) {
      var i :| 0 <= i < |lines| && RequisitionOf(lines[i]) == Some(c);
      RequisitionOfDated(lines[i]);
      RequisitionKeyOfDated(c);
    }
  }

  /**
   * What `parse_requisicoes_file` returns, whatever the lines: the first
   * min(n, 200) cards of the stable descending sort of the n cards the lines
   * yield, so cards of one date keep their file order; each the card of one
   * of the lines; cards whose removal date does not parse come last, the
   * others run from the latest removal date to the earliest.
   */
  lemma RequisitionsReport(lines: seq<string>)
    ensures var all := Collect(lines, RequisitionOf);
      var r := Capped(SortDesc(all, RequisitionKey));
      && |r| == (if |all| <= MaxCards then |all| else MaxCards)
      && r == SortDesc(all, RequisitionKey)[..|r|]
      && (forall k :: WithKey(r, RequisitionKey, k) <= WithKey(all, RequisitionKey, k))
      && (forall c :: c in r ==> exists i :: 0 <= i < |lines| && RequisitionOf(lines[i]) == Some(c))
      && (forall i, j :: 0 <= i < j < |r| && ParseDateStr(r[i].dataRem).None? ==> ParseDateStr(r[j].dataRem).None?)
      && (forall i, j :: 0 <= i < j < |r| && ParseDateStr(r[i].dataRem).Some? && ParseDateStr(r[j].dataRem).Some? ==>
            OnOrBefore(ParseDateStr(r[j].dataRem).value, ParseDateStr(r[i].dataRem).value))
  {
    var all := Collect(lines, RequisitionOf);
    var r := Capped(SortDesc(all, RequisitionKey));
    CappedSort(all, RequisitionKey);
    CollectMembers(lines, RequisitionOf);
    forall c | c in r ensures exists i :: 0 <= i < |lines| && RequisitionOf(lines[i]) == Some(c) {
      assert c in multiset(r);
    }
    RequisitionKeysOfLines(lines, r);
    NewestFirst(r, RequisitionKey, (c: Requisition) => c.dataRem);
  }
}
