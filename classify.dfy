/**
 * `classify_cards`: splits parsed cards into those still on time ("em_dia")
 * and those whose date has passed ("entregue"), by the date written in one
 * of their cells. The current day is a parameter.
 */
module Classify {
  import opened Wrappers
  import opened Dates
  import opened Reports

  /**
   * The date `classify_cards` reads from a card's date cell: an ISO-looking
   * string goes through strptime("%Y-%m-%d"), anything else through the
   * first DD.MM.YYYY token; None for a missing or empty cell and wherever
   * strptime raises.
   */
  function CardDate(ds: Option<string>): (r: Option<Date>)
    ensures r.Some? ==> ValidDate(r.value)
    ensures ds.None? || ds.value == [] ==> r.None?
    ensures r.Some? && IsoPrefix(ds.value) ==> |ds.value| == 10 && IsoFormat(r.value) == ds.value
  {
    match ds
    case None => None
    case Some(s) =>
      if s == [] then None
      else if IsoPrefix(s) then
        var d := IsoParse(s);
        if d.Some? then IsoParseExact(s); d else d
      else ParseDateStr(s)
  }

  /** The card goes to "entregue": it has a date and that date is not after today. */
  predicate Delivered(ds: Option<string>, today: Date) {
    var d := CardDate(ds);
    d.Some? && OnOrBefore(d.value, today)
  }

  /** The cards of `cards` whose "entregue" status is `delivered`, in their order. */
  function Bucket<T>(cards: seq<T>, dateOf: T -> Option<string>, today: Date, delivered: bool): seq<T> {
    if cards == [] then []
    else
      var last := cards[|cards| - 1];
      Bucket(cards[..|cards| - 1], dateOf, today, delivered) +
        (if Delivered(dateOf(last), today) == delivered then [last] else [])
  }

  /**
   * `classify_cards(cards, date_key)` with `date.today()` passed in as
   * `today` and `c.get(date_key)` as `dateOf(c)`.
   */
  method ClassifyCards<T>(cards: seq<T>, dateOf: T -> Option<string>, today: Date)
    returns (emDia: seq<T>, entregue: seq<T>)
    ensures emDia == Bucket(cards, dateOf, today, false)
    ensures entregue == Bucket(cards, dateOf, today, true)
  {
    emDia, entregue := [], [];
    for i := 0 to |cards|
      invariant emDia == Bucket(cards[..i], dateOf, today, false)
      invariant entregue == Bucket(cards[..i], dateOf, today, true)
    {
      assert cards[..i + 1][..i] == cards[..i];
      var c := cards[i];
      var d := CardDate(dateOf(c));
      if d.None? {
        emDia := emDia + [c];
      } else if OnOrBefore(d.value, today) {
        entregue := entregue + [c];
      } else {
        emDia := emDia + [c];
      }
    }
    assert cards[..|cards|] == cards;
  }

  /** Classifying consecutive stretches of cards concatenates their buckets: each card is judged on its own, order kept. */
  lemma {:induction false} BucketAppend<T>(a: seq<T>, b: seq<T>, dateOf: T -> Option<string>, today: Date, delivered: bool)
    ensures Bucket(a + b, dateOf, today, delivered) == Bucket(a, dateOf, today, delivered) + Bucket(b, dateOf, today, delivered)
    decreases |b|
  {
    if b != [] {
      var b' := b[..|b| - 1];
      assert (a + b)[..|a + b| - 1] == a + b';
      assert (a + b)[|a + b| - 1] == b[|b| - 1];
      BucketAppend(a, b', dateOf, today, delivered);
    } else {
      assert a + b == a;
    }
  }

  /**
   * The two buckets split the cards: every card lands in exactly one, in
   * "entregue" exactly when its date parses and is on or before today.
   */
  lemma ClassifyPartition<T>(cards: seq<T>, dateOf: T -> Option<string>, today: Date)
    ensures multiset(Bucket(cards, dateOf, today, false)) + multiset(Bucket(cards, dateOf, today, true)) == multiset(cards)
    ensures forall c :: c in Bucket(cards, dateOf, today, true) <==> c in cards && Delivered(dateOf(c), today)
    ensures forall c :: c in Bucket(cards, dateOf, today, false) <==> c in cards && !Delivered(dateOf(c), today)
  {
    BucketsCount(cards, dateOf, today);
    BucketMembers(cards, dateOf, today, true);
    BucketMembers(cards, dateOf, today, false);
  }

  lemma {:induction false} BucketsCount<T>(cards: seq<T>, dateOf: T -> Option<string>, today: Date)
    ensures multiset(Bucket(cards, dateOf, today, false)) + multiset(Bucket(cards, dateOf, today, true)) == multiset(cards)
  {
    if cards != [] {
      var init := cards[..|cards| - 1];
      BucketsCount(init, dateOf, today);
      SplitSnoc(Bucket(init, dateOf, today, false), Bucket(init, dateOf, today, true), cards,
                Bucket(cards, dateOf, today, false), Bucket(cards, dateOf, today, true));
    }
  }

  /** Adding the last card to one of two buckets that split the others splits all of them. */
  lemma SplitSnoc<T>(early: seq<T>, late: seq<T>, cards: seq<T>, early': seq<T>, late': seq<T>)
    requires cards != [] && multiset(early) + multiset(late) == multiset(cards[..|cards| - 1])
    requires var last := cards[|cards| - 1];
      (early' == early + [last] && late' == late) || (early' == early && late' == late + [last])
    ensures multiset(early') + multiset(late') == multiset(cards)
  {
    var init, last := cards[..|cards| - 1], cards[|cards| - 1];
    assert cards == init + [last];
    assert multiset(cards) == multiset(init) + multiset{last};
  }

  lemma {:induction false} BucketMembers<T>(cards: seq<T>, dateOf: T -> Option<string>, today: Date, delivered: bool)
    ensures forall c :: c in Bucket(cards, dateOf, today, delivered) <==> c in cards && Delivered(dateOf(c), today) == delivered
  {
    if cards != [] {
      var init, last := cards[..|cards| - 1], cards[|cards| - 1];
      BucketMembers(init, dateOf, today, delivered);
      assert cards == init + [last];
    }
  }

  /** Time only moves cards from "em_dia" to "entregue", never back. */
  lemma DeliveredStays(ds: Option<string>, today: Date, later: Date)
    requires Delivered(ds, today) && OnOrBefore(today, later)
    ensures Delivered(ds, later)
  {
  }

  /** Read back from the ISO text the parser stores, a card's date is the date of its cell. */
  lemma CardDateOfIso(cell: string)
    ensures CardDate(IsoDateOf(cell)) == ParseDateStr(cell)
  {
    var iso := IsoDateOf(cell);
    if iso.Some? {
      assert iso.value != [];
    }
  }

  /** Read from a raw cell that does not open with an ISO-looking date, a card's date is the date of its first DD.MM.YYYY token. */
  lemma CardDateOfCell(cell: string)
    requires !IsoPrefix(cell)
    ensures CardDate(Some(cell)) == ParseDateStr(cell)
  {
  }

  /**
   * The service classifies reservations by their raw need-date cell; for
   * every card the parser builds whose cell does not open with an
   * ISO-looking date, that gives the same bucket as the stored ISO date.
   */
  lemma ReservationClassifiedByStoredDate(raw: string, today: Date)
    requires ReservationOf(raw).Some? && !IsoPrefix(ReservationOf(raw).value.dataNec)
    ensures var c := ReservationOf(raw).value;
      Delivered(Some(c.dataNec), today) == Delivered(c.dataNecDate, today)
  {
    var c := ReservationOf(raw).value;
    ReservationOfDated(raw);
    CardDateOfIso(c.dataNec);
    CardDateOfCell(c.dataNec);
  }

  /** The same agreement for requisitions, classified by their raw removal-date cell. */
  lemma RequisitionClassifiedByStoredDate(raw: string, today: Date)
    requires RequisitionOf(raw).Some? && !IsoPrefix(RequisitionOf(raw).value.dataRem)
    ensures var c := RequisitionOf(raw).value;
      Delivered(Some(c.dataRem), today) == Delivered(c.dataRemDate, today)
  {
    var c := RequisitionOf(raw).value;
    RequisitionOfDated(raw);
    CardDateOfIso(c.dataRem);
    CardDateOfCell(c.dataRem);
  }
}
