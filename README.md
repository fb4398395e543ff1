# Report parsing and bucketing engine, modelled in Dafny

This project models the core of `app.py`. That program reads the latest text
export of two SAP jobs: material reservations ("reservas") and purchase
requisitions ("requisições"). It turns every pipe-delimited data line into a
card and sorts the cards newest first, keeping at most 200. It then splits them
into two buckets: "em_dia" (still on time) and "entregue" (the date has been
reached).

The model has six modules, one per file:

- `wrappers.dfy` (`Wrappers`): the `Option` type that stands for Python's `None`.
- `text.dfy` (`Text`): these string operations, following Python's semantics:
  - `str.isspace` on Latin-1 characters, `strip` and `split('|')`;
  - the column splitter `split_cols` and the border filter `is_separator`;
  - `<` on `str`.
- `dates.dfy` (`Dates`) covers dates:
  - the calendar, and the date pattern `DATE_RE` with its word boundaries;
  - the leftmost search done by `re.search`;
  - `parse_date_str`;
  - the ISO text written by `date.isoformat()` and read back by `strptime("%Y-%m-%d")`.
- `sorting.dfy` (`Sorting`): `list.sort(key=..., reverse=True)`. It is modelled as a stable insertion sort. A uniqueness lemma shows that every stable descending order of a list is that one, whatever algorithm Python uses.
- `reports.dfy` (`Reports`) holds the two parsers, each as a loop method proved against a specification function:
  - the per-line filters, the anchor column, and the fields at fixed offsets;
  - the sort and the cap at 200.
- `classify.dfy` (`Classify`): `classify_cards`, as a loop method proved against a specification function. It is a stable partition of the cards into the two buckets.

The parsers are `Reports.ParseReservationsFile` and `Reports.ParseRequisitionsFile`.

- Input: the lines of the file, already decoded.
- What each returns: `Capped(SortDesc(Collect(lines, ReservationOf), ReservationKey))` for reservations, and the requisition counterpart.

The lemmas beside them say what that output is, for every input:

- At most 200 cards.
- Each card is the card of one line.
- Cards whose date does not parse come after all the dated ones.
- The dated ones run from the latest date to the earliest.
- Cards with equal keys keep the order of the file.

`classify_cards` is `Classify.ClassifyCards`. The current day is the parameter `today`. The card's date cell, `c.get(date_key)`, is the function parameter `dateOf`.

## Model

| member | source | states |
|---|---|---|
| Text.Strip | app.py:23 | the result is empty exactly when the string is all whitespace; otherwise it is trimmed at both ends; it is the original text with only a leading and a trailing whitespace run removed |
| Text.StripUnwraps | app.py:27 | stripping whitespace-padded text that is empty or already trimmed gives back that text |
| Text.IsSeparator | app.py:22-23 | a line is a border line exactly when it has more than 20 dashes or is empty or whitespace only |
| Text.Split | app.py:27 | splitting on bars gives one more part than there are bars, no part contains a bar, and joining the parts with bars gives back the line |
| Text.SplitJoin | app.py:27 | splitting the bar-join of bar-free parts gives back those parts |
| Text.SplitAppend | app.py:27 | the parts of a, a bar, then b are the parts of a followed by the parts of b |
| Text.Cells | app.py:27-28 | stripping every part and dropping the empty ones keeps at most as many cells as parts, each non-empty and trimmed |
| Text.SplitCols | app.py:25-29 | every column is non-empty, trimmed and bar-free; there are at most as many columns as bar-separated parts |
| Text.SplitColsAppend | app.py:25-29 | columns keep their left-to-right order: the columns of a, a bar, then b are those of a followed by those of b |
| Text.SplitColsNoBar | app.py:25-29 | a bar-free stretch is one column (its stripped text), or none when it is blank |
| Text.SplitColsBordered | app.py:25-29 | a line made of a bar, a padded cell a, a bar, a blank cell, a bar, a cell b and a closing bar yields exactly the columns `[a, b]` for any cells a and b: the border bars and the blank cell leave nothing |
| Text.StrLessTransitive | app.py:111 | Python's `<` on str is transitive |
| Text.StrLessTotal | app.py:111 | any two different strings are ordered one way or the other |
| Text.StrLessConcat | app.py:111 | for prefixes of equal length, the first difference decides the order of the concatenations |
| Dates.DaysInMonth | app.py:39 | a month has 28 to 31 days, and 29 exactly for February of a leap year |
| Dates.NotCalendarDates | app.py:39 | day 0, day 32, year 0 and 29 February of a common year are rejected by strptime |
| Dates.MatchUnique | app.py:19 | at most one DATE_RE match starts at any position, so the greedy choice of digit counts does not matter |
| Dates.Search | app.py:31-40 | a result is a match; no match starts before it; there is no result exactly when no position starts a match |
| Dates.ParseDateStr | app.py:31-40 | a parsed date is a valid calendar date; parsing succeeds exactly when a DATE_RE token exists and the leftmost one is a valid date; that date is the one written in that token |
| Dates.ParseDateStrLeftmost | app.py:31-40 | only the leftmost token is read: when it is not a valid date the result is None, even if a later token is valid |
| Dates.ParseDateStrFiveDigitYear | app.py:31-40 | `1.2.20255` holds no token (the boundary after four year digits fails), so it parses to None |
| Dates.PadOrder | app.py:107-111 | zero-padded numbers of the same width compare as text the way they compare as numbers |
| Dates.IsoRoundTrip | app.py:200-204 | `strptime("%Y-%m-%d")` reads the ISO text of a valid date back as that date |
| Dates.IsoParseExact | app.py:204 | a string that strptime accepts in ISO form is exactly the ISO text of the date it yields |
| Dates.IsoOrder | app.py:107-111 | ISO texts compare as strings the way their dates compare in time |
| Dates.IsoParse | app.py:203-204 | a string with an ISO-looking prefix parses only to a valid date (trailing text or an out-of-range field gives None) |
| Sorting.SortDescSorted | app.py:107-111 | the sort leaves keys non-increasing |
| Sorting.SortDescPermutes | app.py:107-111 | the sort is a permutation of its input |
| Sorting.SortDescStable | app.py:107-111 | cards with equal keys keep their relative order |
| Sorting.SortDescUnique | app.py:107-111 | every arrangement that is sorted by key and keeps the input order within each key is the sort's result |
| Sorting.WithKeyPrefix | app.py:111-114 | truncating a list keeps, for every key, a prefix of that key's elements |
| Reports.IsoDateOf | app.py:85-96 | the ISO field is present exactly when `parse_date_str` finds a date in the cell, and it reads back as that date |
| Reports.DatePositions | app.py:152 | the positions are exactly the date-bearing columns, in strictly increasing order |
| Reports.FirstDateCol | app.py:66-72 | the scan returns the leftmost date-bearing column, or None when no column carries a date |
| Reports.ReadReservationLine | app.py:52-105 | one pass of the reservation loop yields the card the line's specification gives, or nothing |
| Reports.ReadRequisitionLine | app.py:127-187 | one pass of the requisition loop yields the card the line's specification gives, or nothing |
| Reports.ParseReservationsFile | app.py:51-114 | the result is the first 200 cards of the stable descending sort by `sort_key` of the cards the lines yield in order |
| Reports.ParseRequisitionsFile | app.py:126-190 | the result is the first 200 cards of the stable descending sort by `dataRemDate or "0000-00-00"` of the cards the lines yield in order |
| Reports.DateInSomeCell | app.py:58-72 | a line with a DATE_RE token has a column with one, so the `not cols` and `date_idx is None` exits never fire after the filters |
| Reports.ReservationOfCandidate | app.py:52-105 | a line yields a reservation card exactly when it contains a bar, is not a border line and carries a date token, even when that date is not a valid calendar date |
| Reports.RequisitionOfCandidate | app.py:127-187 | a line yields a requisition card exactly when it contains a bar, is not a border line and carries a date token |
| Reports.ReservationAnchor | app.py:66-103 | the card reads the need date at the leftmost date-bearing column k, and material, description, quantity, unit, user and reservation number at k+1 to k+6 ("" past the end); raw is the stripped line |
| Reports.RequisitionAnchorSecond | app.py:152-185 | with two or more date-bearing columns the card is anchored at the second: removal date there, material to unit at +1 to +4, order number at +6, "" past the end |
| Reports.RequisitionAnchorSingle | app.py:152-185 | with a single date-bearing column the card is anchored there |
| Reports.ReservationOfDated | app.py:85-96 | a reservation card's need-date cell carries a date token, and its ISO field is that cell's parsed date |
| Reports.RequisitionOfDated | app.py:167-179 | a requisition card's removal-date cell carries a date token, and its ISO field is that cell's parsed date |
| Reports.RequisitionKeyOfDated | app.py:189 | on parser-built cards the `or` in the key falls back to the padding only when the ISO date is missing |
| Reports.CollectAppend | app.py:51-105 | lines are read one at a time in order: the cards of consecutive stretches of lines concatenate |
| Reports.CollectMembers | app.py:51-105 | the collected cards are exactly the cards of the single lines |
| Reports.NoDateKeyBelow | app.py:108-110 | the padding `0000-00-00` sorts below the ISO text of every valid date |
| Reports.CappedSort | app.py:111-114 | after sort and cap: length min(n, 200), a prefix of the full sort, sorted, drawn from the input, and each key's cards a prefix of its cards in input order |
| Reports.NewestFirst | app.py:107-111 | when keys are ISO dates with padding for undated cards, undated cards come last and dated ones go from latest to earliest |
| Reports.ReservationsReport | app.py:51-114 | the reservation output has length min(n, 200); it is a prefix of the stable sort, so equal dates keep file order; each card is some line's card; undated cards come last and need dates do not increase |
| Reports.RequisitionsReport | app.py:126-190 | the same guarantees for the requisition output, ordered by removal date |
| Classify.CardDate | app.py:198-211 | a missing or empty cell has no date; a date that is found is valid; an ISO-looking cell yields a date only when it is exactly the 10-character ISO text of that date |
| Classify.ClassifyCards | app.py:193-220 | the two lists are the cards judged on time and judged delivered, each in input order |
| Classify.ClassifyPartition | app.py:197-219 | every card lands in exactly one bucket (the two multisets add up to the input); "entregue" holds exactly the cards whose date parses and is on or before today |
| Classify.BucketAppend | app.py:197-219 | each card is judged on its own and order is kept: the buckets of consecutive stretches concatenate |
| Classify.DeliveredStays | app.py:216 | a card that is delivered today is still delivered on every later day |
| Classify.CardDateOfIso | app.py:200-204 | read back from the ISO field, a card's date is its cell's parsed date |
| Classify.CardDateOfCell | app.py:205-209 | read from a raw cell without an ISO-looking prefix, a card's date is what `parse_date_str` gives |
| Classify.ReservationClassifiedByStoredDate | app.py:198-219 | for a parser-built reservation whose need-date cell has no ISO-looking prefix, classifying by the raw cell gives the same bucket as classifying by the stored ISO date |
| Classify.RequisitionClassifiedByStoredDate | app.py:198-219 | the same agreement for requisitions and their removal-date cell |

## Left out

- Opening the file and decoding it as Latin-1 with errors ignored (app.py:44-49, 119-124). The parsers take the decoded lines as a sequence of strings. The printed error message and the empty result on an open failure are not modelled.
- `carregar_cache` (app.py:223-252) is not modelled. It lists a directory, picks the newest file by modification time and replaces the global `CACHE`. An empty directory resets both buckets to empty lists; an exception keeps the previous value. This is filesystem and global-state plumbing.
- The watchdog observer, the event handler, the background thread and `start_watch` (app.py:254-279). They exist for event delivery and concurrency.
- The Flask routes and JSON encoding (app.py:281-296), which are HTTP transport.
- `date.today()` (app.py:194) is the parameter `today`.
- The regex class `\w` is modelled on ASCII letters, digits and `_` only. Python's `\w` also matches non-ASCII letters such as `é` or `º`. With such a letter next to a date, Python finds no token where the model finds one.
- `str.isspace` is exact on the Latin-1 range that decoding produces. Characters beyond it are treated as non-space.
- Dictionaries are modelled as records, so `c.get(date_key)` on a key the card lacks is only reachable through `dateOf` returning None.
- The sort is modelled by its result (a stable insertion sort), not by Timsort's steps. `Sorting.SortDescUnique` shows the two agree.
- Concrete example lines for `split_cols` are replaced by `Text.SplitColsBordered`, which covers every line of that shape.
- `Classify.CardDate` on a cell that opens with an ISO-looking date but has more text (for example `2024-01-05 05.02.2024`) gives None, as strptime does, even when a DATE_RE token follows. `Classify.ReservationClassifiedByStoredDate` therefore assumes the cell has no such prefix.
