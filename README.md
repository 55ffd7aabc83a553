# Graduation seating: the table-reservation rule

This project models the reservation rule of the graduation seating app
(`streamlit_app.py`). The app reads a `Tables` sheet, offers a guest the tables
with room for their party, and books the chosen one. Booking raises that row's
`Taken` and appends the guest to its `Guest_List`. The whole sheet is then
written back. A map labels every table `FULL` or `AVAILABLE`.

Three modules:

- `Decimal` (`decimal.dfy`): the decimal text Python writes for the ticket
  count inside an f-string. It comes with a parser and a round-trip lemma.
- `Tables` (`tables.dfy`): the `Table` row (`Table_ID`, `Capacity`, `Taken`,
  `Guest_List`) and the pure queries over the sheet. These are the
  `Remaining` column, the availability filter, the lookup of a row by id, and
  the `Status` label and column. The filter returns row positions, because a
  DataFrame filter keeps the row labels. The filter keeps the sheet's order, so
  the positions are ascending.
- `Booking` (`booking.dfy`): the in-place update. The sheet is an
  `array<Table>`. `Confirm` (lines 28-31) and `Reserve` (lines 22-38) change it
  in place. Their postconditions tie the new array to the specification
  function `Book`, and the lemmas about `Book` state what a booking does.

Inputs the app takes from widgets are parameters: the name, the ticket count
(1 to 10, as the number input allows), the selected id and whether the button
was pressed. The selected id must be one the select box listed.

Line 29 books the first row whose id equals the selection. Unique ids are
enough for the capacity guarantee: the row line 29 books is then the offered
one. With a repeated id, line 29 can book an earlier row with the same id that
has no room for the party. `Booking.BookRespectsCapacity` proves the guarantee
under `UniqueIds`. `Booking.DuplicateIdsCanOverfill` gives a two-row sheet with a
repeated id where the booking lands on the full row.

## Notes on the code

- The guest entry is `name(tickets), `. It has no space before the parenthesis
  and always ends with a trailing separator.
- The map has two labels, `FULL` and `AVAILABLE`.
- The chosen table is not checked again when the booking is committed.

## Model

| member | source | states |
|---|---|---|
| `Decimal.NatToDecimal` | streamlit_app.py:31 | the ticket count's text is a non-empty string of digits with no leading zero (except for `0` itself) |
| `Decimal.DecimalRoundTrip` | streamlit_app.py:31 | reading the written digits back gives the ticket count |
| `Decimal.NatToDecimalInjective` | streamlit_app.py:31 | different ticket counts are written as different texts |
| `Tables.RemainingColumn` | streamlit_app.py:22 | the `Remaining` column has one entry per row, equal to that row's `Capacity - Taken` |
| `Tables.Available` | streamlit_app.py:23 | the filter lists only rows with `Remaining >= tickets`, lists every such row, and keeps them in ascending sheet order |
| `Tables.AvailableIsUnique` | streamlit_app.py:23 | any ascending list of exactly the rows with room is the filter's result, so the filter is determined by those three properties |
| `Tables.AvailableIds` | streamlit_app.py:23-26 | the select box lists one id per available row, in the filter's order, so an id is offered exactly when some row with that id has room for the party |
| `Tables.NothingAvailable` | streamlit_app.py:25 | nothing is offered exactly when every row has fewer than `tickets` seats left |
| `Tables.FirstIndexOf` | streamlit_app.py:29 | the lookup finds a row exactly when some row has the id; the row found has the id and no earlier row does |
| `Tables.Status` | streamlit_app.py:41 | the label is `FULL` exactly when `Remaining <= 0` and `AVAILABLE` exactly when `Remaining > 0` |
| `Tables.StatusColumn` | streamlit_app.py:41 | every row gets one label, `FULL` exactly when its seats left are `<= 0`, otherwise `AVAILABLE` |
| `Tables.OfferedTablesAreNotFull` | streamlit_app.py:41 | a table offered for one or more tickets is labelled `AVAILABLE` on the map |
| `Booking.GuestEntry` | streamlit_app.py:31 | the appended text is the name, then `(`, then the ticket count in decimal digits with no leading zero (as `str` writes it), then `), ` |
| `Booking.Seat` | streamlit_app.py:30-31 | the per-row step of a booking: the row keeps its id and capacity, has exactly `tickets` fewer seats left, and its guest list is the old one followed by the guest entry |
| `Booking.Book` | streamlit_app.py:29-31 | the sheet after a booking has the same rows with the same ids and capacities, and the seats taken over the whole sheet grow by exactly `tickets` |
| `Booking.OfferedIdIsFound` | streamlit_app.py:26-29 | an offered id always names a row, so the lookup on line 29 finds one |
| `Booking.BookChangesOnlySelectedRow` | streamlit_app.py:29-31 | a booking keeps the row count; the first row with the id gains exactly `tickets` in `Taken` and the entry at the end of its guest list; every other row is unchanged |
| `Booking.BookOnlyAppendsGuests` | streamlit_app.py:31 | every row's old guest list is a prefix of its new one |
| `Booking.BookRespectsCapacity` | streamlit_app.py:23-30 | with unique ids, the booked table's seats left drop by exactly `tickets` and stay `>= 0`, so `Taken <= Capacity` |
| `Booking.BookKeepsSheetWithinCapacity` | streamlit_app.py:23-30 | with unique ids, a sheet with no overfilled table still has none after a booking |
| `Booking.BookedTableFullIffPartyFilledIt` | streamlit_app.py:30-41 | the booked table is labelled `FULL` afterwards exactly when the party took all its remaining seats |
| `Booking.DuplicateIdsCanOverfill` | streamlit_app.py:29 | with a repeated id, the offered id can resolve to a full earlier row, and booking it exceeds that row's capacity |
| `Booking.Confirm` | streamlit_app.py:28-31 | the booking happens exactly when the name is non-empty; the array then equals `Book` of the old array, otherwise it is unchanged |
| `Booking.Reserve` | streamlit_app.py:22-38 | no table is offered exactly when none has room; a booking happens exactly when a table is offered, the button is pressed and the name is non-empty; only then does the array change, to `Book` of the old one at the row the lookup found |

## Left out

- The Google Sheets read and the whole-sheet write (lines 8, 11, 34) are external I/O. The array a method receives is the sheet as read. The array it leaves is what gets written.
- The written sheet also carries the `Remaining` column computed before the booking. That column is not modelled; it is recomputed on every run.
- Streamlit widgets, the success and error messages, and `st.rerun` (lines 16-38) are UI. They appear only as parameters, preconditions and the `Outcome` of `Reserve`.
- The Plotly map (lines 42-45) is rendering. Only its `Status` labels (line 41) are modelled, and the `X`/`Y` columns are left out.
- Two sessions that read the same sheet and both write it back can lose an update or overfill a table. The code has no guard against this, and the model covers a single session.
- pandas coercions are not modelled: an empty `Guest_List` cell becomes the text `nan`, and non-integer or missing numbers can appear. `Guest_List` is a plain string, and `Capacity`/`Taken` are integers.
- `Booking.BookRespectsCapacity`: the capacity guarantee is stated only for sheets with unique `Table_ID`s. The code does not enforce uniqueness, and `Booking.DuplicateIdsCanOverfill` shows what happens without it.
