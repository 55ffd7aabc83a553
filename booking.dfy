/**
 The booking step of the reservation sidebar. The sheet is read into an array of
 rows; when the guest confirms a table the script changes that array in place
 (the matching row's `Taken` grows by the party size and a guest entry is
 appended to its `Guest_List`) and then writes the whole array back.
 */
module Booking {
  import opened Tables
  import Decimal

  /** The text a booking appends to a guest list: `name(tickets), `. */
  function GuestEntry(name: string, tickets: nat): (e: string)
    ensures |e| >= |name| + 5
    ensures e[..|name|] == name && e[|name|] == '('
    ensures e[|e| - 3..] == "), "
    ensures Decimal.AllDigits(e[|name| + 1..|e| - 3])
    ensures Decimal.DecimalValue(e[|name| + 1..|e| - 3]) == tickets
    ensures e[|name| + 1] == '0' ==> tickets == 0 && |e| == |name| + 5
  {
    var digits := Decimal.NatToDecimal(tickets);
    var e := name + "(" + digits + "), ";
    assert e[|name| + 1..|e| - 3] == digits;
    Decimal.DecimalRoundTrip(tickets);
    e
  }

  /**
   A row after a party of `tickets` led by `name` has been seated at it: same
   table, `tickets` fewer seats left, and the guest entry after the old list.
   */
  function Seat(t: Table, name: string, tickets: nat): (r: Table)
    ensures r.id == t.id && r.capacity == t.capacity
    ensures Remaining(r) == Remaining(t) - tickets
    ensures |r.guestList| == |t.guestList| + |GuestEntry(name, tickets)|
    ensures r.guestList[..|t.guestList|] == t.guestList
    ensures r.guestList[|t.guestList|..] == GuestEntry(name, tickets)
  {
    t.(taken := t.taken + tickets, guestList := t.guestList + GuestEntry(name, tickets))
  }

  /** Seats taken over the whole sheet. */
  function TotalTaken(ts: seq<Table>): int {
    if ts == [] then 0 else TotalTaken(ts[..|ts| - 1]) + ts[|ts| - 1].taken
  }

  /** Replacing one row changes the sheet's total by the change in that row's `Taken`. */
  lemma {:induction false} TotalTakenAfterUpdate(ts: seq<Table>, i: nat, t: Table)
    requires i < |ts|
    ensures TotalTaken(ts[i := t]) == TotalTaken(ts) - ts[i].taken + t.taken
  {
    var n := |ts| - 1;
    var r := ts[i := t];
    assert r[..n] == if i == n then ts[..n] else ts[..n][i := t];
    if i < n {
      TotalTakenAfterUpdate(ts[..n], i, t);
    }
  }

  /**
   The sheet after a confirmed booking: the first row whose id is `selection`
   is seated, every other row is left as it was.
   */
  function Book(ts: seq<Table>, name: string, tickets: nat, selection: string): (r: seq<Table>)
    requires FirstIndexOf(ts, selection).Some?
    ensures |r| == |ts|
    ensures forall j :: 0 <= j < |ts| ==> r[j].id == ts[j].id && r[j].capacity == ts[j].capacity
    ensures TotalTaken(r) == TotalTaken(ts) + tickets
  {
    var i := FirstIndexOf(ts, selection).value;
    TotalTakenAfterUpdate(ts, i, Seat(ts[i], name, tickets));
    ts[i := Seat(ts[i], name, tickets)]
  }

  /** An id the select box offers names some row, so the lookup by id always finds one. */
  lemma OfferedIdIsFound(ts: seq<Table>, tickets: int, selection: string)
    requires selection in AvailableIds(ts, tickets)
    ensures FirstIndexOf(ts, selection).Some?
  {
  }

  /**
   A booking changes exactly one row, the first with the selected id: its
   `Taken` grows by `tickets` and its guest list by one entry appended at the
   end; its id and capacity stay, and the sheet keeps its length.
   */
  lemma BookChangesOnlySelectedRow(ts: seq<Table>, name: string, tickets: nat, selection: string)
    requires FirstIndexOf(ts, selection).Some?
    ensures var i := FirstIndexOf(ts, selection).value;
      var r := Book(ts, name, tickets, selection);
      && |r| == |ts|
      && r[i].id == ts[i].id == selection
      && r[i].capacity == ts[i].capacity
      && r[i].taken == ts[i].taken + tickets
      && r[i].guestList == ts[i].guestList + (name + "(" + Decimal.NatToDecimal(tickets) + "), ")
      && forall j :: 0 <= j < |ts| && j != i ==> r[j] == ts[j]
  {
    var i := FirstIndexOf(ts, selection).value;
    var entry := name + "(" + Decimal.NatToDecimal(tickets) + "), ";
    assert GuestEntry(name, tickets) == entry;
    assert ts[i].guestList + GuestEntry(name, tickets) == ts[i].guestList + entry;
  }

  /** Guest lists only grow: every row's old guest list is a prefix of its new one. */
  lemma BookOnlyAppendsGuests(ts: seq<Table>, name: string, tickets: nat, selection: string)
    requires FirstIndexOf(ts, selection).Some?
    ensures var r := Book(ts, name, tickets, selection);
      forall j :: 0 <= j < |ts| ==> |ts[j].guestList| <= |r[j].guestList| && ts[j].guestList == r[j].guestList[..|ts[j].guestList|]
  {
  }

  /**
   With unique ids, booking a table the select box offered for `tickets`
   never fills it beyond its capacity: the seats left drop by exactly `tickets`
   and stay non-negative.
   */
  lemma BookRespectsCapacity(ts: seq<Table>, name: string, tickets: nat, selection: string)
    requires UniqueIds(ts)
    requires selection in AvailableIds(ts, tickets)
    ensures FirstIndexOf(ts, selection).Some?
    ensures var i := FirstIndexOf(ts, selection).value;
      var r := Book(ts, name, tickets, selection);
      && Remaining(r[i]) == Remaining(ts[i]) - tickets >= 0
      && r[i].taken <= r[i].capacity
  {
  }

  /** No table overfilled before a booking means none overfilled after it. */
  lemma BookKeepsSheetWithinCapacity(ts: seq<Table>, name: string, tickets: nat, selection: string)
    requires UniqueIds(ts)
    requires selection in AvailableIds(ts, tickets)
    requires forall j :: 0 <= j < |ts| ==> ts[j].taken <= ts[j].capacity
    ensures FirstIndexOf(ts, selection).Some?
    ensures var r := Book(ts, name, tickets, selection);
      forall j :: 0 <= j < |r| ==> r[j].taken <= r[j].capacity
  {
  }

  /** The booked table shows `"FULL"` on the map afterwards exactly when the party took every seat left. */
  lemma BookedTableFullIffPartyFilledIt(ts: seq<Table>, name: string, tickets: nat, selection: string)
    requires UniqueIds(ts)
    requires selection in AvailableIds(ts, tickets)
    ensures FirstIndexOf(ts, selection).Some?
    ensures var i := FirstIndexOf(ts, selection).value;
      Status(Book(ts, name, tickets, selection)[i]) == "FULL" <==> tickets == Remaining(ts[i])
  {
  }

  /**
   With a repeated id the guarantee can fail: the lookup takes the first row
   with the id, which need not be the row that had room. Here the offered `"A"` is
   the second row, yet the first, already full, is the one booked.
   */
  lemma DuplicateIdsCanOverfill()
    ensures var ts := [Table("A", 2, 2, ""), Table("A", 10, 0, "")];
      && "A" in AvailableIds(ts, 3)
      && FirstIndexOf(ts, "A") == Some(0)
      && Book(ts, "Sam", 3, "A")[0].taken > Book(ts, "Sam", 3, "A")[0].capacity
  {
  }

  /**
   The confirm button: on "Confirm Seating", book the selected table when a name was
   entered (a non-empty string is truthy), otherwise leave the sheet alone.
   */
  method Confirm(tables: array<Table>, name: string, tickets: int, selection: string) returns (booked: bool)
    requires 1 <= tickets <= 10
    requires selection in AvailableIds(tables[..], tickets)
    modifies tables
    ensures booked <==> name != ""
    ensures FirstIndexOf(old(tables[..]), selection).Some?
    ensures booked ==> tables[..] == Book(old(tables[..]), name, tickets, selection)
    ensures !booked ==> tables[..] == old(tables[..])
  {
    OfferedIdIsFound(tables[..], tickets, selection);
    if name != "" {
      ghost var before := tables[..];
      var idx := FirstIndexOf(tables[..], selection).value;
      ghost var row := tables[idx];
      tables[idx] := tables[idx].(taken := tables[idx].taken + tickets);
      tables[idx] := tables[idx].(guestList := tables[idx].guestList + GuestEntry(name, tickets));
      assert tables[idx] == Seat(row, name, tickets);
      assert tables[..] == before[idx := Seat(row, name, tickets)];
      booked := true;
    } else {
      booked := false;
    }
  }

  /** What one pass of the sidebar ends with. */
  datatype Outcome =
    | NoTableFits          // no row has room: no select box, no button (the empty-filter test)
    | NotConfirmed         // a table is offered but the button was not pressed
    | NameMissing          // the button was pressed with an empty name (the missing-name error)
    | Booked(row: nat)     // the row at this position was booked and the sheet written

  /**
   One pass of the sidebar: offer the tables with room for the party; if the guest picked
   `selection` and pressed the button, confirm the booking.
   */
  method Reserve(tables: array<Table>, name: string, tickets: int, selection: string, pressed: bool)
    returns (outcome: Outcome)
    requires 1 <= tickets <= 10
    requires Available(tables[..], tickets) != [] ==> selection in AvailableIds(tables[..], tickets)
    modifies tables
    ensures outcome == NoTableFits <==> forall i :: 0 <= i < tables.Length ==> Remaining(old(tables[i])) < tickets
    ensures outcome == NotConfirmed <==> Available(old(tables[..]), tickets) != [] && !pressed
    ensures outcome == NameMissing <==> Available(old(tables[..]), tickets) != [] && pressed && name == ""
    ensures outcome.Booked? <==> Available(old(tables[..]), tickets) != [] && pressed && name != ""
    ensures outcome.Booked? ==> FirstIndexOf(old(tables[..]), selection) == Some(outcome.row)
    ensures outcome.Booked? ==> tables[..] == Book(old(tables[..]), name, tickets, selection)
    ensures !outcome.Booked? ==> tables[..] == old(tables[..])
  {
    NothingAvailable(tables[..], tickets);
    var available := Available(tables[..], tickets);
    if available == [] {
      return NoTableFits;
    }
    if !pressed {
      return NotConfirmed;
    }
    OfferedIdIsFound(tables[..], tickets, selection);
    var row := FirstIndexOf(tables[..], selection).value;
    var booked := Confirm(tables, name, tickets, selection);
    if booked {
      outcome := Booked(row);
    } else {
      outcome := NameMissing;
    }
  }
}
