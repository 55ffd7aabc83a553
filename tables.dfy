/**
 The `Tables` sheet of the seating app as the script sees it after reading it:
 an ordered list of rows, each a table with an id, a seat capacity, the number
 of seats taken and the free-text guest list. The derived columns the script
 adds (`Remaining`, `Status`) and the two queries it makes (the rows with room
 for a party, the row with a given id) are functions of that list.
 */
module Tables {

  datatype Option<T> = None | Some(value: T)

  /** One row of the sheet: `Table_ID`, `Capacity`, `Taken`, `Guest_List`. */
  datatype Table = Table(id: string, capacity: int, taken: int, guestList: string)

  /** Seats still free at a table (the `Remaining` column). */
  function Remaining(t: Table): int {
    t.capacity - t.taken
  }

  /** The `Remaining` column for the whole sheet, row by row. */
  function RemainingColumn(ts: seq<Table>): (r: seq<int>)
    ensures |r| == |ts|
    ensures forall i :: 0 <= i < |ts| ==> r[i] == ts[i].capacity - ts[i].taken
  {
    if ts == [] then [] else [Remaining(ts[0])] + RemainingColumn(ts[1..])
  }

  /** Whether a table has room for a party of `tickets`; the boundary is inclusive. */
  predicate Fits(t: Table, tickets: int) {
    Remaining(t) >= tickets
  }

  /**
   The rows offered for booking: the positions of the rows with room for
   `tickets`, in the sheet's own order (a DataFrame filter keeps the row labels).
   */
  function Available(ts: seq<Table>, tickets: int): (r: seq<nat>)
    ensures forall k :: 0 <= k < |r| ==> r[k] < |ts| && Fits(ts[r[k]], tickets)
    ensures forall i :: 0 <= i < |ts| && Fits(ts[i], tickets) ==> i in r
    ensures Ascending(r)
  {
    if ts == [] then []
    else
      var n := |ts| - 1;
      var front := Available(ts[..n], tickets);
      assert forall k :: 0 <= k < |front| ==> front[k] < n && ts[front[k]] == ts[..n][front[k]];
      if Fits(ts[n], tickets) then front + [n] else front
  }

  /** The ids the select box lists: the ids of the available rows, in order. */
  function AvailableIds(ts: seq<Table>, tickets: int): (ids: seq<string>)
    ensures |ids| == |Available(ts, tickets)|
    ensures forall k :: 0 <= k < |ids| ==> ids[k] == ts[Available(ts, tickets)[k]].id
    ensures forall id :: id in ids <==> exists i :: 0 <= i < |ts| && Fits(ts[i], tickets) && ts[i].id == id
  {
    var rows := Available(ts, tickets);
    var ids := seq(|rows|, k requires 0 <= k < |rows| => ts[rows[k]].id);
    assert forall i :: 0 <= i < |ts| && Fits(ts[i], tickets) ==> exists k :: 0 <= k < |rows| && rows[k] == i && ids[k] == ts[i].id;
    ids
  }

  /** The position of the first row whose id is `id`, if any row has it. */
  function FirstIndexOf(ts: seq<Table>, id: string): (r: Option<nat>)
    ensures r.None? <==> forall i :: 0 <= i < |ts| ==> ts[i].id != id
    ensures r.Some? ==> r.value < |ts| && ts[r.value].id == id
    ensures r.Some? ==> forall j :: 0 <= j < r.value ==> ts[j].id != id
  {
    if ts == [] then None
    else if ts[0].id == id then Some(0)
    else match FirstIndexOf(ts[1..], id)
      case None => None
      case Some(j) => Some(j + 1)
  }

  /** Every id names at most one row. */
  predicate UniqueIds(ts: seq<Table>) {
    forall i, j :: 0 <= i < j < |ts| ==> ts[i].id != ts[j].id
  }

  /** The map label of a table: `"FULL"` when no seat is left, otherwise `"AVAILABLE"`. */
  function Status(t: Table): (s: string)
    ensures s == "FULL" <==> Remaining(t) <= 0
    ensures s == "AVAILABLE" <==> Remaining(t) > 0
  {
    if Remaining(t) <= 0 then "FULL" else "AVAILABLE"
  }

  /** The `Status` column: one label per row, and each row gets exactly one of the two. */
  function StatusColumn(ts: seq<Table>): (r: seq<string>)
    ensures |r| == |ts|
    ensures forall i :: 0 <= i < |ts| ==> (r[i] == "FULL" <==> ts[i].capacity - ts[i].taken <= 0)
    ensures forall i :: 0 <= i < |ts| ==> (r[i] == "AVAILABLE" <==> ts[i].capacity - ts[i].taken > 0)
  {
    if ts == [] then [] else [Status(ts[0])] + StatusColumn(ts[1..])
  }

  /** Positions listed in strictly ascending order, so each at most once. */
  predicate Ascending(s: seq<nat>) {
    forall k, l :: 0 <= k < l < |s| ==> s[k] < s[l]
  }

  /** In an ascending list of positions below `n + 1` that holds `n`, `n` comes last. */
  lemma AscendingEndsWithMax(s: seq<nat>, n: nat)
    requires Ascending(s)
    requires forall k :: 0 <= k < |s| ==> s[k] <= n
    requires n in s
    ensures s[|s| - 1] == n
  {
  }

  /**
   The filter keeps exactly the rows with room, each once and in sheet order:
   any list of positions with those three properties is `Available`.
   */
  lemma {:induction false} AvailableIsUnique(ts: seq<Table>, tickets: int, s: seq<nat>)
    requires forall k :: 0 <= k < |s| ==> s[k] < |ts| && Fits(ts[s[k]], tickets)
    requires forall i :: 0 <= i < |ts| && Fits(ts[i], tickets) ==> i in s
    requires Ascending(s)
    ensures s == Available(ts, tickets)
  {
    if ts == [] {
      assert s == [];
    } else {
      var n := |ts| - 1;
      var front := ts[..n];
      if Fits(ts[n], tickets) {
        AscendingEndsWithMax(s, n);
        var s' := s[..|s| - 1];
        assert s == s' + [n];
        forall i | 0 <= i < |front| && Fits(front[i], tickets)
          ensures i in s'
        {
          assert i in s;
        }
        AvailableIsUnique(front, tickets, s');
      } else {
        forall k | 0 <= k < |s|
          ensures s[k] < n && Fits(front[s[k]], tickets)
        {
          assert s[k] != n;
        }
        AvailableIsUnique(front, tickets, s);
      }
    }
  }

  /** No booking is offered exactly when no table has room for the party. */
  lemma NothingAvailable(ts: seq<Table>, tickets: int)
    ensures Available(ts, tickets) == [] <==> forall i :: 0 <= i < |ts| ==> Remaining(ts[i]) < tickets
    ensures AvailableIds(ts, tickets) == [] <==> Available(ts, tickets) == []
  {
  }

  /** A table offered for a party of one or more is never labelled `"FULL"` on the map. */
  lemma OfferedTablesAreNotFull(ts: seq<Table>, tickets: int, k: nat)
    requires tickets >= 1
    requires k < |Available(ts, tickets)|
    ensures StatusColumn(ts)[Available(ts, tickets)[k]] == "AVAILABLE"
  {
  }
}
