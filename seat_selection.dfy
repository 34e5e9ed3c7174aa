/**
 * The seat-selection dialog of the frontend: a fixed grid of seats, the
 * ordered list of selected seat ids and the requested seat count, with the
 * click, count-change and confirm handlers as atomic transitions.
 */
module SeatSelection {
  import opened Wrappers
  import opened SeatIds

  const Rows: nat := 10
  const SeatsPerRow: nat := 15
  /** The seat-count picker offers 1 through 8. */
  const MaxSeatCount: nat := 8

  /** One cell of the seat map; only `selected` changes after generation. */
  datatype Seat = Seat(id: string, row: nat, seat: nat, occupied: bool, selected: bool)

  /** What the confirm handler hands to its caller. */
  datatype Confirmation = Confirmation(movieId: int, seatsSelected: int, selectedSeats: seq<string>)

  /** The cell the generator builds at 0-based position (r, s); occupancy is an input. */
  function FreshSeat(isOccupied: (nat, nat) -> bool, r: nat, s: nat): Seat {
    Seat(SeatId(r + 1, s + 1), r + 1, s + 1, isOccupied(r + 1, s + 1), false)
  }

  /** An id that names a cell of the grid and parses back to it. */
  predicate IsGridId(id: string) {
    match ParseSeatId(id)
    case Some((r, s)) => 1 <= r <= Rows && 1 <= s <= SeatsPerRow && SeatId(r, s) == id
    case None => false
  }

  predicate NoDuplicates(s: seq<string>) {
    forall i, j :: 0 <= i < j < |s| ==> s[i] != s[j]
  }

  /** `prev.filter(s => s !== id)`. */
  function Without(sel: seq<string>, id: string): (r: seq<string>)
    ensures |r| <= |sel|
    ensures forall x :: x in r <==> x in sel && x != id
    ensures NoDuplicates(sel) ==> NoDuplicates(r)
  {
    if sel == [] then []
    else if sel[0] == id then Without(sel[1..], id)
    else
      var rest := Without(sel[1..], id);
      assert NoDuplicates(sel) ==> sel[0] !in sel[1..] && NoDuplicates(sel[1..]);
      [sel[0]] + rest
  }

  /**
   * The selection list after a click on the seat `id`: occupied seats are
   * ignored, a selected seat is dropped, a free seat is appended, and when
   * the list already holds `count` ids the oldest is evicted first.
   */
  function AfterClick(sel: seq<string>, count: int, id: string, occupied: bool): (r: seq<string>)
    requires 1 <= count
    ensures occupied ==> r == sel
    ensures !occupied ==> (id in r <==> id !in sel)
    ensures |sel| <= count ==> |r| <= count
  {
    if occupied then sel
    else if id in sel then Without(sel, id)
    else if |sel| >= count then sel[1..] + [id]
    else sel + [id]
  }

  /** The selection list after the count is set to n: the oldest n ids are kept. */
  function AfterCountChange(sel: seq<string>, n: nat): (r: seq<string>)
    ensures r <= sel
    ensures |sel| <= n ==> r == sel
    ensures |sel| > n ==> |r| == n
  {
    if |sel| > n then sel[..n] else sel
  }

  /** Deselection removes exactly that id; the others keep their order. */
  lemma {:induction false} WithoutRemovesOne(p: seq<string>, id: string, q: seq<string>)
    requires id !in p && id !in q
    ensures Without(p + [id] + q, id) == p + q
  {
    var whole := p + [id] + q;
    if p == [] {
      assert whole[0] == id && whole[1..] == q;
      WithoutAbsent(q, id);
    } else {
      var tail := p[1..];
      assert whole[0] == p[0] && p[0] != id;
      assert whole[1..] == tail + [id] + q;
      WithoutRemovesOne(tail, id, q);
      assert Without(whole, id) == [p[0]] + Without(whole[1..], id);
      assert [p[0]] + (tail + q) == p + q;
    }
  }

  /** Filtering out an id that is not there changes nothing. */
  lemma {:induction false} WithoutAbsent(s: seq<string>, id: string)
    requires id !in s
    ensures Without(s, id) == s
  {
    if s != [] {
      WithoutAbsent(s[1..], id);
      assert [s[0]] + s[1..] == s;
    }
  }

  /**
   * A click keeps the selection within the count and free of duplicates,
   * and only the clicked id can join it, never when its seat is occupied.
   */
  lemma AfterClickInvariant(sel: seq<string>, count: int, id: string, occupied: bool)
    requires 1 <= count && |sel| <= count && NoDuplicates(sel)
    ensures |AfterClick(sel, count, id, occupied)| <= count
    ensures NoDuplicates(AfterClick(sel, count, id, occupied))
    ensures forall x :: x in AfterClick(sel, count, id, occupied) ==> x in sel || x == id
    ensures occupied ==> AfterClick(sel, count, id, occupied) == sel
    ensures !occupied ==> (id in AfterClick(sel, count, id, occupied) <==> id !in sel)
  {
    var r := AfterClick(sel, count, id, occupied);
    if !occupied && id !in sel && |sel| >= count {
      assert r == sel[1..] + [id];
      forall i, j | 0 <= i < j < |r| ensures r[i] != r[j] {
        if j < |r| - 1 {
          assert r[i] == sel[i + 1] && r[j] == sel[j + 1];
        } else {
          assert r[i] in sel;
        }
      }
      forall x | x in r ensures x in sel || x == id {
        if x != id {
          assert x in sel[1..];
        }
      }
    }
  }

  /** A count change keeps the oldest ids, within the new count. */
  lemma AfterCountChangeKeepsOldest(sel: seq<string>, n: nat)
    requires NoDuplicates(sel)
    ensures |AfterCountChange(sel, n)| <= n || AfterCountChange(sel, n) == sel
    ensures AfterCountChange(sel, n) == sel[..|AfterCountChange(sel, n)|]
    ensures NoDuplicates(AfterCountChange(sel, n))
    ensures |sel| <= n ==> AfterCountChange(sel, n) == sel
  {
  }

  /** Sliding window: with count 2, clicking free seats A, B, C leaves [B, C]. */
  lemma FifoEviction(a: string, b: string, c: string)
    requires a != b && b != c && a != c
    ensures AfterClick(AfterClick(AfterClick([], 2, a, false), 2, b, false), 2, c, false) == [b, c]
  {
    assert AfterClick([], 2, a, false) == [a];
    assert AfterClick([a], 2, b, false) == [a, b];
    assert [a, b][1..] + [c] == [b, c];
  }

  /** Example: lowering the count from three selected seats to one keeps the first. */
  lemma TruncateExample(a: string, b: string, c: string)
    ensures AfterCountChange([a, b, c], 1) == [a]
  {
  }

  /** The grid generator: Rows x SeatsPerRow cells, none selected. */
  method GenerateSeats(isOccupied: (nat, nat) -> bool) returns (seats: array2<Seat>)
    ensures fresh(seats)
    ensures seats.Length0 == Rows && seats.Length1 == SeatsPerRow
    ensures forall r, s :: 0 <= r < Rows && 0 <= s < SeatsPerRow ==> seats[r, s] == FreshSeat(isOccupied, r, s)
  {
    seats := new Seat[Rows, SeatsPerRow];
    for r := 0 to Rows
      invariant forall i, j :: 0 <= i < r && 0 <= j < SeatsPerRow ==> seats[i, j] == FreshSeat(isOccupied, i, j)
    {
      for s := 0 to SeatsPerRow
        invariant forall i, j :: 0 <= i < r && 0 <= j < SeatsPerRow ==> seats[i, j] == FreshSeat(isOccupied, i, j)
        invariant forall j :: 0 <= j < s ==> seats[r, j] == FreshSeat(isOccupied, r, j)
      {
        seats[r, s] := Seat(SeatId(r + 1, s + 1), r + 1, s + 1, isOccupied(r + 1, s + 1), false);
      }
    }
  }

  class SeatSelector {
    var seats: array2<Seat>
    var selectedSeats: seq<string>
    var seatCount: int

    /** The grid has its fixed shape and ids, and the flags mirror the list. */
    ghost predicate Valid()
      reads this, seats
    {
      && seats.Length0 == Rows && seats.Length1 == SeatsPerRow
      && 1 <= seatCount <= MaxSeatCount
      && |selectedSeats| <= seatCount
      && NoDuplicates(selectedSeats)
      && (forall i :: 0 <= i < |selectedSeats| ==> IsGridId(selectedSeats[i]))
      && (forall r, s :: 0 <= r < Rows && 0 <= s < SeatsPerRow ==>
            && seats[r, s].id == SeatId(r + 1, s + 1)
            && ParseSeatId(seats[r, s].id) == Some((r + 1, s + 1))
            && seats[r, s].row == r + 1 && seats[r, s].seat == s + 1)
      && (forall r, s :: 0 <= r < Rows && 0 <= s < SeatsPerRow ==>
            (seats[r, s].selected <==> seats[r, s].id in selectedSeats))
      && (forall r, s :: 0 <= r < Rows && 0 <= s < SeatsPerRow ==>
            seats[r, s].occupied ==> !seats[r, s].selected)
    }

    /** Opening the dialog: a fresh grid, nothing selected, count 1. */
    constructor (isOccupied: (nat, nat) -> bool)
      ensures Valid() && fresh(seats)
      ensures selectedSeats == [] && seatCount == 1
      ensures forall r, s :: 0 <= r < Rows && 0 <= s < SeatsPerRow ==> seats[r, s] == FreshSeat(isOccupied, r, s)
    {
      var grid := GenerateSeats(isOccupied);
      seats := grid;
      selectedSeats := [];
      seatCount := 1;
      new;
      forall r, s | 0 <= r < Rows && 0 <= s < SeatsPerRow
        ensures ParseSeatId(seats[r, s].id) == Some((r + 1, s + 1))
      {
        SeatIdRoundTrip(r + 1, s + 1);
      }
    }

    /** A click on the cell at 0-based (rowIndex, seatIndex). */
    method Click(rowIndex: nat, seatIndex: nat)
      requires Valid() && rowIndex < Rows && seatIndex < SeatsPerRow
      modifies this, seats
      ensures Valid() && seats == old(seats) && seatCount == old(seatCount)
      ensures selectedSeats == AfterClick(old(selectedSeats), seatCount,
                                          old(seats[rowIndex, seatIndex].id), old(seats[rowIndex, seatIndex].occupied))
      ensures forall r, s :: 0 <= r < Rows && 0 <= s < SeatsPerRow ==>
                seats[r, s] == old(seats[r, s]).(selected := seats[r, s].id in selectedSeats)
      ensures old(seats[rowIndex, seatIndex].occupied) ==> selectedSeats == old(selectedSeats) && unchanged(seats)
    {
      var seat := seats[rowIndex, seatIndex];
      if seat.occupied {
        return;
      }
      if seat.selected {
        Deselect(rowIndex, seatIndex);
      } else {
        if |selectedSeats| >= seatCount {
          EvictOldest();
        }
        Append(rowIndex, seatIndex);
      }
    }

    /** Deselecting a selected cell: clear its flag, filter its id out. */
    method Deselect(rowIndex: nat, seatIndex: nat)
      requires Valid() && rowIndex < Rows && seatIndex < SeatsPerRow
      requires seats[rowIndex, seatIndex].selected
      modifies this, seats
      ensures Valid() && seats == old(seats) && seatCount == old(seatCount)
      ensures selectedSeats == Without(old(selectedSeats), old(seats[rowIndex, seatIndex].id))
      ensures forall r, s :: 0 <= r < Rows && 0 <= s < SeatsPerRow ==>
                seats[r, s] == old(seats[r, s]).(selected := seats[r, s].id in selectedSeats)
    {
      var seat := seats[rowIndex, seatIndex];
      ghost var before := selectedSeats;
      seats[rowIndex, seatIndex] := seat.(selected := false);
      selectedSeats := Without(selectedSeats, seat.id);
      assert forall i :: 0 <= i < |selectedSeats| ==> selectedSeats[i] in before;
      forall r, s | 0 <= r < Rows && 0 <= s < SeatsPerRow
        ensures seats[r, s] == old(seats[r, s]).(selected := seats[r, s].id in selectedSeats)
      {
        if r != rowIndex || s != seatIndex {
          assert seats[r, s].id != seat.id;
        }
      }
    }

    /** Evicting the oldest id: parse it back to a cell and clear that cell's flag. */
    method EvictOldest()
      requires Valid() && selectedSeats != []
      modifies this, seats
      ensures Valid() && seats == old(seats) && seatCount == old(seatCount)
      ensures selectedSeats == old(selectedSeats)[1..]
      ensures forall r, s :: 0 <= r < Rows && 0 <= s < SeatsPerRow ==>
                seats[r, s] == old(seats[r, s]).(selected := seats[r, s].id in selectedSeats)
    {
      var first := selectedSeats[0];
      assert IsGridId(first);
      var cell := ParseSeatId(first).value;
      var firstRow, firstSeat := cell.0, cell.1;
      ghost var before := selectedSeats;
      seats[firstRow - 1, firstSeat - 1] := seats[firstRow - 1, firstSeat - 1].(selected := false);
      selectedSeats := selectedSeats[1..];
      assert first !in selectedSeats;
      assert forall x :: x in before <==> x == first || x in selectedSeats;
      forall r, s | 0 <= r < Rows && 0 <= s < SeatsPerRow
        ensures seats[r, s] == old(seats[r, s]).(selected := seats[r, s].id in selectedSeats)
      {
        if r != firstRow - 1 || s != firstSeat - 1 {
          assert seats[r, s].id != first;
        }
      }
    }

    /** Selecting a free, unselected cell when there is room: set its flag, append its id. */
    method Append(rowIndex: nat, seatIndex: nat)
      requires Valid() && rowIndex < Rows && seatIndex < SeatsPerRow
      requires !seats[rowIndex, seatIndex].occupied && !seats[rowIndex, seatIndex].selected
      requires |selectedSeats| < seatCount
      modifies this, seats
      ensures Valid() && seats == old(seats) && seatCount == old(seatCount)
      ensures selectedSeats == old(selectedSeats) + [old(seats[rowIndex, seatIndex].id)]
      ensures forall r, s :: 0 <= r < Rows && 0 <= s < SeatsPerRow ==>
                seats[r, s] == old(seats[r, s]).(selected := seats[r, s].id in selectedSeats)
    {
      var seat := seats[rowIndex, seatIndex];
      ghost var before := selectedSeats;
      seats[rowIndex, seatIndex] := seat.(selected := true);
      selectedSeats := selectedSeats + [seat.id];
      SeatIdRoundTrip(rowIndex + 1, seatIndex + 1);
      assert IsGridId(seat.id);
      assert forall x :: x in selectedSeats <==> x == seat.id || x in before;
      forall r, s | 0 <= r < Rows && 0 <= s < SeatsPerRow
        ensures seats[r, s] == old(seats[r, s]).(selected := seats[r, s].id in selectedSeats)
      {
        if r != rowIndex || s != seatIndex {
          assert seats[r, s].id != seat.id;
        }
      }
    }

    /** `seats.map(s => ({...s, selected: selectedSeats.includes(s.id)}))`, cell by cell. */
    method RefreshFlags()
      requires seats.Length0 == Rows && seats.Length1 == SeatsPerRow
      modifies seats
      ensures forall r, s :: 0 <= r < Rows && 0 <= s < SeatsPerRow ==>
                seats[r, s] == old(seats[r, s]).(selected := old(seats[r, s]).id in selectedSeats)
    {
      for r := 0 to Rows
        invariant forall i, j :: 0 <= i < Rows && 0 <= j < SeatsPerRow ==>
                    seats[i, j] == old(seats[i, j]).(selected := if i < r then old(seats[i, j]).id in selectedSeats else old(seats[i, j]).selected)
      {
        for s := 0 to SeatsPerRow
          invariant forall i, j :: 0 <= i < Rows && 0 <= j < SeatsPerRow ==>
                      seats[i, j] == old(seats[i, j]).(selected :=
                        if i < r || (i == r && j < s) then old(seats[i, j]).id in selectedSeats else old(seats[i, j]).selected)
        {
          seats[r, s] := seats[r, s].(selected := seats[r, s].id in selectedSeats);
        }
      }
    }

    /** The count picker: set the count, keep the oldest ids, refresh every flag. */
    method SetSeatCount(newCount: int)
      requires Valid() && 1 <= newCount <= MaxSeatCount
      modifies this, seats
      ensures Valid() && seats == old(seats) && seatCount == newCount
      ensures selectedSeats == AfterCountChange(old(selectedSeats), newCount)
      ensures forall r, s :: 0 <= r < Rows && 0 <= s < SeatsPerRow ==>
                seats[r, s] == old(seats[r, s]).(selected := seats[r, s].id in selectedSeats)
      ensures |old(selectedSeats)| <= newCount ==> selectedSeats == old(selectedSeats) && unchanged(seats)
    {
      seatCount := newCount;
      if |selectedSeats| > newCount {
        ghost var before := selectedSeats;
        var kept := selectedSeats[..newCount];
        assert forall i :: 0 <= i < |kept| ==> kept[i] == before[i];
        assert forall x :: x in kept ==> x in before;
        selectedSeats := kept;
        RefreshFlags();
      }
    }

    /** The confirm button's `disabled` test, negated. */
    predicate CanConfirm()
      reads this
    {
      |selectedSeats| == seatCount
    }

    /** The confirm handler: the payload, or nothing when the counts differ. */
    function Confirm(movieId: int): (r: Option<Confirmation>)
      reads this
      ensures r.Some? <==> |selectedSeats| == seatCount
      ensures r.Some? ==> r.value.movieId == movieId && r.value.selectedSeats == selectedSeats
                          && r.value.seatsSelected == |r.value.selectedSeats|
    {
      if |selectedSeats| == seatCount then Some(Confirmation(movieId, seatCount, selectedSeats)) else None
    }
  }

  /**
   * A confirmed payload lists seatCount distinct, free seats of the grid,
   * and the confirm button is enabled exactly when a payload is produced.
   */
  lemma ConfirmSound(sel: SeatSelector, movieId: int)
    requires sel.Valid()
    ensures sel.CanConfirm() <==> sel.Confirm(movieId).Some?
    ensures sel.Confirm(movieId).Some? ==>
              var c := sel.Confirm(movieId).value;
              && 1 <= c.seatsSelected <= MaxSeatCount
              && NoDuplicates(c.selectedSeats)
              && forall i :: 0 <= i < |c.selectedSeats| ==>
                   IsGridId(c.selectedSeats[i]) && !SeatAt(sel, c.selectedSeats[i]).occupied
  {
    forall i | 0 <= i < |sel.selectedSeats| ensures !SeatAt(sel, sel.selectedSeats[i]).occupied {
      var id := sel.selectedSeats[i];
      assert IsGridId(id);
      var p := ParseSeatId(id).value;
      assert sel.seats[p.0 - 1, p.1 - 1].id == id;
    }
  }

  /** The cell an id points at, as the eviction code locates it. */
  function SeatAt(sel: SeatSelector, id: string): Seat
    reads sel, sel.seats
    requires sel.Valid() && IsGridId(id)
  {
    var p := ParseSeatId(id).value;
    sel.seats[p.0 - 1, p.1 - 1]
  }
}
