/** Seat selection: the 5 x 10 grid of seat ids, the occupancy test the grid
    uses to disable taken seats (`is_seat_booked`), the one-seat toggle
    (`toggle_seat`) and the exactly-one-seat guard of the Confirm button. */
module Seats {
  import opened Text
  import opened Store

  const Rows: nat := 5
  const Columns: nat := 10

  /** `f"{row+1}{chr(65+col)}"`: a row digit `1`..`5` then a column letter `A`..`J`. */
  function SeatId(row: nat, col: nat): (id: string)
    requires row < Rows && col < Columns
  {
    [(('1' as int) + row) as char, (('A' as int) + col) as char]
  }

  /** The ids the grid shows: two characters, a digit `1`..`5` and a letter `A`..`J`. */
  predicate IsGridSeat(s: string) {
    |s| == 2 && '1' <= s[0] <= '5' && 'A' <= s[1] <= 'J'
  }

  /** The grid ids are exactly the strings of grid shape, one per (row, column). */
  lemma SeatIdOnto(s: string)
    ensures IsGridSeat(s) <==>
      exists row, col :: 0 <= row < Rows && 0 <= col < Columns && SeatId(row, col) == s
  {
    if IsGridSeat(s) {
      var row := (s[0] as int) - ('1' as int);
      var col := (s[1] as int) - ('A' as int);
      assert SeatId(row, col) == s;
    }
  }

  lemma SeatIdInjective(r1: nat, c1: nat, r2: nat, c2: nat)
    requires r1 < Rows && c1 < Columns && r2 < Rows && c2 < Columns
    ensures SeatId(r1, c1) == SeatId(r2, c2) <==> r1 == r2 && c1 == c2
  {
    if SeatId(r1, c1) == SeatId(r2, c2) {
      assert SeatId(r1, c1)[0] == SeatId(r2, c2)[0];
      assert SeatId(r1, c1)[1] == SeatId(r2, c2)[1];
    }
  }

  /** `is_seat_booked`: some active row's seat contains `id`, the way
      `seat LIKE '%' || id || '%'` matches. */
  predicate IsSeatBooked(t: Table, id: string) {
    exists x :: x in t && x.status == Active && x.seat.Some? && LikeContains(x.seat.value, id)
  }

  /** A seat an active row holds is always reported booked, and nothing is
      booked on a table without active rows. */
  lemma HeldSeatIsBooked(t: Table, id: string)
    ensures |Filter(t, ActiveOnSeat(id))| > 0 ==> IsSeatBooked(t, id)
    ensures IsSeatBooked(t, id) ==> |Filter(t, ActiveOnly)| > 0
  {
    FilterMembers(t, ActiveOnly);
    if |Filter(t, ActiveOnSeat(id))| > 0 {
      FilterMembers(t, ActiveOnSeat(id));
      var x := Filter(t, ActiveOnSeat(id))[0];
      assert x in Filter(t, ActiveOnSeat(id));
      assert OccursAt(x.seat.value, id, 0);
    }
    if IsSeatBooked(t, id) {
      var x :| x in t && x.status == Active && x.seat.Some? && LikeContains(x.seat.value, id);
      assert x in Filter(t, ActiveOnly);
    }
  }

  /** Every seat an active row holds is one of the grid's ids, as it is when the
      seat always comes from a grid button. */
  ghost predicate GridSeatsOnly(t: Table) {
    forall x :: x in t && x.status == Active && x.seat.Some? ==> IsGridSeat(x.seat.value)
  }

  /** For grid ids the substring test is plain equality: a two-character grid id
      occurs in another grid id only when the two are the same. */
  lemma GridSeatBookedIff(t: Table, id: string)
    requires IsGridSeat(id) && GridSeatsOnly(t)
    ensures IsSeatBooked(t, id) <==> exists x :: x in t && x.status == Active && x.seat == Some(id)
  {
    if IsSeatBooked(t, id) {
      var x :| x in t && x.status == Active && x.seat.Some? && LikeContains(x.seat.value, id);
      var s := x.seat.value;
      var i :| OccursAt(s, id, i);
      assert i == 0;
      assert FoldAscii(s[0]) == FoldAscii(id[0]) && FoldAscii(s[1]) == FoldAscii(id[1]);
      assert s == id;
    }
    if x :| x in t && x.status == Active && x.seat == Some(id) {
      assert OccursAt(id, id, 0);
    }
  }

  /** One button of the seat grid: its id and whether it is disabled as booked. */
  datatype SeatButton = SeatButton(id: string, booked: bool)

  /** The grid `seat_selection` lays out, row by row, each seat marked booked
      exactly when `is_seat_booked` says so. */
  method SeatGrid(t: Table) returns (buttons: seq<SeatButton>)
    ensures |buttons| == Rows * Columns
    ensures forall row, col :: 0 <= row < Rows && 0 <= col < Columns ==>
              buttons[row * Columns + col] == SeatButton(SeatId(row, col), IsSeatBooked(t, SeatId(row, col)))
  {
    buttons := [];
    var row := 0;
    while row < Rows
      invariant 0 <= row <= Rows
      invariant |buttons| == row * Columns
      invariant forall r, c :: 0 <= r < row && 0 <= c < Columns ==>
                  buttons[r * Columns + c] == SeatButton(SeatId(r, c), IsSeatBooked(t, SeatId(r, c)))
    {
      var col := 0;
      while col < Columns
        invariant 0 <= col <= Columns
        invariant |buttons| == row * Columns + col
        invariant forall r, c :: 0 <= r < row && 0 <= c < Columns ==>
                    buttons[r * Columns + c] == SeatButton(SeatId(r, c), IsSeatBooked(t, SeatId(r, c)))
        invariant forall c :: 0 <= c < col ==>
                    buttons[row * Columns + c] == SeatButton(SeatId(row, c), IsSeatBooked(t, SeatId(row, c)))
      {
        var id := SeatId(row, col);
        buttons := buttons + [SeatButton(id, IsSeatBooked(t, id))];
        col := col + 1;
      }
      row := row + 1;
    }
  }

  /** The grid shows fifty distinct ids. */
  lemma GridIdsDistinct(i: nat, j: nat)
    requires i < Rows * Columns && j < Rows * Columns && i != j
    ensures SeatId(i / Columns, i % Columns) != SeatId(j / Columns, j % Columns)
  {
    SeatIdInjective(i / Columns, i % Columns, j / Columns, j % Columns);
  }

  datatype ToggleOutcome = Deselected | Selected | OnlyOneSeat

  datatype Toggled = Toggled(outcome: ToggleOutcome, selected: seq<string>)

  /** Python's `list.remove`: drops the first occurrence of `x`. */
  function RemoveFirst(s: seq<string>, x: string): (r: seq<string>)
    requires x in s
    ensures |r| == |s| - 1
    ensures multiset(r) == multiset(s) - multiset{x}
  {
    assert s == [s[0]] + s[1..];
    if s[0] == x then s[1..] else [s[0]] + RemoveFirst(s[1..], x)
  }

  /** `toggle_seat`: a selected seat is deselected, a seat is selected into an
      empty list, and any other click leaves the list as it was with a warning. */
  function ToggleSeat(id: string, selected: seq<string>): (r: Toggled)
    ensures id in selected ==>
              r.outcome == Deselected && multiset(r.selected) == multiset(selected) - multiset{id}
    ensures id !in selected && selected == [] ==> r.outcome == Selected && r.selected == [id]
    ensures id !in selected && selected != [] ==> r.outcome == OnlyOneSeat && r.selected == selected
    ensures selected == [id] ==> r.selected == []
    ensures |selected| <= 1 ==> |r.selected| <= 1
  {
    if id in selected then Toggled(Deselected, RemoveFirst(selected, id))
    else if |selected| == 0 then Toggled(Selected, selected + [id])
    else Toggled(OnlyOneSeat, selected)
  }

  /** Clicking the same seat twice from an empty selection gives the empty
      selection back. */
  lemma ToggleTwiceRestores(id: string)
    ensures ToggleSeat(id, ToggleSeat(id, []).selected).selected == []
  {
    var once := ToggleSeat(id, []).selected;
    assert once == [id];
  }

  /** The selection after clicking the given seats in order. */
  function ClickAll(selected: seq<string>, clicks: seq<string>): seq<string>
    decreases |clicks|
  {
    if clicks == [] then selected else ClickAll(ToggleSeat(clicks[0], selected).selected, clicks[1..])
  }

  /** However the grid is clicked, at most one seat is ever selected. */
  lemma {:induction false} ClicksKeepOneSeat(selected: seq<string>, clicks: seq<string>)
    requires |selected| <= 1
    ensures |ClickAll(selected, clicks)| <= 1
    decreases |clicks|
  {
    if clicks != [] {
      ClicksKeepOneSeat(ToggleSeat(clicks[0], selected).selected, clicks[1..]);
    }
  }

  /** `handle_ticket_details`, the Confirm button: goes on to the detail form with
      the one selected seat, and refuses any other number of seats. */
  function ConfirmSeat(selected: seq<string>): (r: Option<string>)
    ensures r.Some? <==> |selected| == 1
    ensures r.Some? ==> selected == [r.value]
  {
    if |selected| != 1 then None else Some(selected[0])
  }
}
