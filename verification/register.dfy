/** The registration window as one state machine: each button that changes the
    window's state (Request OTP, Verify OTP, Regenerate OTP, Generate Ticket) is
    an event, and the table invariants hold along every run of events. */
module Register {
  import Text
  import opened Store
  import Otp
  import Seats
  import Booking

  datatype Event =
    | RequestCode(phone: string, draw: int, now: int, smsOk: bool)
    | EnterCode(phone: string, entered: string, now: int, draw: int, smsOk: bool)
    | NewCode(phone: string, draw: int, now: int, smsOk: bool)
    | SubmitDetails(phone: string, entry: Booking.Entry, draw: int, smsOk: bool)

  /** What the window can hand to a callback: a six-digit draw, and a submitted
      seat that is one of the grid's buttons (the detail form receives
      `selected_seats[0]`, and only grid buttons add to that list). */
  predicate WellFormed(ev: Event) {
    Otp.IsDraw(ev.draw) && (ev.SubmitDetails? ==> Seats.IsGridSeat(ev.entry.seat))
  }

  /** The window's state after one button press. */
  function Apply(s: State, ev: Event): State
    requires WellFormed(ev)
  {
    match ev
    case RequestCode(phone, draw, now, smsOk) => Otp.RequestOtp(s, phone, draw, now, smsOk).state
    case EnterCode(phone, entered, now, draw, smsOk) => Otp.HandleVerifyOtp(s, phone, entered, now, draw, smsOk).state
    case NewCode(phone, draw, now, smsOk) => Otp.RegenerateOtp(s, phone, draw, now, smsOk).state
    case SubmitDetails(phone, entry, draw, smsOk) =>
      s.(table := Booking.ValidateTicketDetails(s.table, phone, entry, draw, smsOk).table)
  }

  predicate EventsOk(evs: seq<Event>) {
    forall i :: 0 <= i < |evs| ==> WellFormed(evs[i])
  }

  function Run(s: State, evs: seq<Event>): State
    requires EventsOk(evs)
    decreases |evs|
  {
    if evs == [] then s else Run(Apply(s, evs[0]), evs[1..])
  }

  /** What every reachable table satisfies: ticket text exactly on active rows,
      at most one pending row per phone, at most one active row per college ID,
      and every held seat a grid id. */
  ghost predicate Invariant(s: State) {
    Consistent(s.table) && CollegeIdsUnique(s.table) && Seats.GridSeatsOnly(s.table)
  }

  /** A window opened on an empty table starts in the invariant. */
  lemma InitialInvariant()
    ensures Invariant(State([], Otp.AttemptsLimit, None))
  {
    forall p ensures |Filter([], PendingOf(p))| <= 1 {
    }
    forall c ensures |Filter([], ActiveWithCollegeId(c))| <= 1 {
    }
  }

  /** Every button press keeps the invariant, and no press other than Generate
      Ticket changes which rows are active. */
  lemma ApplyKeepsInvariant(s: State, ev: Event)
    requires WellFormed(ev) && Invariant(s)
    ensures Invariant(Apply(s, ev))
    ensures !ev.SubmitDetails? ==> Filter(Apply(s, ev).table, ActiveOnly) == Filter(s.table, ActiveOnly)
  {
    match ev
    case RequestCode(phone, draw, now, smsOk) =>
      if !Text.IsBlank(phone) {
        Otp.SendOtpKeepsActive(s, phone, draw, now, smsOk);
        ActiveRowsDecideIds(s.table, Apply(s, ev).table);
      }
    case EnterCode(phone, entered, now, draw, smsOk) =>
    case NewCode(phone, draw, now, smsOk) =>
      Otp.RegenerateOtpKeepsActive(s, phone, draw, now, smsOk);
      ActiveRowsDecideIds(s.table, Apply(s, ev).table);
    case SubmitDetails(phone, entry, draw, smsOk) =>
      Booking.ValidateKeepsInvariants(s.table, phone, entry, draw, smsOk);
      var v := Booking.ValidateTicketDetails(s.table, phone, entry, draw, smsOk);
      if v.outcome.Issued? {
        ActivateKeepsGridSeats(s.table, phone, entry, v.outcome.ticket);
      }
  }

  /** Which college IDs are held is decided by the active rows alone. */
  lemma ActiveRowsDecideIds(t: Table, u: Table)
    requires Filter(u, ActiveOnly) == Filter(t, ActiveOnly) && CollegeIdsUnique(t) && Seats.GridSeatsOnly(t)
    ensures CollegeIdsUnique(u) && Seats.GridSeatsOnly(u)
  {
    forall c ensures |Filter(u, ActiveWithCollegeId(c))| <= 1 {
      FilterNarrow(t, ActiveOnly, ActiveWithCollegeId(c));
      FilterNarrow(u, ActiveOnly, ActiveWithCollegeId(c));
    }
    FilterMembers(t, ActiveOnly);
    FilterMembers(u, ActiveOnly);
  }

  /** Activating a phone's pending rows on a grid seat keeps every held seat a
      grid id. */
  lemma ActivateKeepsGridSeats(t: Table, phone: string, e: Booking.Entry, ticket: Booking.Ticket)
    requires Seats.GridSeatsOnly(t) && Seats.IsGridSeat(e.seat)
    ensures Seats.GridSeatsOnly(Booking.ActivatePending(t, phone, e, ticket))
  {
    var u := Booking.ActivatePending(t, phone, e, ticket);
    forall x | x in u && x.status == Active && x.seat.Some?
      ensures Seats.IsGridSeat(x.seat.value)
    {
      var i :| 0 <= i < |u| && u[i] == x;
      assert t[i] in t;
    }
  }

  /** Along any run of button presses the invariant holds. */
  lemma {:induction false} RunKeepsInvariant(s: State, evs: seq<Event>)
    requires EventsOk(evs) && Invariant(s)
    ensures Invariant(Run(s, evs))
    decreases |evs|
  {
    if evs != [] {
      ApplyKeepsInvariant(s, evs[0]);
      RunKeepsInvariant(Apply(s, evs[0]), evs[1..]);
    }
  }

  /** Along any run of button presses the grid shows a seat as taken exactly
      when an active row holds that very seat. */
  lemma RunBookedIff(s: State, evs: seq<Event>, id: string)
    requires EventsOk(evs) && Invariant(s) && Seats.IsGridSeat(id)
    ensures Seats.IsSeatBooked(Run(s, evs).table, id) <==>
              exists x :: x in Run(s, evs).table && x.status == Active && x.seat == Some(id)
  {
    RunKeepsInvariant(s, evs);
    Seats.GridSeatBookedIff(Run(s, evs).table, id);
  }
}
