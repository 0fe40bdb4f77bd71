/** Turning a verified phone's pending row into a ticket: the booking id
    (`generate_booking_id`), the checks of the detail form
    (`validate_ticket_details`) and the table update that activates the row
    (`generate_ticket`). The booking number and the SMS gateway's answer are
    parameters. */
module Booking {
  import opened Text
  import opened Store
  import Otp

  /** `generate_booking_id`: `BK` followed by a six-digit draw. */
  function BookingId(draw: int): (id: string)
    requires Otp.IsDraw(draw)
    ensures IsBookingId(id) && ParseBookingId(id) == draw
  {
    var digits := Otp.SixDigitString(draw);
    assert ("BK" + digits)[2..] == digits;
    "BK" + digits
  }

  /** The shape of every booking id: `BK` and six digits, the first not zero. */
  predicate IsBookingId(s: string) {
    |s| == 8 && s[0] == 'B' && s[1] == 'K' && Otp.IsSixDigits(s[2..])
  }

  function ParseBookingId(s: string): int
    requires IsBookingId(s)
  {
    ParseDecimal(s[2..])
  }

  /** Every string of booking-id shape is the id of exactly one draw. */
  lemma BookingIdOnto(s: string)
    requires IsBookingId(s)
    ensures Otp.IsDraw(ParseBookingId(s)) && BookingId(ParseBookingId(s)) == s
  {
    Otp.SixDigitStringOnto(s[2..]);
    assert s == "BK" + s[2..];
  }

  predicate IsNameChar(c: char) {
    IsAsciiLetter(c) || IsSpace(c)
  }

  /** `re.match(r'^[a-zA-Z\s]+$', name)`. The class holds the newline, so the
      final-newline allowance of `$` adds nothing here. */
  predicate NamePatternMatches(name: string) {
    |name| >= 1 && forall i :: 0 <= i < |name| ==> IsNameChar(name[i])
  }

  /** The name check: not blank after `strip()`, and matching the pattern. */
  predicate ValidName(name: string) {
    !IsBlank(name) && NamePatternMatches(name)
  }

  /** A name passes exactly when it is made of ASCII letters and whitespace and
      holds at least one letter. */
  lemma ValidNameIff(name: string)
    ensures ValidName(name) <==>
      (forall i :: 0 <= i < |name| ==> IsNameChar(name[i])) &&
      (exists i :: 0 <= i < |name| && IsAsciiLetter(name[i]))
  {
    if ValidName(name) {
      var i :| 0 <= i < |name| && !IsSpace(name[i]);
      assert IsNameChar(name[i]);
    }
    if i :| 0 <= i < |name| && IsAsciiLetter(name[i]) {
      assert !IsSpace(name[i]);
    }
  }

  /** The college-ID check: not blank after `strip()`, and of the shape
      `NNNN-NN-NNN-NNN`, optionally followed by one newline. */
  predicate ValidCollegeId(cid: string) {
    !IsBlank(cid) && (CollegeIdShape(cid) || (|cid| == 16 && cid[15] == '\n' && CollegeIdShape(cid[..15])))
  }

  /** The check is the `strip()` test of `validate_ticket_details` plus `re.match` of
      `^\d{4}-\d{2}-\d{3}-\d{3}$`, and the blank test adds nothing to the match. */
  lemma ValidCollegeIdIff(cid: string)
    ensures ValidCollegeId(cid) <==> !IsBlank(cid) && RegexFullMatch(CollegeIdPattern, cid)
    ensures ValidCollegeId(cid) <==> RegexFullMatch(CollegeIdPattern, cid)
  {
    CollegeIdRegexIff(cid);
    if |cid| >= 1 && IsDigit(cid[0]) {
      assert !IsSpace(cid[0]);
    }
  }

  /** `SELECT 1 FROM tickets WHERE college_id=? AND status='active'` finds a row. */
  predicate CollegeIdActive(t: Table, cid: string) {
    exists x :: x in t && x.status == Active && x.collegeId == Some(cid)
  }

  /** The duplicate-ID query finds a row exactly when the college ID has an
      active holder. */
  lemma CollegeIdActiveIff(t: Table, cid: string)
    ensures CollegeIdActive(t, cid) <==> |Filter(t, ActiveWithCollegeId(cid))| > 0
  {
    SelectedIff(t, ActiveWithCollegeId(cid));
  }

  /** The ticket text `generate_ticket` stores and sends; it opens with the
      booking id. */
  function TicketText(bookingId: string, name: string, phone: string, cid: string,
                      timeslot: string, seat: string): (text: string)
    ensures |text| >= 13 + |bookingId|
    ensures text[..13] == "\nBooking ID: " && text[13..13 + |bookingId|] == bookingId
  {
    var head := "\nBooking ID: " + bookingId;
    var text := head + "\nName: " + name + "\nPhone Number: " + phone + "\nCollege ID: " + cid +
                "\nTimeslot: " + timeslot + "\nSeat: " + seat + "\n";
    assert text[..|head|] == head;
    text
  }

  /** The ticket a successful commit shows and sends. */
  datatype Ticket = Ticket(bookingId: string, details: string)

  /** The fields the UPDATE of `generate_ticket` writes into a pending row. */
  datatype Entry = Entry(name: string, timeslot: string, seat: string, collegeId: string)

  function Activate(row: Row, e: Entry, ticket: Ticket): Row {
    row.(name := Some(e.name), ticketDetails := Some(ticket.details), bookingId := Some(ticket.bookingId),
         numTickets := Some(1), status := Active, timeslot := Some(e.timeslot), seat := Some(e.seat),
         collegeId := Some(e.collegeId))
  }

  /** `UPDATE tickets SET ... status='active' ... WHERE phone_number=? AND
      status='pending'`: every pending row of the phone is activated in place. */
  function ActivatePending(t: Table, phone: string, e: Entry, ticket: Ticket): (r: Table)
    ensures |r| == |t|
    ensures forall i :: 0 <= i < |t| && Selects(PendingOf(phone), t[i]) ==> r[i] == Activate(t[i], e, ticket)
    ensures forall i :: 0 <= i < |t| && !Selects(PendingOf(phone), t[i]) ==> r[i] == t[i]
  {
    if t == [] then []
    else [if Selects(PendingOf(phone), t[0]) then Activate(t[0], e, ticket) else t[0]]
         + ActivatePending(t[1..], phone, e, ticket)
  }

  /** After the update the phone has no pending row, and every other selection
      of pending rows is as before. */
  lemma {:induction false} ActivatePendingFilter(t: Table, phone: string, e: Entry, ticket: Ticket, p: string)
    ensures Filter(ActivatePending(t, phone, e, ticket), PendingOf(p)) ==
              if p == phone then [] else Filter(t, PendingOf(p))
    ensures Filter(ActivatePending(t, phone, e, ticket), OtherPhone(phone)) == Filter(t, OtherPhone(phone))
  {
    if t != [] {
      var r := ActivatePending(t, phone, e, ticket);
      ActivatePendingFilter(t[1..], phone, e, ticket, p);
      assert r[1..] == ActivatePending(t[1..], phone, e, ticket);
    }
  }

  datatype Generated = Generated(table: Table, ticket: Ticket)

  /** `generate_ticket`: draws a booking id, builds the ticket text and activates
      the phone's pending rows with the entered details. There is no check that
      the seat is still free. */
  function GenerateTicket(t: Table, phone: string, e: Entry, draw: int): (r: Generated)
    requires Otp.IsDraw(draw)
    ensures IsBookingId(r.ticket.bookingId) && ParseBookingId(r.ticket.bookingId) == draw
    ensures r.ticket.details == TicketText(r.ticket.bookingId, e.name, phone, e.collegeId, e.timeslot, e.seat)
    ensures r.table == ActivatePending(t, phone, e, r.ticket)
  {
    var id := BookingId(draw);
    var ticket := Ticket(id, TicketText(id, e.name, phone, e.collegeId, e.timeslot, e.seat));
    Generated(ActivatePending(t, phone, e, ticket), ticket)
  }

  /** Activation adds the phone's pending rows to the active holders of the
      entered college ID and leaves the holders of every other college ID alone. */
  lemma {:induction false} ActivatePendingHolders(t: Table, phone: string, e: Entry, ticket: Ticket, c: string)
    ensures |Filter(ActivatePending(t, phone, e, ticket), ActiveWithCollegeId(c))| ==
              |Filter(t, ActiveWithCollegeId(c))| + (if c == e.collegeId then |Filter(t, PendingOf(phone))| else 0)
  {
    if t != [] {
      var r := ActivatePending(t, phone, e, ticket);
      ActivatePendingHolders(t[1..], phone, e, ticket, c);
      assert r[1..] == ActivatePending(t[1..], phone, e, ticket);
    }
  }

  /** Activation keeps the table consistent and, when the college ID was not
      already active, keeps college IDs unique among active rows. */
  lemma GenerateTicketKeepsInvariants(t: Table, phone: string, e: Entry, draw: int)
    requires Otp.IsDraw(draw) && Consistent(t)
    ensures Consistent(GenerateTicket(t, phone, e, draw).table)
    ensures CollegeIdsUnique(t) && !CollegeIdActive(t, e.collegeId) ==>
              CollegeIdsUnique(GenerateTicket(t, phone, e, draw).table)
  {
    var g := GenerateTicket(t, phone, e, draw);
    var r := g.table;
    forall p ensures |Filter(r, PendingOf(p))| <= 1 {
      ActivatePendingFilter(t, phone, e, g.ticket, p);
    }
    if CollegeIdsUnique(t) && !CollegeIdActive(t, e.collegeId) {
      forall c ensures |Filter(r, ActiveWithCollegeId(c))| <= 1 {
        ActivatePendingHolders(t, phone, e, g.ticket, c);
        if c == e.collegeId {
          FilterEmpty(t, ActiveWithCollegeId(c));
          assert |Filter(t, PendingOf(phone))| <= 1;
        }
      }
    }
  }

  /** A commit does not look at seat occupancy: activating a pending row for a
      seat an active row already holds leaves two active rows on that seat. */
  lemma SeatNotRechecked(draw: int)
    requires Otp.IsDraw(draw)
    ensures var held := Row("+910000000001", Some("Ann"), "111111", 0, Some("ticket"), Some("BK111111"),
                            Some(1), Active, Some("10:00 AM - 1:00 PM"), Some("3C"), Some("1602-23-737-012"));
      var waiting := Otp.PendingRow("+910000000002", "222222", 10);
      var t := [held, waiting];
      var e := Entry("Bob", "2:00 PM - 5:00 PM", "3C", "1602-23-737-013");
      SeatsUnique(t) && !SeatsUnique(GenerateTicket(t, "+910000000002", e, draw).table)
  {
    var held := Row("+910000000001", Some("Ann"), "111111", 0, Some("ticket"), Some("BK111111"),
                    Some(1), Active, Some("10:00 AM - 1:00 PM"), Some("3C"), Some("1602-23-737-012"));
    var waiting := Otp.PendingRow("+910000000002", "222222", 10);
    var t := [held, waiting];
    var e := Entry("Bob", "2:00 PM - 5:00 PM", "3C", "1602-23-737-013");
    var r := GenerateTicket(t, "+910000000002", e, draw).table;
    assert Selects(PendingOf("+910000000002"), t[1]);
    assert r[0] == held && r[1].status == Active && r[1].seat == Some("3C");
    assert Filter(t, ActiveOnSeat("3C")) == [held];
    forall x ensures |Filter(t, ActiveOnSeat(x))| <= 1 {
      assert t[1..] == [waiting] && t[1..][1..] == [];
    }
    TwoSelectedRows(r, ActiveOnSeat("3C"), 0, 1);
  }

  datatype TicketOutcome =
    | InvalidName
    | InvalidCollegeId
    | MissingTimeslot
    | DuplicateCollegeId
    | Issued(ticket: Ticket, delivered: bool)

  datatype Validated = Validated(outcome: TicketOutcome, table: Table)

  /** `validate_ticket_details`, the Generate Ticket button: the name, the college
      ID, the timeslot and the uniqueness of the college ID among active rows are
      checked in that order, the first failure stops with the table untouched,
      and only when all pass is the ticket generated and handed to the SMS
      gateway, whose failure does not undo the commit. */
  function ValidateTicketDetails(t: Table, phone: string, e: Entry, draw: int, smsOk: bool): (r: Validated)
    requires Otp.IsDraw(draw)
    ensures !ValidName(e.name) ==> r == Validated(InvalidName, t)
    ensures ValidName(e.name) && !ValidCollegeId(e.collegeId) ==> r == Validated(InvalidCollegeId, t)
    ensures ValidName(e.name) && ValidCollegeId(e.collegeId) && e.timeslot == [] ==>
              r == Validated(MissingTimeslot, t)
    ensures (ValidName(e.name) && ValidCollegeId(e.collegeId) && e.timeslot != [] &&
             CollegeIdActive(t, e.collegeId)) ==> r == Validated(DuplicateCollegeId, t)
    ensures r.outcome.Issued? <==>
              ValidName(e.name) && ValidCollegeId(e.collegeId) && e.timeslot != [] && !CollegeIdActive(t, e.collegeId)
    ensures r.outcome.Issued? ==>
              && r.outcome.ticket == GenerateTicket(t, phone, e, draw).ticket
              && r.table == GenerateTicket(t, phone, e, draw).table
              && r.outcome.delivered == smsOk
  {
    if !ValidName(e.name) then Validated(InvalidName, t)
    else if !ValidCollegeId(e.collegeId) then Validated(InvalidCollegeId, t)
    else if e.timeslot == [] then Validated(MissingTimeslot, t)
    else if CollegeIdActive(t, e.collegeId) then Validated(DuplicateCollegeId, t)
    else
      var g := GenerateTicket(t, phone, e, draw);
      Validated(Issued(g.ticket, smsOk), g.table)
  }

  /** The detail form keeps the table consistent and college IDs unique among
      active rows. */
  lemma ValidateKeepsInvariants(t: Table, phone: string, e: Entry, draw: int, smsOk: bool)
    requires Otp.IsDraw(draw) && Consistent(t) && CollegeIdsUnique(t)
    ensures Consistent(ValidateTicketDetails(t, phone, e, draw, smsOk).table)
    ensures CollegeIdsUnique(ValidateTicketDetails(t, phone, e, draw, smsOk).table)
  {
    GenerateTicketKeepsInvariants(t, phone, e, draw);
  }

  /** An issued ticket can be read back from the active rows: the phone's row now
      holds the entered details and the ticket's booking id, and the college ID
      counts as registered. */
  lemma CommitRoundTrip(t: Table, phone: string, e: Entry, draw: int, smsOk: bool)
    requires Otp.IsDraw(draw) && HasPending(t, phone)
    requires ValidateTicketDetails(t, phone, e, draw, smsOk).outcome.Issued?
    ensures var r := ValidateTicketDetails(t, phone, e, draw, smsOk);
      && CollegeIdActive(r.table, e.collegeId)
      && exists x :: x in Filter(r.table, ActiveOnly) && x.phone == phone && x.name == Some(e.name)
           && x.collegeId == Some(e.collegeId) && x.timeslot == Some(e.timeslot) && x.seat == Some(e.seat)
           && x.bookingId == Some(r.outcome.ticket.bookingId) && x.numTickets == Some(1)
  {
    var r := ValidateTicketDetails(t, phone, e, draw, smsOk);
    var g := GenerateTicket(t, phone, e, draw);
    assert r.table == ActivatePending(t, phone, e, g.ticket) && r.outcome.ticket == g.ticket;
    var y :| y in t && Selects(PendingOf(phone), y);
    var i :| 0 <= i < |t| && t[i] == y;
    var x := r.table[i];
    assert x == Activate(y, e, g.ticket);
    assert x in r.table && Selects(ActiveOnly, x);
    FilterMembers(r.table, ActiveOnly);
  }

  /** When the phone has no pending row the update touches nothing, yet the
      ticket is still issued and sent. */
  lemma IssuedWithoutPendingRow(t: Table, phone: string, e: Entry, draw: int, smsOk: bool)
    requires Otp.IsDraw(draw) && !HasPending(t, phone)
    requires ValidName(e.name) && ValidCollegeId(e.collegeId) && e.timeslot != [] && !CollegeIdActive(t, e.collegeId)
    ensures var r := ValidateTicketDetails(t, phone, e, draw, smsOk);
      r.outcome.Issued? && r.table == t
  {
    var r := ValidateTicketDetails(t, phone, e, draw, smsOk);
    assert forall i :: 0 <= i < |t| ==> !Selects(PendingOf(phone), t[i]) by {
      forall i | 0 <= i < |t| ensures !Selects(PendingOf(phone), t[i]) {
        assert t[i] in t;
      }
    }
    assert r.table == t;
  }

  /** An entry that passes the form's checks on a table where its college ID is free. */
  predicate Acceptable(e: Entry) {
    ValidName(e.name) && ValidCollegeId(e.collegeId) && e.timeslot != []
  }

  /** Activation adds the phone's pending rows to the active holders of the
      entered seat and leaves the holders of every other seat alone. */
  lemma {:induction false} ActivatePendingSeats(t: Table, phone: string, e: Entry, ticket: Ticket, x: string)
    ensures |Filter(ActivatePending(t, phone, e, ticket), ActiveOnSeat(x))| ==
              |Filter(t, ActiveOnSeat(x))| + (if x == e.seat then |Filter(t, PendingOf(phone))| else 0)
  {
    if t != [] {
      var r := ActivatePending(t, phone, e, ticket);
      ActivatePendingSeats(t[1..], phone, e, ticket, x);
      assert r[1..] == ActivatePending(t[1..], phone, e, ticket);
    }
  }

  /** A selection is non-empty exactly when some row of the table is selected. */
  lemma SelectedIff(t: Table, sel: Selector)
    ensures |Filter(t, sel)| > 0 <==> exists x :: x in t && Selects(sel, x)
  {
    FilterMembers(t, sel);
    if |Filter(t, sel)| > 0 {
      assert Filter(t, sel)[0] in Filter(t, sel);
    }
  }

  /** One issued commit, in counts: the committing phone's pending rows join the
      holders of its college ID and seat, and every other phone's pending rows,
      college ID and seat keep their holders. */
  lemma IssuedCounts(t: Table, phone: string, e: Entry, draw: int, smsOk: bool, p: string, c: string, x: string)
    requires Otp.IsDraw(draw) && ValidateTicketDetails(t, phone, e, draw, smsOk).outcome.Issued?
    ensures var r := ValidateTicketDetails(t, phone, e, draw, smsOk).table;
      && (p != phone ==> Filter(r, PendingOf(p)) == Filter(t, PendingOf(p)))
      && |Filter(r, ActiveWithCollegeId(c))| ==
           |Filter(t, ActiveWithCollegeId(c))| + (if c == e.collegeId then |Filter(t, PendingOf(phone))| else 0)
      && |Filter(r, ActiveOnSeat(x))| ==
           |Filter(t, ActiveOnSeat(x))| + (if x == e.seat then |Filter(t, PendingOf(phone))| else 0)
  {
    var g := GenerateTicket(t, phone, e, draw);
    ActivatePendingFilter(t, phone, e, g.ticket, p);
    ActivatePendingHolders(t, phone, e, g.ticket, c);
    ActivatePendingSeats(t, phone, e, g.ticket, x);
  }

  /** An acceptable entry whose college ID is free is issued. */
  lemma IssuedWhenFree(t: Table, phone: string, e: Entry, draw: int, smsOk: bool)
    requires Otp.IsDraw(draw) && Acceptable(e) && !CollegeIdActive(t, e.collegeId)
    ensures ValidateTicketDetails(t, phone, e, draw, smsOk).outcome.Issued?
  {
  }

  /** Activating the pending rows of two different waiting phones for one seat
      leaves that seat with two active holders: nothing in the update looks at
      who already holds the seat. */
  lemma SameSeatTwice(t: Table, pa: string, pb: string, e1: Entry, e2: Entry, k1: Ticket, k2: Ticket)
    requires pa != pb && |Filter(t, PendingOf(pa))| > 0 && |Filter(t, PendingOf(pb))| > 0 && e1.seat == e2.seat
    ensures var t2 := ActivatePending(ActivatePending(t, pa, e1, k1), pb, e2, k2);
      |Filter(t2, ActiveOnSeat(e1.seat))| >= 2
  {
    var seat := e1.seat;
    var t1 := ActivatePending(t, pa, e1, k1);
    var t2 := ActivatePending(t1, pb, e2, k2);
    ActivatePendingSeats(t, pa, e1, k1, seat);
    ActivatePendingFilter(t, pa, e1, k1, pb);
    assert |Filter(t1, ActiveOnSeat(seat))| >= 1;
    assert |Filter(t1, PendingOf(pb))| > 0;
    ActivatePendingSeats(t1, pb, e2, k2, seat);
    assert |Filter(t2, ActiveOnSeat(seat))| >= 2;
  }

  /** Two phones waiting with pending rows commit in turn for the same seat
      under different free college IDs: the form lets both through, and the
      seat ends up held by two active rows. */
  lemma ScenarioSameSeat(t: Table, pa: string, pb: string, e1: Entry, e2: Entry, d1: int, d2: int)
    requires Otp.IsDraw(d1) && Otp.IsDraw(d2)
    requires pa != pb && |Filter(t, PendingOf(pa))| > 0 && |Filter(t, PendingOf(pb))| > 0
    requires Acceptable(e1) && Acceptable(e2)
    requires e1.seat == e2.seat && e1.collegeId != e2.collegeId
    requires !CollegeIdActive(t, e1.collegeId) && !CollegeIdActive(t, e2.collegeId)
    ensures var v1 := ValidateTicketDetails(t, pa, e1, d1, true);
      var v2 := ValidateTicketDetails(v1.table, pb, e2, d2, true);
      v1.outcome.Issued? && v2.outcome.Issued? && |Filter(v2.table, ActiveOnSeat(e1.seat))| >= 2
  {
    var v1 := ValidateTicketDetails(t, pa, e1, d1, true);
    IssuedWhenFree(t, pa, e1, d1, true);
    var t1 := v1.table;
    assert t1 == ActivatePending(t, pa, e1, v1.outcome.ticket);
    SecondIdStaysFree(t, pa, e1, v1.outcome.ticket, e2.collegeId);
    IssuedWhenFree(t1, pb, e2, d2, true);
    var v2 := ValidateTicketDetails(t1, pb, e2, d2, true);
    assert v2.table == ActivatePending(t1, pb, e2, v2.outcome.ticket);
    SameSeatTwice(t, pa, pb, e1, e2, v1.outcome.ticket, v2.outcome.ticket);
  }

  /** Activating rows under one college ID leaves every other free college ID free. */
  lemma SecondIdStaysFree(t: Table, phone: string, e: Entry, ticket: Ticket, c: string)
    requires c != e.collegeId && !CollegeIdActive(t, c)
    ensures !CollegeIdActive(ActivatePending(t, phone, e, ticket), c)
  {
    var r := ActivatePending(t, phone, e, ticket);
    forall i | 0 <= i < |r| ensures !(r[i].status == Active && r[i].collegeId == Some(c)) {
      assert t[i] in t;
    }
  }
}
