# SmartRegister registration core, in Dafny

SmartRegister is a desktop application for registering attendees of a college
event. A visitor requests a one-time passcode (OTP) by SMS for their phone
number, enters it within half a minute, picks exactly one seat on a 5 x 10
grid, fills in a name, a college ID and a timeslot, and receives a ticket with
a booking id. Everything lives in one SQLite table, `tickets`, whose rows are
`pending` while a code is outstanding and `active` once a ticket was issued.

This project models the registration logic of the `SmartRegister` class as
pure functions over an immutable table, and proves what that logic promises:

- `text.dfy` (module `Text`): the string facts the checks rely on — Python's
  `str.strip()` blank test, decimal rendering and parsing of the random draws,
  the fixed-width college-ID regular expression as Python's `re.match` applies
  it (`$` also accepts one final newline), and SQLite's `LIKE '%id%'`.
- `store.dfy` (module `Store`): the `tickets` row, the table as a sequence of
  rows in insertion order, the `WHERE` clauses as selectors, the newest pending
  row of a phone, the per-window state (table, attempt counter, OTP expiry), and
  the table invariants: ticket text exactly on active rows, at most one pending
  row per phone, at most one active row per college ID (and the seat
  uniqueness the code does *not* keep).
- `otp.dfy` (module `Otp`): `send_otp`, `verify_otp`, `regenerate_otp`,
  `handle_verify_otp`, `handle_request_otp` and the countdown of `update_timer`,
  with the one attempt counter they share, and runs of Verify/Regenerate presses.
- `seats.dfy` (module `Seats`): the seat ids of the grid, `is_seat_booked`,
  the grid of buttons, `toggle_seat` and the exactly-one-seat guard of
  `handle_ticket_details`.
- `booking.dfy` (module `Booking`): `generate_booking_id`, the checks of
  `validate_ticket_details` and the table update of `generate_ticket`.
- `register.dfy` (module `Register`): the window as a state machine over its
  four state-changing buttons, and the invariants along every run. A
  submitted seat is always one of the grid's ids, because the detail form
  receives `selected_seats[0]` and only grid buttons add to that list.

The random code and booking number, the clock (`now`, whole seconds) and
whether the SMS gateway accepted a message (`smsOk`) are parameters of the
operations. A draw is any value `random.randint(100000, 999999)` can return.

The model follows the code, including where the code behaves differently from
what a reader of its messages might expect:

- an SMS failure in `send_otp` leaves the freshly inserted pending row behind
  (the insert is committed before the gateway is called);
- a successful `verify_otp` does not consume the pending row, and a phone
  without a pending row is refused without spending an attempt;
- a failed Verify press spends two attempts when the phone has a pending row
  (one in `verify_otp`, one in `handle_verify_otp`), so from a fresh counter of
  3 one wrong code leaves 1, and a counter of 1 drops to -1;
- the regeneration `handle_verify_otp` forces when the counter reaches exactly
  0 is always refused by `regenerate_otp`'s own `<= 0` guard;
- the attempt counter is never reset by requesting a new code, only by a
  successful verification;
- `generate_ticket` does not check that the seat is still free, so two commits
  can hold the same seat; only the college ID is checked for uniqueness.

## Model

| member | source | states |
|---|---|---|
| Text.ParseDecimalString | Smart-Resister.py:54 | the decimal rendering of a natural number reads back as that number |
| Text.DecimalStringParse | Smart-Resister.py:54 | a digit string without a leading zero is the rendering of the number it reads as |
| Text.CollegeIdRegexIff | Smart-Resister.py:263 | the pattern `^\d{4}-\d{2}-\d{3}-\d{3}$`, matched the way `re.match` does with `\d` read as the ASCII digits, accepts exactly the `NNNN-NN-NNN-NNN` strings, optionally followed by one newline |
| Text.CollegeIdPatternShape | Smart-Resister.py:263 | matching the college-ID pattern token by token is the same as the position-by-position shape |
| Text.LikeContains | Smart-Resister.py:277 | `seat LIKE '%id%'` holds exactly when the id occurs somewhere in the seat text, ignoring ASCII case |
| Store.LatestPending | Smart-Resister.py:74-75 | the row found is a pending row of the phone with the latest creation time, and there is none exactly when the phone has no pending row |
| Otp.SixDigitString | Smart-Resister.py:54 | the OTP is six digits, no leading zero, and reads back as the draw |
| Otp.SixDigitStringOnto | Smart-Resister.py:54 | every six-digit string without leading zero is the OTP of exactly one draw |
| Otp.SendOtp | Smart-Resister.py:53-71 | sets the expiry to now plus 30 seconds, keeps the counter, drops exactly the phone's rows without ticket text, appends a pending row holding the code, leaves other phones' rows unchanged, and returns the code exactly when the SMS went out |
| Otp.SendOtpReplacesPending | Smart-Resister.py:59-61 | on a consistent table the new row is the phone's only pending row afterwards, whether or not the SMS went out |
| Otp.SendOtpKeepsActive | Smart-Resister.py:59-61 | issued tickets survive a new code request and the table stays consistent |
| Otp.VerifyOtp | Smart-Resister.py:73-86 | accepts exactly when the latest pending row holds the entered code and is not expired; acceptance resets the counter to 3, a refusal with a pending row costs one attempt, no pending row changes nothing |
| Otp.VerifyOtpIff | Smart-Resister.py:73-86 | on a consistent table the code is accepted exactly when some pending row of the phone holds it unexpired |
| Otp.RegenerateOtp | Smart-Resister.py:88-100 | refused and changing nothing when the counter is not positive; otherwise the new code's row is the phone's only pending row, other phones are untouched, the expiry is reset, and one attempt is spent only when the SMS went out |
| Otp.RegenerateOtpKeepsActive | Smart-Resister.py:93-95 | regenerating keeps every issued ticket and keeps the table consistent |
| Otp.HandleVerifyOtp | Smart-Resister.py:184-194 | refused when the counter is not positive; verifies exactly when `verify_otp` accepts; a failure costs two attempts with a pending row and one without, never touches the table, and forces a regeneration exactly when the counter lands on 0 |
| Otp.ForcedRegenerateIsRefused | Smart-Resister.py:191-194 | the regeneration forced at a counter of 0 is refused, so the table and the code stay as they were |
| Otp.CounterGoesNegative | Smart-Resister.py:184-194 | a wrong code with one attempt left and a pending row leaves the counter at -1 |
| Otp.ChargedPressesSpendBudget | Smart-Resister.py:184-194 | along any run of Verify and Regenerate presses that each spent budget, the counter drops by at least the number of presses or is spent |
| Otp.BudgetExhausted | Smart-Resister.py:185-187 | after three charged presses from a counter of at most 3, both buttons are refused and nothing changes |
| Otp.ScenarioWrongThenRight | Smart-Resister.py:163-194 | request a code, enter a wrong one (one attempt left), then the right one: verified and the counter is back at 3 |
| Otp.ScenarioExpiry | Smart-Resister.py:78-80 | a code created at t0 is accepted exactly before t0 + 30 |
| Otp.RequestOtp | Smart-Resister.py:163-169 | a blank phone number is refused with nothing changed; otherwise the code is sent and the verify screen opens exactly when the SMS went out |
| Otp.TimerDisplay | Smart-Resister.py:102-110 | no label without an expiry; before expiry minutes and seconds (seconds below 60) add up to the time left; at or after expiry the expired message |
| Seats.SeatIdOnto | Smart-Resister.py:208-210 | the grid ids are exactly the two-character strings of a row digit 1..5 and a column letter A..J |
| Seats.SeatIdInjective | Smart-Resister.py:208-210 | two grid positions give the same id exactly when they are the same position |
| Seats.GridIdsDistinct | Smart-Resister.py:208-210 | the fifty buttons show fifty different ids |
| Seats.SeatGrid | Smart-Resister.py:204-219 | the grid has 50 buttons laid out row by row, each with its seat id and disabled exactly when `is_seat_booked` holds for it |
| Seats.HeldSeatIsBooked | Smart-Resister.py:276-278 | a seat some active row holds is always reported booked, and no seat is booked while no row is active |
| Seats.GridSeatBookedIff | Smart-Resister.py:276-278 | when all booked seats are grid ids, a grid seat counts as booked exactly when an active row holds that very seat |
| Seats.ToggleSeat | Smart-Resister.py:223-231 | clicking a selected seat removes it, clicking with nothing selected selects it, any other click changes nothing and warns; a selection of at most one seat stays at most one |
| Seats.ToggleTwiceRestores | Smart-Resister.py:223-229 | clicking the same seat twice from an empty selection gives the empty selection back |
| Seats.ClicksKeepOneSeat | Smart-Resister.py:223-231 | whatever sequence of seats is clicked, at most one seat is selected |
| Seats.RemoveFirst | Smart-Resister.py:225 | `list.remove` takes out one occurrence of the seat and keeps the rest |
| Seats.ConfirmSeat | Smart-Resister.py:233-236 | the detail form opens exactly when one seat is selected, and with that seat |
| Booking.BookingId | Smart-Resister.py:50-51 | a booking id is `BK` followed by six digits that read back as the draw |
| Booking.BookingIdOnto | Smart-Resister.py:50-51 | every string of booking-id shape is the id of exactly one draw |
| Booking.ValidNameIff | Smart-Resister.py:260 | a name passes exactly when it is made of ASCII letters and whitespace and holds at least one letter |
| Booking.ValidCollegeIdIff | Smart-Resister.py:263 | the college-ID check is the blank test plus the regular expression, and the blank test adds nothing to the match |
| Booking.CollegeIdActiveIff | Smart-Resister.py:269-270 | the duplicate-ID query finds a row exactly when the college ID has at least one active holder |
| Booking.TicketText | Smart-Resister.py:114-121 | the ticket text opens with a newline, `Booking ID: ` and the booking id |
| Booking.ActivatePending | Smart-Resister.py:123-127 | every pending row of the phone gets the entered details, ticket text, booking id, one ticket and status active; every other row is unchanged |
| Booking.ActivatePendingFilter | Smart-Resister.py:123-127 | after the update the phone has no pending row, and other phones' pending rows and rows are as before |
| Booking.ActivatePendingHolders | Smart-Resister.py:123-127 | the update adds the phone's pending rows to the holders of the entered college ID and no others |
| Booking.ActivatePendingSeats | Smart-Resister.py:123-127 | the update adds the phone's pending rows to the holders of the entered seat and no others |
| Booking.GenerateTicket | Smart-Resister.py:112-128 | the booking id reads back as the draw, the ticket text holds the entered details, and the table is the pending rows activated |
| Booking.GenerateTicketKeepsInvariants | Smart-Resister.py:123-127 | the update keeps the table consistent, and keeps college IDs unique when the entered one was free |
| Booking.SeatNotRechecked | Smart-Resister.py:112-128 | a commit for a seat an active row already holds goes through and leaves the seat held twice |
| Booking.ValidateTicketDetails | Smart-Resister.py:259-274 | name, college ID, timeslot and college-ID uniqueness are checked in that order, the first failure leaves the table untouched, and a ticket is issued exactly when all pass; an SMS failure does not undo it |
| Booking.ValidateKeepsInvariants | Smart-Resister.py:259-274 | the Generate Ticket button keeps the table consistent and college IDs unique among active rows |
| Booking.CommitRoundTrip | Smart-Resister.py:122-128 | after an issued ticket an active row of the phone holds the entered name, college ID, timeslot, seat, the booking id and one ticket, and the college ID counts as registered |
| Booking.IssuedWithoutPendingRow | Smart-Resister.py:122-130 | without a pending row the update changes nothing, yet the ticket is still issued and sent |
| Booking.IssuedCounts | Smart-Resister.py:123-127 | an issued commit moves exactly the phone's pending rows into the holders of its college ID and seat |
| Booking.SameSeatTwice | Smart-Resister.py:123-127 | activating the pending rows of two different waiting phones for one seat leaves that seat with at least two active holders |
| Booking.ScenarioSameSeat | Smart-Resister.py:259-274 | two acceptable entries of two waiting phones, with different free college IDs and the same seat, are both issued, and the seat ends up held twice |
| Register.InitialInvariant | Smart-Resister.py:13-28 | an empty table satisfies the table invariants |
| Register.ApplyKeepsInvariant | Smart-Resister.py:163-194 | every button press keeps the table invariants, and only Generate Ticket changes the active rows |
| Register.ActivateKeepsGridSeats | Smart-Resister.py:123-127 | activating a phone's pending rows on a grid seat keeps every held seat a grid id |
| Register.RunKeepsInvariant | Smart-Resister.py:269-272 | along every run of button presses no college ID is ever held by two active rows, no phone has two pending rows, and every held seat is a grid id |
| Register.RunBookedIff | Smart-Resister.py:209-217 | along every run of button presses, the grid shows a seat as taken exactly when an active row holds that very seat, since submitted seats always come from grid buttons |

## Left out

- The Tkinter screens, widgets, colours, message boxes and the welcome, logout, ticket display and admin screens (login, dashboard, password) are user interface, not registration logic; outcomes such as `InvalidOtp` stand for the messages shown.
- Twilio's `messages.create` is a foreign call: each SMS is a boolean `smsOk` parameter; `send_ticket_to_phone` is the `delivered` flag of an issued ticket.
- SQLite mechanics are not modelled: the `id` column (never read), `commit`, and the `try`/`except` around database errors; the table is a value and row order is insertion order.
- `random.randint` and `datetime.now()` are parameters; times are whole seconds, so the 0.5-minute window is 30 seconds.
- Otp.VerifyOtp: does not model `strptime` failing on a stored time whose microseconds are zero (`str(datetime)` then drops the `.%f` part), because the clock is modelled in whole seconds.
- Otp.TimerDisplay: models one refresh of the countdown label, not the once-a-second rescheduling through `root.after`, which is event-loop I/O.
- Store.LatestPending: when two pending rows of a phone share a creation time SQLite's choice is unspecified; the model takes the earliest; on consistent tables there is at most one such row.
- Text.LikeContains: does not treat `%` and `_` inside a seat id as wildcards, because the grid's ids never contain them.
- Text.CollegeIdRegexIff: `\d` is read as the ASCII digits 0-9, whereas Python 3's `re` also accepts other Unicode decimal digits.
- Booking.ValidCollegeIdIff: `\d` is read as the ASCII digits 0-9, whereas Python 3 also accepts other Unicode decimal digits.
- Concurrency between windows sharing one database is not modelled; each operation is one atomic step.
