/** The `tickets` table as an immutable sequence of rows, the selections the
    registration logic reads and deletes by, and the per-window state of the
    registration screen (table, attempt counter, OTP expiry). */
module Store {

  datatype Option<T> = None | Some(value: T)

  /** The `status` column: rows are inserted `pending` and flipped to `active`. */
  datatype Status = Pending | Active

  /** One row of the `tickets` table. The `id` primary key is never read by the
      registration logic and is left out; a row's position stands for its
      insertion order. `otp` and `createdAt` are set by every insert. */
  datatype Row = Row(
    phone: string,
    name: Option<string>,
    otp: string,
    createdAt: int,
    ticketDetails: Option<string>,
    bookingId: Option<string>,
    numTickets: Option<int>,
    status: Status,
    timeslot: Option<string>,
    seat: Option<string>,
    collegeId: Option<string>)

  type Table = seq<Row>

  /** The state a `SmartRegister` window carries between callbacks. */
  datatype State = State(table: Table, attemptsRemaining: int, otpExpiry: Option<int>)

  /** The WHERE clauses the registration logic selects, keeps or deletes by. */
  datatype Selector =
    | PendingOf(phone: string)        // phone_number=? AND status='pending'
    | UnticketedOf(phone: string)     // phone_number=? AND ticket_details IS NULL
    | OtherPhone(phone: string)       // phone_number<>?
    | ActiveOnly                      // status='active'
    | ActiveWithCollegeId(cid: string) // college_id=? AND status='active'
    | ActiveOnSeat(seat: string)       // seat=? AND status='active'
    | NotPendingOf(phone: string)     // the rows DELETE ... WHERE phone_number=? AND status='pending' keeps
    | NotUnticketedOf(phone: string)  // the rows DELETE ... WHERE phone_number=? AND ticket_details IS NULL keeps

  predicate Selects(sel: Selector, r: Row) {
    match sel
    case PendingOf(p) => r.phone == p && r.status == Pending
    case UnticketedOf(p) => r.phone == p && r.ticketDetails.None?
    case OtherPhone(p) => r.phone != p
    case ActiveOnly => r.status == Active
    case ActiveWithCollegeId(c) => r.status == Active && r.collegeId == Some(c)
    case ActiveOnSeat(x) => r.status == Active && r.seat == Some(x)
    case NotPendingOf(p) => !(r.phone == p && r.status == Pending)
    case NotUnticketedOf(p) => !(r.phone == p && r.ticketDetails.None?)
  }

  /** The rows `sel` selects, in table order. */
  function Filter(t: Table, sel: Selector): (r: Table)
    ensures |r| <= |t|
  {
    if t == [] then []
    else (if Selects(sel, t[0]) then [t[0]] else []) + Filter(t[1..], sel)
  }

  /** The filter holds exactly the rows of the table that `sel` selects. */
  lemma {:induction false} FilterMembers(t: Table, sel: Selector)
    ensures forall x :: x in Filter(t, sel) <==> x in t && Selects(sel, x)
  {
    if t != [] {
      FilterMembers(t[1..], sel);
      assert forall x :: x in t <==> x == t[0] || x in t[1..];
    }
  }

  lemma {:induction false} FilterConcat(a: Table, b: Table, sel: Selector)
    ensures Filter(a + b, sel) == Filter(a, sel) + Filter(b, sel)
  {
    if a == [] {
      assert a + b == b;
    } else {
      assert (a + b)[0] == a[0] && (a + b)[1..] == a[1..] + b;
      FilterConcat(a[1..], b, sel);
    }
  }

  /** Narrowing a selection by `b` when every row `b` selects is also selected by
      `a` is selecting by `b` alone; in particular a filter is idempotent. */
  lemma {:induction false} FilterNarrow(t: Table, a: Selector, b: Selector)
    requires forall x :: x in t && Selects(b, x) ==> Selects(a, x)
    ensures Filter(Filter(t, a), b) == Filter(t, b)
  {
    if t != [] {
      FilterNarrow(t[1..], a, b);
      var x := t[0];
      var rest := Filter(t[1..], a);
      assert x in t;
      if Selects(a, x) {
        assert Filter(t, a) == [x] + rest;
        assert ([x] + rest)[0] == x && ([x] + rest)[1..] == rest;
      } else {
        assert Filter(t, a) == [] + rest == rest;
        assert !Selects(b, x);
        assert Filter(t, b) == [] + Filter(t[1..], b);
      }
    }
  }

  /** When no row is selected, the filter is empty. */
  lemma FilterEmpty(t: Table, sel: Selector)
    requires forall x :: x in t ==> !Selects(sel, x)
    ensures Filter(t, sel) == []
  {
  }

  /** A phone has a row waiting for OTP verification. */
  predicate HasPending(t: Table, phone: string) {
    exists x :: x in t && Selects(PendingOf(phone), x)
  }

  /** `SELECT ... WHERE phone_number=? AND status='pending' ORDER BY created_at DESC
      LIMIT 1`: the pending row of `phone` created last (the first such row in table
      order when several share that time). */
  function LatestPending(t: Table, phone: string): (r: Option<Row>)
    ensures r.None? <==> !HasPending(t, phone)
    ensures r.Some? ==> r.value in t && Selects(PendingOf(phone), r.value)
    ensures r.Some? ==> forall x :: x in t && Selects(PendingOf(phone), x) ==> x.createdAt <= r.value.createdAt
  {
    if t == [] then None
    else
      var rest := LatestPending(t[1..], phone);
      assert forall x :: x in t <==> x == t[0] || x in t[1..];
      if !Selects(PendingOf(phone), t[0]) then rest
      else if rest.Some? && rest.value.createdAt > t[0].createdAt then rest
      else Some(t[0])
  }

  /** The shape every table the registration logic produces keeps: a row carries
      ticket text exactly when it is active, and a phone has at most one pending row. */
  ghost predicate Consistent(t: Table) {
    && (forall x :: x in t ==> (x.status == Pending <==> x.ticketDetails.None?))
    && (forall p :: |Filter(t, PendingOf(p))| <= 1)
  }

  /** Consistent tables hold at most one pending row per phone. */
  lemma ConsistentSinglePending(t: Table, phone: string, x: Row, y: Row)
    requires Consistent(t)
    requires x in t && y in t && Selects(PendingOf(phone), x) && Selects(PendingOf(phone), y)
    ensures x == y
  {
    var f := Filter(t, PendingOf(phone));
    FilterMembers(t, PendingOf(phone));
    assert x in f && y in f && |f| <= 1;
  }

  /** Two selected rows at different positions make the selection at least two long. */
  lemma TwoSelectedRows(t: Table, sel: Selector, i: nat, j: nat)
    requires i < j < |t|
    ensures Selects(sel, t[i]) && Selects(sel, t[j]) ==> |Filter(t, sel)| >= 2
  {
    assert t == t[..j] + t[j..];
    FilterConcat(t[..j], t[j..], sel);
    FilterMembers(t[..j], sel);
    FilterMembers(t[j..], sel);
    assert t[i] in t[..j] && t[j] in t[j..];
  }

  /** Identity uniqueness: no college ID is held by two active rows. */
  ghost predicate CollegeIdsUnique(t: Table) {
    forall c :: |Filter(t, ActiveWithCollegeId(c))| <= 1
  }

  /** Seat uniqueness: no seat is held by two active rows. */
  ghost predicate SeatsUnique(t: Table) {
    forall x :: |Filter(t, ActiveOnSeat(x))| <= 1
  }
}
