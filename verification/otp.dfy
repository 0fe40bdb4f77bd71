/** The one-time-passcode life cycle of the registration window: issuing a code
    (`send_otp`), checking it (`verify_otp`), re-issuing it (`regenerate_otp`) and
    the Verify button (`handle_verify_otp`), which share one attempt counter. The
    random code, the clock and the SMS gateway's answer are parameters. */
module Otp {
  import opened Text
  import opened Store

  /** OTP_ATTEMPTS_LIMIT. */
  const AttemptsLimit: int := 3

  /** OTP_VALIDITY_DURATION, half a minute, in whole seconds. */
  const ValiditySeconds: int := 30

  /** A value `random.randint(100000, 999999)` can return. */
  predicate IsDraw(n: int) {
    100000 <= n <= 999999
  }

  /** Six decimal digits without a leading zero. */
  predicate IsSixDigits(s: string) {
    |s| == 6 && AllDigits(s) && s[0] != '0'
  }

  lemma SixDigitBounds()
    ensures Pow10(5) == 100000 && Pow10(6) == 1000000
  {
    assert Pow10(1) == 10;
    assert Pow10(2) == 100;
    assert Pow10(3) == 1000;
    assert Pow10(4) == 10000;
  }

  /** `str(draw)` for a six-digit draw, and it reads back as the draw. */
  function SixDigitString(draw: int): (code: string)
    requires IsDraw(draw)
    ensures IsSixDigits(code) && ParseDecimal(code) == draw
  {
    SixDigitBounds();
    DecimalStringLength(draw, 6);
    ParseDecimalString(draw);
    DecimalString(draw)
  }

  /** Every six-digit string is the rendering of exactly one draw. */
  lemma SixDigitStringOnto(code: string)
    requires IsSixDigits(code)
    ensures IsDraw(ParseDecimal(code)) && SixDigitString(ParseDecimal(code)) == code
  {
    SixDigitBounds();
    ParseDecimalLowerBound(code);
    DecimalStringParse(code);
  }

  /** The row `send_otp` inserts: phone, code, creation time, status `pending`. */
  function PendingRow(phone: string, code: string, now: int): Row {
    Row(phone, None, code, now, None, None, None, Pending, None, None, None)
  }

  /** The table `send_otp` commits: the rows it keeps (those that are not the
      phone's rows without ticket text), then the new pending row. */
  function SentTable(t: Table, phone: string, code: string, now: int): Table {
    Filter(t, NotUnticketedOf(phone)) + [PendingRow(phone, code, now)]
  }

  /** On a consistent table the new row is the phone's only pending row. */
  lemma SentTableReplacesPending(t: Table, phone: string, code: string, now: int)
    requires Consistent(t)
    ensures Filter(SentTable(t, phone, code, now), PendingOf(phone)) == [PendingRow(phone, code, now)]
  {
    var kept := Filter(t, NotUnticketedOf(phone));
    var row := PendingRow(phone, code, now);
    FilterConcat(kept, [row], PendingOf(phone));
    FilterMembers(t, NotUnticketedOf(phone));
    forall x | x in kept ensures !Selects(PendingOf(phone), x) {
      assert x in t;
    }
    FilterEmpty(kept, PendingOf(phone));
  }

  /** On a consistent table every phone has at most one pending row afterwards. */
  lemma SentTablePendingCount(t: Table, phone: string, code: string, now: int, p: string)
    requires Consistent(t)
    ensures |Filter(SentTable(t, phone, code, now), PendingOf(p))| <= 1
  {
    if p == phone {
      SentTableReplacesPending(t, phone, code, now);
    } else {
      var kept := Filter(t, NotUnticketedOf(phone));
      FilterConcat(kept, [PendingRow(phone, code, now)], PendingOf(p));
      FilterNarrow(t, NotUnticketedOf(phone), PendingOf(p));
      assert |Filter(t, PendingOf(p))| <= 1;
    }
  }

  /** On a consistent table every active row is kept and the table stays consistent. */
  lemma SentTableKeepsActive(t: Table, phone: string, code: string, now: int)
    requires Consistent(t)
    ensures Filter(SentTable(t, phone, code, now), ActiveOnly) == Filter(t, ActiveOnly)
    ensures Consistent(SentTable(t, phone, code, now))
  {
    var kept := Filter(t, NotUnticketedOf(phone));
    var u := SentTable(t, phone, code, now);
    FilterConcat(kept, [PendingRow(phone, code, now)], ActiveOnly);
    FilterNarrow(t, NotUnticketedOf(phone), ActiveOnly);
    FilterMembers(t, NotUnticketedOf(phone));
    assert forall x :: x in u ==> x in kept || x == PendingRow(phone, code, now);
    forall p ensures |Filter(u, PendingOf(p))| <= 1 {
      SentTablePendingCount(t, phone, code, now, p);
    }
  }

  datatype Sent = Sent(state: State, otp: Option<string>)

  /** `send_otp`: deletes the phone's rows that carry no ticket text, inserts one
      fresh pending row and commits, and only then hands the code to the SMS
      gateway; the code is returned when the gateway accepted it. */
  function SendOtp(s: State, phone: string, draw: int, now: int, smsOk: bool): (r: Sent)
    requires IsDraw(draw)
    ensures r.state.attemptsRemaining == s.attemptsRemaining
    ensures r.state.otpExpiry == Some(now + ValiditySeconds)
    ensures r.otp.Some? <==> smsOk
    ensures r.otp.Some? ==> IsSixDigits(r.otp.value) && ParseDecimal(r.otp.value) == draw
    ensures |r.state.table| >= 1
    ensures r.state.table[|r.state.table| - 1] == PendingRow(phone, SixDigitString(draw), now)
    ensures forall x :: x in r.state.table[..|r.state.table| - 1] <==>
              x in s.table && !Selects(UnticketedOf(phone), x)
    ensures Filter(r.state.table, OtherPhone(phone)) == Filter(s.table, OtherPhone(phone))
  {
    var kept := Filter(s.table, NotUnticketedOf(phone));
    var row := PendingRow(phone, SixDigitString(draw), now);
    var t := SentTable(s.table, phone, SixDigitString(draw), now);
    assert t[..|t| - 1] == kept;
    FilterMembers(s.table, NotUnticketedOf(phone));
    FilterConcat(kept, [row], OtherPhone(phone));
    FilterNarrow(s.table, NotUnticketedOf(phone), OtherPhone(phone));
    Sent(State(t, s.attemptsRemaining, Some(now + ValiditySeconds)),
         if smsOk then Some(SixDigitString(draw)) else None)
  }

  /** The table `send_otp` writes, whatever the SMS gateway answers. */
  lemma SendOtpTable(s: State, phone: string, draw: int, now: int, smsOk: bool)
    requires IsDraw(draw)
    ensures SendOtp(s, phone, draw, now, smsOk).state.table == SentTable(s.table, phone, SixDigitString(draw), now)
  {
  }

  /** On a consistent table `send_otp` leaves exactly the new pending row for the
      phone, whether or not the SMS went out. */
  lemma SendOtpReplacesPending(s: State, phone: string, draw: int, now: int, smsOk: bool)
    requires IsDraw(draw) && Consistent(s.table)
    ensures Filter(SendOtp(s, phone, draw, now, smsOk).state.table, PendingOf(phone)) ==
              [PendingRow(phone, SixDigitString(draw), now)]
  {
    SendOtpTable(s, phone, draw, now, smsOk);
    SentTableReplacesPending(s.table, phone, SixDigitString(draw), now);
  }

  /** On a consistent table `send_otp` keeps every active row and keeps the
      table consistent. */
  lemma SendOtpKeepsActive(s: State, phone: string, draw: int, now: int, smsOk: bool)
    requires IsDraw(draw) && Consistent(s.table)
    ensures var t := SendOtp(s, phone, draw, now, smsOk).state.table;
      Filter(t, ActiveOnly) == Filter(s.table, ActiveOnly) && Consistent(t)
  {
    SendOtpTable(s, phone, draw, now, smsOk);
    SentTableKeepsActive(s.table, phone, SixDigitString(draw), now);
  }

  /** The stored code accepts `entered` at `now`: the same string, strictly
      before `created_at` plus the validity window. */
  predicate Accepts(row: Row, entered: string, now: int) {
    entered == row.otp && now < row.createdAt + ValiditySeconds
  }

  datatype Checked = Checked(ok: bool, state: State)

  /** `verify_otp`: checks `entered` against the phone's latest pending row; a
      match resets the counter, a mismatch or an expired code costs one attempt,
      and a phone without a pending row is refused at no cost. */
  function VerifyOtp(s: State, phone: string, entered: string, now: int): (r: Checked)
    ensures r.state.table == s.table && r.state.otpExpiry == s.otpExpiry
    ensures r.ok <==> LatestPending(s.table, phone).Some? && Accepts(LatestPending(s.table, phone).value, entered, now)
    ensures r.ok ==> r.state.attemptsRemaining == AttemptsLimit
    ensures !r.ok && HasPending(s.table, phone) ==> r.state.attemptsRemaining == s.attemptsRemaining - 1
    ensures !HasPending(s.table, phone) ==> !r.ok && r.state == s
  {
    match LatestPending(s.table, phone)
    case None => Checked(false, s)
    case Some(row) =>
      if Accepts(row, entered, now) then Checked(true, s.(attemptsRemaining := AttemptsLimit))
      else Checked(false, s.(attemptsRemaining := s.attemptsRemaining - 1))
  }

  /** On a consistent table the code is accepted exactly when the phone's one
      pending row holds `entered` and has not expired. */
  lemma VerifyOtpIff(s: State, phone: string, entered: string, now: int)
    requires Consistent(s.table)
    ensures VerifyOtp(s, phone, entered, now).ok <==>
      exists x :: x in s.table && Selects(PendingOf(phone), x) && Accepts(x, entered, now)
  {
    var l := LatestPending(s.table, phone);
    if x :| x in s.table && Selects(PendingOf(phone), x) && Accepts(x, entered, now) {
      ConsistentSinglePending(s.table, phone, x, l.value);
    }
  }

  datatype RegenerateOutcome = NoAttemptsToRegenerate | Resent(attemptsLeft: int) | ResendFailed

  datatype Regenerated = Regenerated(outcome: RegenerateOutcome, state: State)

  /** Deleting the phone's pending rows and then sending a code leaves the new
      row as the phone's only pending row and every other phone's rows as they were. */
  lemma ClearThenSend(t: Table, phone: string, code: string, now: int)
    ensures var sent := SentTable(Filter(t, NotPendingOf(phone)), phone, code, now);
      && Filter(sent, PendingOf(phone)) == [PendingRow(phone, code, now)]
      && Filter(sent, OtherPhone(phone)) == Filter(t, OtherPhone(phone))
  {
    var cleared := Filter(t, NotPendingOf(phone));
    var row := PendingRow(phone, code, now);
    var kept := Filter(cleared, NotUnticketedOf(phone));
    FilterConcat(kept, [row], PendingOf(phone));
    FilterConcat(kept, [row], OtherPhone(phone));
    FilterMembers(t, NotPendingOf(phone));
    FilterMembers(cleared, NotUnticketedOf(phone));
    FilterEmpty(kept, PendingOf(phone));
    FilterNarrow(t, NotPendingOf(phone), OtherPhone(phone));
    FilterNarrow(cleared, NotUnticketedOf(phone), OtherPhone(phone));
  }

  /** `regenerate_otp`: refused while the counter is not positive; otherwise
      deletes the phone's pending rows, sends a fresh code and charges one
      attempt only when the SMS went out. */
  function RegenerateOtp(s: State, phone: string, draw: int, now: int, smsOk: bool): (r: Regenerated)
    requires IsDraw(draw)
    ensures s.attemptsRemaining <= 0 ==> r.outcome == NoAttemptsToRegenerate && r.state == s
    ensures s.attemptsRemaining > 0 ==> r.state.otpExpiry == Some(now + ValiditySeconds)
    ensures s.attemptsRemaining > 0 && smsOk ==>
              r.state.attemptsRemaining == s.attemptsRemaining - 1 && r.outcome == Resent(r.state.attemptsRemaining)
    ensures s.attemptsRemaining > 0 && !smsOk ==>
              r.state.attemptsRemaining == s.attemptsRemaining && r.outcome == ResendFailed
    ensures s.attemptsRemaining > 0 ==>
              Filter(r.state.table, PendingOf(phone)) == [PendingRow(phone, SixDigitString(draw), now)]
    ensures Filter(r.state.table, OtherPhone(phone)) == Filter(s.table, OtherPhone(phone))
  {
    if s.attemptsRemaining <= 0 then Regenerated(NoAttemptsToRegenerate, s)
    else
      var cleared := s.(table := Filter(s.table, NotPendingOf(phone)));
      var sent := SendOtp(cleared, phone, draw, now, smsOk);
      SendOtpTable(cleared, phone, draw, now, smsOk);
      ClearThenSend(s.table, phone, SixDigitString(draw), now);
      if sent.otp.Some? then
        var after := sent.state.(attemptsRemaining := sent.state.attemptsRemaining - 1);
        Regenerated(Resent(after.attemptsRemaining), after)
      else Regenerated(ResendFailed, sent.state)
  }

  /** `regenerate_otp` on a consistent table keeps every active row and keeps the
      table consistent. */
  lemma RegenerateOtpKeepsActive(s: State, phone: string, draw: int, now: int, smsOk: bool)
    requires IsDraw(draw) && Consistent(s.table)
    ensures var t := RegenerateOtp(s, phone, draw, now, smsOk).state.table;
      Filter(t, ActiveOnly) == Filter(s.table, ActiveOnly) && Consistent(t)
  {
    if s.attemptsRemaining > 0 {
      var cleared := s.(table := Filter(s.table, NotPendingOf(phone)));
      FilterNarrow(s.table, NotPendingOf(phone), ActiveOnly);
      FilterMembers(s.table, NotPendingOf(phone));
      forall p ensures |Filter(cleared.table, PendingOf(p))| <= 1 {
        if p == phone {
          FilterEmpty(cleared.table, PendingOf(p));
        } else {
          FilterNarrow(s.table, NotPendingOf(phone), PendingOf(p));
        }
      }
      SendOtpKeepsActive(cleared, phone, draw, now, smsOk);
    }
  }

  datatype VerifyOutcome =
    | NoAttemptsLeft
    | Verified
    | InvalidOtp(attemptsLeft: int, forced: Option<RegenerateOutcome>)

  datatype Handled = Handled(outcome: VerifyOutcome, state: State)

  /** `handle_verify_otp`, the Verify button: refused while the counter is not
      positive; a failed check charges one more attempt on top of what
      `verify_otp` charged, and a counter of exactly zero afterwards forces a
      call to `regenerate_otp`. */
  function HandleVerifyOtp(s: State, phone: string, entered: string, now: int, draw: int, smsOk: bool): (r: Handled)
    requires IsDraw(draw)
    ensures r.state.table == s.table && r.state.otpExpiry == s.otpExpiry
    ensures s.attemptsRemaining <= 0 ==> r.outcome == NoAttemptsLeft && r.state == s
    ensures s.attemptsRemaining > 0 ==> (r.outcome == Verified <==> VerifyOtp(s, phone, entered, now).ok)
    ensures s.attemptsRemaining > 0 && !VerifyOtp(s, phone, entered, now).ok ==> r.outcome.InvalidOtp?
    ensures r.outcome == Verified ==> r.state.attemptsRemaining == AttemptsLimit
    ensures r.outcome.InvalidOtp? ==>
              && r.outcome.attemptsLeft == r.state.attemptsRemaining
              && r.state.attemptsRemaining == s.attemptsRemaining - (if HasPending(s.table, phone) then 2 else 1)
              && (r.outcome.forced.Some? <==> r.state.attemptsRemaining == 0)
              && (r.outcome.forced.Some? ==> r.outcome.forced.value == NoAttemptsToRegenerate)
  {
    if s.attemptsRemaining <= 0 then Handled(NoAttemptsLeft, s)
    else
      var v := VerifyOtp(s, phone, entered, now);
      if v.ok then Handled(Verified, v.state)
      else
        var after := v.state.(attemptsRemaining := v.state.attemptsRemaining - 1);
        if after.attemptsRemaining == 0 then
          var g := RegenerateOtp(after, phone, draw, now, smsOk);
          Handled(InvalidOtp(after.attemptsRemaining, Some(g.outcome)), g.state)
        else
          Handled(InvalidOtp(after.attemptsRemaining, None), after)
  }

  datatype RequestOutcome = PhoneMissing | SendFailed | OtpSent

  datatype Requested = Requested(outcome: RequestOutcome, state: State)

  /** `handle_request_otp`, the Request OTP button: a blank phone number is
      refused; otherwise `send_otp` runs and the verify screen opens only when
      the SMS went out. */
  function RequestOtp(s: State, phone: string, draw: int, now: int, smsOk: bool): (r: Requested)
    requires IsDraw(draw)
    ensures IsBlank(phone) ==> r.outcome == PhoneMissing && r.state == s
    ensures !IsBlank(phone) ==> r.state == SendOtp(s, phone, draw, now, smsOk).state
    ensures !IsBlank(phone) ==> (r.outcome == OtpSent <==> smsOk) && (r.outcome == SendFailed <==> !smsOk)
  {
    if IsBlank(phone) then Requested(PhoneMissing, s)
    else
      var sent := SendOtp(s, phone, draw, now, smsOk);
      Requested(if sent.otp.Some? then OtpSent else SendFailed, sent.state)
  }

  datatype TimerText = NoTimer | TimeLeft(minutes: int, seconds: int) | CodeExpired

  /** The countdown label of the verify screen (`update_timer`), in whole seconds. */
  function TimerDisplay(expiry: Option<int>, now: int): (r: TimerText)
    ensures expiry.None? ==> r == NoTimer
    ensures expiry.Some? && now < expiry.value ==>
              r.TimeLeft? && r.minutes >= 0 && 0 <= r.seconds < 60 &&
              r.minutes * 60 + r.seconds == expiry.value - now
    ensures expiry.Some? && now >= expiry.value ==> r == CodeExpired
  {
    match expiry
    case None => NoTimer
    case Some(e) =>
      var remaining := e - now;
      if remaining > 0 then TimeLeft(remaining / 60, remaining % 60) else CodeExpired
  }

  /** A press of one of the verify screen's two buttons. */
  datatype Press =
    | VerifyPress(entered: string, now: int, draw: int, smsOk: bool)
    | RegeneratePress(now: int, draw: int, smsOk: bool)

  datatype Reply = VerifyReply(verify: VerifyOutcome) | RegenerateReply(regenerate: RegenerateOutcome)

  predicate DrawsOk(presses: seq<Press>) {
    forall i :: 0 <= i < |presses| ==> IsDraw(presses[i].draw)
  }

  function Press1(s: State, phone: string, p: Press): (r: (State, Reply))
    requires IsDraw(p.draw)
  {
    match p
    case VerifyPress(entered, now, draw, smsOk) =>
      var h := HandleVerifyOtp(s, phone, entered, now, draw, smsOk);
      (h.state, VerifyReply(h.outcome))
    case RegeneratePress(now, draw, smsOk) =>
      var g := RegenerateOtp(s, phone, draw, now, smsOk);
      (g.state, RegenerateReply(g.outcome))
  }

  /** The window after a run of presses on the verify screen, with each reply. */
  function Replay(s: State, phone: string, presses: seq<Press>): (r: (State, seq<Reply>))
    requires DrawsOk(presses)
    ensures |r.1| == |presses|
    decreases |presses|
  {
    if presses == [] then (s, [])
    else
      var (s1, reply) := Press1(s, phone, presses[0]);
      var (s2, replies) := Replay(s1, phone, presses[1..]);
      (s2, [reply] + replies)
  }

  /** A reply that spent budget: a Verify that did not verify, or a regeneration
      that was not stopped by a failed SMS. */
  predicate Charged(reply: Reply) {
    match reply
    case VerifyReply(v) => v != Verified
    case RegenerateReply(g) => g != ResendFailed
  }

  /** Every charged press lowers a positive counter and leaves a spent one alone. */
  lemma PressCharges(s: State, phone: string, p: Press)
    requires IsDraw(p.draw) && Charged(Press1(s, phone, p).1)
    ensures var a := Press1(s, phone, p).0.attemptsRemaining;
      if s.attemptsRemaining > 0 then a <= s.attemptsRemaining - 1 else a == s.attemptsRemaining
  {
  }

  /** The shared budget: after `n` charged presses the counter has dropped by at
      least `n`, or is spent. */
  lemma {:induction false} ChargedPressesSpendBudget(s: State, phone: string, presses: seq<Press>)
    requires DrawsOk(presses)
    requires forall i :: 0 <= i < |presses| ==> Charged(Replay(s, phone, presses).1[i])
    ensures var a := Replay(s, phone, presses).0.attemptsRemaining;
      a <= 0 || a <= s.attemptsRemaining - |presses|
    decreases |presses|
  {
    if presses != [] {
      var (s1, reply) := Press1(s, phone, presses[0]);
      var rest := Replay(s1, phone, presses[1..]);
      assert Replay(s, phone, presses).1 == [reply] + rest.1;
      assert Replay(s, phone, presses).0 == rest.0;
      assert Charged(reply) by {
        assert Replay(s, phone, presses).1[0] == reply;
      }
      PressCharges(s, phone, presses[0]);
      forall i | 0 <= i < |presses[1..]|
        ensures Charged(rest.1[i])
      {
        assert Replay(s, phone, presses).1[i + 1] == rest.1[i];
      }
      ChargedPressesSpendBudget(s1, phone, presses[1..]);
    }
  }

  /** Once `AttemptsLimit` charged presses have been made from a fresh or reset
      counter, both buttons are refused and nothing changes. */
  lemma BudgetExhausted(s: State, phone: string, presses: seq<Press>,
                        entered: string, now: int, draw: int, smsOk: bool)
    requires DrawsOk(presses) && IsDraw(draw)
    requires s.attemptsRemaining <= AttemptsLimit && |presses| >= AttemptsLimit
    requires forall i :: 0 <= i < |presses| ==> Charged(Replay(s, phone, presses).1[i])
    ensures var e := Replay(s, phone, presses).0;
      && HandleVerifyOtp(e, phone, entered, now, draw, smsOk) == Handled(NoAttemptsLeft, e)
      && RegenerateOtp(e, phone, draw, now, smsOk) == Regenerated(NoAttemptsToRegenerate, e)
  {
    ChargedPressesSpendBudget(s, phone, presses);
  }

  /** `handle_verify_otp` never changes the table: the regeneration it forces at
      a counter of zero is always refused by `regenerate_otp`'s own guard. */
  lemma ForcedRegenerateIsRefused(s: State, phone: string, entered: string, now: int, draw: int, smsOk: bool)
    requires IsDraw(draw) && s.attemptsRemaining > 0
    requires !VerifyOtp(s, phone, entered, now).ok
    requires s.attemptsRemaining == (if HasPending(s.table, phone) then 2 else 1)
    ensures HandleVerifyOtp(s, phone, entered, now, draw, smsOk) ==
              Handled(InvalidOtp(0, Some(NoAttemptsToRegenerate)), s.(attemptsRemaining := 0))
  {
  }

  /** A failed code with a pending row costs two attempts, so the counter can go
      below zero: from one attempt left it lands on minus one. */
  lemma CounterGoesNegative(s: State, phone: string, entered: string, now: int, draw: int, smsOk: bool)
    requires IsDraw(draw) && s.attemptsRemaining == 1
    requires HasPending(s.table, phone) && !VerifyOtp(s, phone, entered, now).ok
    ensures HandleVerifyOtp(s, phone, entered, now, draw, smsOk).state.attemptsRemaining == -1
  {
  }

  /** Request a code, type a wrong one, then the right one before expiry: the
      wrong code leaves one attempt (not two), the right one verifies and resets
      the counter to the limit. */
  lemma ScenarioWrongThenRight(draw: int, t0: int)
    requires IsDraw(draw)
    ensures var phone := "+911234567890";
      var s0 := State([], AttemptsLimit, None);
      var r := RequestOtp(s0, phone, draw, t0, true);
      var w := HandleVerifyOtp(r.state, phone, "", t0 + 5, draw, true);
      var c := HandleVerifyOtp(w.state, phone, SixDigitString(draw), t0 + 10, draw, true);
      && r.outcome == OtpSent
      && w.outcome == InvalidOtp(1, None)
      && c.outcome == Verified
      && c.state.attemptsRemaining == AttemptsLimit
  {
    var phone := "+911234567890";
    var s0 := State([], AttemptsLimit, None);
    assert !IsBlank(phone) by {
      assert !IsSpace(phone[0]);
    }
    var r := RequestOtp(s0, phone, draw, t0, true);
    var row := PendingRow(phone, SixDigitString(draw), t0);
    assert r.state.table == [row];
    assert LatestPending(r.state.table, phone) == Some(row);
  }

  /** A code requested at `t0` is accepted up to `t0 + 29` and refused from
      `t0 + 30` on, e.g. at `t0 + 31`. */
  lemma ScenarioExpiry(phone: string, draw: int, t0: int, now: int)
    requires IsDraw(draw)
    ensures var s := SendOtp(State([], AttemptsLimit, None), phone, draw, t0, true).state;
      VerifyOtp(s, phone, SixDigitString(draw), now).ok <==> now < t0 + ValiditySeconds
  {
    var s := SendOtp(State([], AttemptsLimit, None), phone, draw, t0, true).state;
    var row := PendingRow(phone, SixDigitString(draw), t0);
    assert s.table == [row];
    assert LatestPending(s.table, phone) == Some(row);
  }
}
