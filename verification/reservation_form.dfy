/** `ReservationForm.clean`: the past-date check and the two conflict queries
    over the stored reservations. */
module ReservationForm {
  import opened Wrappers
  import opened RestaurantModels

  /** The form's `cleaned_data`: a field that failed its own validation is `None`. */
  datatype Submission = Submission(
    table: Option<Table>,
    name: Option<string>,
    email: Option<string>,
    phone: Option<string>,
    date: Option<int>,
    time: Option<Minute>,
    guests: Option<int>)

  datatype FormError =
    | PastDateTime
    | SlotTaken(tableNumber: string)
    | TooSoonAfterPrevious(tableNumber: string)

  /** `(start + 60 minutes).time()`: the end of the forward window, wrapped past midnight. */
  function WindowEnd(time: Minute): (e: Minute)
    ensures time < MinutesPerDay - SlotLength ==> e == time + SlotLength
    ensures time >= MinutesPerDay - SlotLength ==> e == time + SlotLength - MinutesPerDay && e < time
  {
    (time + SlotLength) % MinutesPerDay
  }

  /** `Q(table=table) & Q(date=date)`; a missing table matches no row. */
  predicate SameTableDate(x: Reservation, table: Option<Table>, date: int) {
    table.Some? && x.table == table.value.id && x.date == date
  }

  /** A row the forward query returns: it starts inside `[time, WindowEnd(time))`. */
  predicate InForwardWindow(x: Reservation, table: Option<Table>, date: int, time: Minute) {
    SameTableDate(x, table, date) && x.time < WindowEnd(time) && x.time >= time
  }

  function ForwardMatches(rs: seq<Reservation>, table: Option<Table>, date: int, time: Minute): seq<Reservation> {
    Where(rs, x => InForwardWindow(x, table, date, time))
  }

  function PreviousReservations(rs: seq<Reservation>, table: Option<Table>, date: int, time: Minute): seq<Reservation> {
    Where(rs, x => SameTableDate(x, table, date) && x.time < time)
  }

  /** `ReservationForm.clean` with the current moment `now` as a parameter. */
  function Clean(sub: Submission, rs: seq<Reservation>, now: int): (r: Result<Submission, FormError>)
    ensures r.Success? ==> r.value == sub
    ensures sub.date.None? || sub.time.None? ==> r.Success?
    ensures r == Failure(PastDateTime) <==>
      sub.date.Some? && sub.time.Some? && Instant(sub.date.value, sub.time.value) < now
    ensures r.Failure? && !r.error.PastDateTime? ==> sub.table.Some? && r.error.tableNumber == sub.table.value.number
  {
    if sub.date.None? || sub.time.None? then Success(sub)
    else
      var date, time := sub.date.value, sub.time.value;
      var start := Instant(date, time);
      if start < now then Failure(PastDateTime)
      else
        var taken := ForwardMatches(rs, sub.table, date, time);
        if |taken| > 0 then
          assert taken[0] in taken;
          Failure(SlotTaken(sub.table.value.number))
        else
          var previous := PreviousReservations(rs, sub.table, date, time);
          if exists x :: x in previous && Instant(x.date, x.time) + SlotLength > start then
            Failure(TooSoonAfterPrevious(sub.table.value.number))
          else
            Success(sub)
  }

  /** The submission passes the past-date check. */
  predicate Timely(sub: Submission, now: int) {
    sub.date.Some? && sub.time.Some? && Instant(sub.date.value, sub.time.value) >= now
  }

  /** The forward query rejects exactly when some row of the table on that date
      starts in the wrapped window, and only once the past-date check passed. */
  lemma SlotTakenIff(sub: Submission, rs: seq<Reservation>, now: int)
    ensures (Clean(sub, rs, now).Failure? && Clean(sub, rs, now).error.SlotTaken?) <==>
      Timely(sub, now) && exists x :: x in rs && InForwardWindow(x, sub.table, sub.date.value, sub.time.value)
  {
  }

  /** The backward test is plain overlap: it rejects exactly when no row is in the
      forward window and some earlier row's hour runs past the proposed start. */
  lemma TooSoonIff(sub: Submission, rs: seq<Reservation>, now: int)
    ensures (Clean(sub, rs, now).Failure? && Clean(sub, rs, now).error.TooSoonAfterPrevious?) <==>
      && Timely(sub, now)
      && (forall x :: x in rs ==> !InForwardWindow(x, sub.table, sub.date.value, sub.time.value))
      && exists x :: x in rs && SameTableDate(x, sub.table, sub.date.value) &&
                     x.time < sub.time.value < x.time + SlotLength
  {
    if Timely(sub, now) {
      var date, time := sub.date.value, sub.time.value;
      var previous := PreviousReservations(rs, sub.table, date, time);
      forall x | x in previous
        ensures (Instant(x.date, x.time) + SlotLength > Instant(date, time)) <==> time < x.time + SlotLength
      {
        assert x.date == date;
      }
    }
  }

  /** From 23:00 on the forward window `[start, start+60 mod 24h)` is empty, so the
      forward query can never reject. */
  lemma LateForwardWindowEmpty(sub: Submission, rs: seq<Reservation>, now: int)
    requires sub.time.Some? && sub.time.value >= MinutesPerDay - SlotLength
    ensures !(Clean(sub, rs, now).Failure? && Clean(sub, rs, now).error.SlotTaken?)
  {
    SlotTakenIff(sub, rs, now);
  }

  /** A row of the table on that date that is "nearby": it starts less than an hour
      before or after the proposed start. */
  predicate Nearby(x: Reservation, table: Option<Table>, date: int, time: Minute) {
    SameTableDate(x, table, date) && time - SlotLength < x.time < time + SlotLength
  }

  /** Before 23:00 the two queries together reject exactly the nearby rows:
      a timely submission is accepted iff no same-table, same-date reservation
      starts less than 60 minutes from it. */
  lemma {:induction false} CleanAcceptsIffNothingNearby(sub: Submission, rs: seq<Reservation>, now: int)
    requires Timely(sub, now)
    requires sub.time.value < MinutesPerDay - SlotLength
    ensures Clean(sub, rs, now).Success? <==>
      forall x :: x in rs ==> !Nearby(x, sub.table, sub.date.value, sub.time.value)
  {
    SlotTakenIff(sub, rs, now);
    TooSoonIff(sub, rs, now);
    var date, time := sub.date.value, sub.time.value;
    forall x | x in rs
      ensures Nearby(x, sub.table, date, time) <==>
        (InForwardWindow(x, sub.table, date, time) ||
         (SameTableDate(x, sub.table, date) && x.time < time < x.time + SlotLength))
    {
    }
  }

  /** From 23:00 on only earlier rows count: a timely submission is accepted iff
      no same-table, same-date row starts in the hour before it. A row at the very
      same minute, or later, does not block. */
  lemma {:induction false} LateCleanAcceptsIffNothingBefore(sub: Submission, rs: seq<Reservation>, now: int)
    requires Timely(sub, now)
    requires sub.time.value >= MinutesPerDay - SlotLength
    ensures Clean(sub, rs, now).Success? <==>
      forall x :: x in rs && SameTableDate(x, sub.table, sub.date.value) ==>
        !(sub.time.value - SlotLength < x.time < sub.time.value)
  {
    SlotTakenIff(sub, rs, now);
    TooSoonIff(sub, rs, now);
    assert WindowEnd(sub.time.value) < sub.time.value;
  }

  /** No buffer beyond the slot: a row ending exactly at the proposed start
      (starting 60 minutes earlier) does not block it. */
  lemma BackToBackAccepted(sub: Submission, x: Reservation, now: int)
    requires Timely(sub, now) && sub.time.value < MinutesPerDay - SlotLength
    requires SameTableDate(x, sub.table, sub.date.value) && x.time + SlotLength == sub.time.value
    ensures Clean(sub, [x], now) == Success(sub)
  {
    CleanAcceptsIffNothingNearby(sub, [x], now);
  }

  /** `rs'` is `rs` with only `status` and `is_active` possibly changed. */
  predicate SameButStatus(rs: seq<Reservation>, rs': seq<Reservation>) {
    |rs| == |rs'| &&
    forall i :: 0 <= i < |rs| ==> rs'[i] == rs[i].(status := rs'[i].status, isActive := rs'[i].isActive)
  }

  lemma SameButStatusKeys(rs: seq<Reservation>, rs': seq<Reservation>, i: int)
    requires SameButStatus(rs, rs') && 0 <= i < |rs|
    ensures rs[i] in rs && rs'[i] in rs'
    ensures rs'[i].table == rs[i].table && rs'[i].date == rs[i].date && rs'[i].time == rs[i].time
  {
  }

  /** Whether some row lies in the forward window does not depend on status fields. */
  lemma ForwardHitIgnoresStatus(rs: seq<Reservation>, rs': seq<Reservation>, table: Option<Table>, date: int, time: Minute)
    requires SameButStatus(rs, rs')
    ensures (exists x :: x in rs && InForwardWindow(x, table, date, time)) <==>
            (exists x :: x in rs' && InForwardWindow(x, table, date, time))
  {
    if x :| x in rs && InForwardWindow(x, table, date, time) {
      var i :| 0 <= i < |rs| && rs[i] == x;
      SameButStatusKeys(rs, rs', i);
      assert InForwardWindow(rs'[i], table, date, time);
    }
    if x :| x in rs' && InForwardWindow(x, table, date, time) {
      var i :| 0 <= i < |rs'| && rs'[i] == x;
      SameButStatusKeys(rs, rs', i);
      assert InForwardWindow(rs[i], table, date, time);
    }
  }

  /** Whether some earlier row runs past the start does not depend on status fields. */
  lemma BackwardHitIgnoresStatus(rs: seq<Reservation>, rs': seq<Reservation>, table: Option<Table>, date: int, time: Minute)
    requires SameButStatus(rs, rs')
    ensures (exists x :: x in rs && SameTableDate(x, table, date) && x.time < time < x.time + SlotLength) <==>
            (exists x :: x in rs' && SameTableDate(x, table, date) && x.time < time < x.time + SlotLength)
  {
    if x :| x in rs && SameTableDate(x, table, date) && x.time < time < x.time + SlotLength {
      var i :| 0 <= i < |rs| && rs[i] == x;
      SameButStatusKeys(rs, rs', i);
      assert rs'[i] in rs' && SameTableDate(rs'[i], table, date);
    }
    if x :| x in rs' && SameTableDate(x, table, date) && x.time < time < x.time + SlotLength {
      var i :| 0 <= i < |rs'| && rs'[i] == x;
      SameButStatusKeys(rs, rs', i);
      assert rs[i] in rs && SameTableDate(rs[i], table, date);
    }
  }

  /** Neither query filters on `status` or `is_active`: changing them changes nothing. */
  lemma {:induction false} CleanIgnoresStatus(sub: Submission, rs: seq<Reservation>, rs': seq<Reservation>, now: int)
    requires SameButStatus(rs, rs')
    ensures Clean(sub, rs, now) == Clean(sub, rs', now)
  {
    SlotTakenIff(sub, rs, now);
    SlotTakenIff(sub, rs', now);
    TooSoonIff(sub, rs, now);
    TooSoonIff(sub, rs', now);
    if Timely(sub, now) {
      ForwardHitIgnoresStatus(rs, rs', sub.table, sub.date.value, sub.time.value);
      BackwardHitIgnoresStatus(rs, rs', sub.table, sub.date.value, sub.time.value);
    }
  }

  /** A canceled, inactive reservation still blocks its own hour. */
  lemma CanceledStillBlocks(sub: Submission, x: Reservation, rs: seq<Reservation>, now: int)
    requires Timely(sub, now) && sub.time.value < MinutesPerDay - SlotLength
    requires x in rs && x.status == Canceled && !x.isActive
    requires SameTableDate(x, sub.table, sub.date.value) && x.time == sub.time.value
    ensures Clean(sub, rs, now) == Failure(SlotTaken(sub.table.value.number))
  {
    SlotTakenIff(sub, rs, now);
    assert InForwardWindow(x, sub.table, sub.date.value, sub.time.value);
  }

  /** The bound form of an existing reservation: its own fields, unchanged. */
  function SubmissionOf(r: Reservation, t: Table): (sub: Submission)
    ensures sub.table == Some(t) && sub.date == Some(r.date) && sub.time == Some(r.time)
    ensures sub.guests == Some(r.guests)
  {
    Submission(Some(t), Some(r.name), Some(r.email), Some(r.phone), Some(r.date), Some(r.time), Some(r.guests))
  }

  /** The queries do not exclude the form's own instance: re-validating an unchanged,
      stored, upcoming reservation before 23:00 rejects it as taken. */
  lemma RevalidationConflictsWithItself(r: Reservation, t: Table, rs: seq<Reservation>, now: int)
    requires r in rs && t.id == r.table
    requires Instant(r.date, r.time) >= now && r.time < MinutesPerDay - SlotLength
    ensures Clean(SubmissionOf(r, t), rs, now) == Failure(SlotTaken(t.number))
  {
    var sub := SubmissionOf(r, t);
    SlotTakenIff(sub, rs, now);
    assert InForwardWindow(r, sub.table, r.date, r.time);
  }
}
