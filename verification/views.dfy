/** The reservation views: booking (`ReservationView.form_valid`), confirmation
    (`ConfirmReservationView.post`), the status update
    (`UpdateReservationStatusView.post`) and cancellation (`CancelReservationView`),
    each a function from the stored data to a `Result` holding the new data. */
module RestaurantViews {
  import opened Wrappers
  import opened RestaurantModels
  import opened ReservationForm

  /** `request.user`. */
  datatype RequestUser = Anonymous | Authenticated(id: nat)

  datatype BookingError =
    /** The form is invalid: `clean` refused it (`Some`), or a field is missing (`None`). */
    | InvalidForm(reason: Option<FormError>)
    | TableTaken
    | OverCapacity(capacity: int)
    /** Assigning `AnonymousUser` to the `owner` foreign key raises an uncaught `ValueError`. */
    | OwnerAssignmentCrash

  /** Every field of the form is present in `cleaned_data`. */
  predicate Complete(sub: Submission) {
    && sub.table.Some? && sub.name.Some? && sub.email.Some? && sub.phone.Some?
    && sub.date.Some? && sub.time.Some? && sub.guests.Some?
  }

  /** The unsaved `Reservation` the view builds from the form, with the primary key
      it receives when saved. */
  function Candidate(sub: Submission, rs: seq<Reservation>): (c: Reservation)
    requires Complete(sub)
    ensures c.table == sub.table.value.id && c.date == sub.date.value && c.time == sub.time.value
    ensures c.guests == sub.guests.value && c.status == Reserved && c.isActive
    ensures c.name == sub.name.value && c.email == sub.email.value && c.phone == sub.phone.value
    ensures c.owner == None && c.createdAt == None
    ensures forall x :: x in rs ==> x.id != c.id
  {
    NewReservation(NextId(rs), sub.table.value.id, sub.name.value, sub.email.value, sub.phone.value,
                   sub.date.value, sub.time.value, sub.guests.value)
  }

  /** Form validation, then `is_table_available`, then the capacity check; only
      then is the reservation saved, owned by the requesting user. */
  function Book(store: Store, sub: Submission, user: RequestUser, now: int): (r: Result<Store, BookingError>)
    ensures r.Success? <==>
      && Complete(sub) && Clean(sub, store.reservations, now).Success?
      && IsTableAvailable(store.reservations, Candidate(sub, store.reservations))
      && sub.guests.value <= sub.table.value.capacity
      && user.Authenticated?
    ensures r.Failure? && r.error.InvalidForm? <==> !Complete(sub) || Clean(sub, store.reservations, now).Failure?
    ensures r == Failure(TableTaken) <==>
      Complete(sub) && Clean(sub, store.reservations, now).Success? &&
      !IsTableAvailable(store.reservations, Candidate(sub, store.reservations))
    ensures r.Failure? && r.error.OverCapacity? <==>
      && Complete(sub) && Clean(sub, store.reservations, now).Success?
      && IsTableAvailable(store.reservations, Candidate(sub, store.reservations))
      && sub.guests.value > sub.table.value.capacity
    ensures r.Failure? && r.error.OverCapacity? ==> r.error.capacity == sub.table.value.capacity
    ensures r == Failure(OwnerAssignmentCrash) <==>
      && Complete(sub) && Clean(sub, store.reservations, now).Success?
      && IsTableAvailable(store.reservations, Candidate(sub, store.reservations))
      && sub.guests.value <= sub.table.value.capacity
      && user.Anonymous?
    ensures r.Success? ==>
      && r.value.tables == store.tables
      && |r.value.reservations| == |store.reservations| + 1
      && r.value.reservations[..|store.reservations|] == store.reservations
      && r.value.reservations[|store.reservations|] ==
         Candidate(sub, store.reservations).(owner := Some(user.id))
  {
    match Clean(sub, store.reservations, now)
    case Failure(e) => Failure(InvalidForm(Some(e)))
    case Success(_) =>
      if !Complete(sub) then Failure(InvalidForm(None))
      else
        var c := Candidate(sub, store.reservations);
        if !IsTableAvailable(store.reservations, c) then Failure(TableTaken)
        else if sub.guests.value > sub.table.value.capacity then Failure(OverCapacity(sub.table.value.capacity))
        else
          match user
          case Anonymous => Failure(OwnerAssignmentCrash)
          case Authenticated(u) => Success(store.(reservations := store.reservations + [c.(owner := Some(u))]))
  }

  /** Booking keeps the keys unique and the foreign keys resolvable, given that
      the chosen table is one of the stored tables (the form offers no other). */
  lemma BookPreservesWellFormed(store: Store, sub: Submission, user: RequestUser, now: int)
    requires WellFormed(store)
    requires sub.table.Some? ==> sub.table.value in store.tables
    ensures Book(store, sub, user, now).Success? ==> WellFormed(Book(store, sub, user, now).value)
  {
    var r := Book(store, sub, user, now);
    if r.Success? {
      var rs := store.reservations;
      var rs' := r.value.reservations;
      var n := rs'[|rs|];
      assert rs' == rs + [n];
      forall x | x in rs'
        ensures HasTable(store.tables, x.table)
      {
        if x != n {
          assert x in rs;
        }
      }
      forall i, j | 0 <= i < |rs'| && 0 <= j < |rs'| && i != j
        ensures rs'[i].id != rs'[j].id
      {
        if i < |rs| && j < |rs| {
        } else if i < |rs| {
          assert rs[i] in rs;
        } else {
          assert rs[j] in rs;
        }
      }
    }
  }

  /** Before 23:00 the form validation already rules out the exact slot, so
      `is_table_available` never changes the outcome. */
  lemma ExactSlotCheckRedundantBefore23(store: Store, sub: Submission, now: int)
    requires Complete(sub) && Clean(sub, store.reservations, now).Success?
    requires sub.time.value < MinutesPerDay - SlotLength
    ensures IsTableAvailable(store.reservations, Candidate(sub, store.reservations))
  {
    var c := Candidate(sub, store.reservations);
    CleanAcceptsIffNothingNearby(sub, store.reservations, now);
    forall x | x in store.reservations
      ensures !SameSlot(x, c)
    {
      assert !Nearby(x, sub.table, sub.date.value, sub.time.value);
    }
  }

  /** Before 23:00 a successful booking keeps the reservations of every table on
      every date at least an hour apart. */
  lemma {:induction false} BookKeepsHoursApart(store: Store, sub: Submission, user: RequestUser, now: int)
    requires NoSameDateOverlap(store.reservations)
    requires sub.time.Some? && sub.time.value < MinutesPerDay - SlotLength
    ensures Book(store, sub, user, now).Success? ==> NoSameDateOverlap(Book(store, sub, user, now).value.reservations)
  {
    var r := Book(store, sub, user, now);
    if r.Success? {
      var rs := store.reservations;
      var n := r.value.reservations[|rs|];
      assert r.value.reservations == rs + [n];
      CleanAcceptsIffNothingNearby(sub, rs, now);
      forall x | x in rs && x.date == n.date
        ensures !Overlaps(x, n) && !Overlaps(n, x)
      {
        assert !Nearby(x, sub.table, sub.date.value, sub.time.value);
        if x.table == n.table {
          OverlapSameDate(x, n);
          OverlapSameDate(n, x);
        }
      }
    }
  }

  /** From 23:00 on the forward window is empty and the exact-slot check only
      catches the same minute: a booking at 23:10 is saved although the table
      already has one at 23:20 that day. */
  lemma LateOverlappingBookingSaved()
    ensures
      var t := Table(1, "1", Available, 4);
      var x := Reservation(1, None, "A", "a@x", "1", 100, 1400, 2, None, true, 1, Reserved);
      var sub := Submission(Some(t), Some("B"), Some("b@x"), Some("2"), Some(100), Some(1390), Some(2));
      var r := Book(Store([t], [x]), sub, Authenticated(7), 0);
      && r.Success?
      && Overlaps(x, r.value.reservations[1]) && x.date == r.value.reservations[1].date
      && !NoSameDateOverlap(r.value.reservations)
  {
    var t := Table(1, "1", Available, 4);
    var x := Reservation(1, None, "A", "a@x", "1", 100, 1400, 2, None, true, 1, Reserved);
    var sub := Submission(Some(t), Some("B"), Some("b@x"), Some("2"), Some(100), Some(1390), Some(2));
    LateCleanAcceptsIffNothingBefore(sub, [x], 0);
    assert Clean(sub, [x], 0).Success?;
    var c := Candidate(sub, [x]);
    assert IsTableAvailable([x], c);
    var r := Book(Store([t], [x]), sub, Authenticated(7), 0);
    assert r.Success?;
    var n := r.value.reservations[1];
    assert n.id != x.id && n in r.value.reservations && x in r.value.reservations;
  }

  /** Only same-date rows are queried: a booking at 00:10 is saved although the
      table's previous-day booking at 23:30 is still running. */
  lemma CrossMidnightOverlapSaved()
    ensures
      var t := Table(1, "1", Available, 4);
      var x := Reservation(1, None, "A", "a@x", "1", 100, 1410, 2, None, true, 1, Reserved);
      var sub := Submission(Some(t), Some("B"), Some("b@x"), Some("2"), Some(101), Some(10), Some(2));
      var r := Book(Store([t], [x]), sub, Authenticated(7), 0);
      r.Success? && Overlaps(x, r.value.reservations[1])
  {
    var t := Table(1, "1", Available, 4);
    var x := Reservation(1, None, "A", "a@x", "1", 100, 1410, 2, None, true, 1, Reserved);
    var sub := Submission(Some(t), Some("B"), Some("b@x"), Some("2"), Some(101), Some(10), Some(2));
    CleanAcceptsIffNothingNearby(sub, [x], 0);
    assert Clean(sub, [x], 0).Success?;
    assert IsTableAvailable([x], Candidate(sub, [x]));
  }

  /** Same minute after 23:00: whenever the form lets such a request through,
      `is_table_available` stops it, for any user; when that booking is the only
      one, the form does let it through. */
  lemma LateSameMinuteStoppedByExactSlot(store: Store, sub: Submission, x: Reservation, user: RequestUser, now: int)
    requires Complete(sub) && Timely(sub, now) && sub.time.value >= MinutesPerDay - SlotLength
    requires x in store.reservations
    requires x.table == sub.table.value.id && x.date == sub.date.value && x.time == sub.time.value
    ensures Clean(sub, store.reservations, now).Success? ==> Book(store, sub, user, now) == Failure(TableTaken)
    ensures store.reservations == [x] ==> Clean(sub, store.reservations, now).Success?
  {
    assert SameSlot(x, Candidate(sub, store.reservations));
    if store.reservations == [x] {
      LateCleanAcceptsIffNothingBefore(sub, store.reservations, now);
    }
  }

  /** The capacity test is `guests > capacity`: a full table is accepted, one guest
      more is not. No bound is placed on either number, so a negative guest count
      passes too. */
  lemma CapacityBoundary(store: Store, sub: Submission, u: nat, user: RequestUser, now: int)
    requires Complete(sub) && Clean(sub, store.reservations, now).Success?
    requires IsTableAvailable(store.reservations, Candidate(sub, store.reservations))
    ensures sub.guests.value == sub.table.value.capacity ==> Book(store, sub, Authenticated(u), now).Success?
    ensures sub.guests.value == sub.table.value.capacity + 1 ==>
      Book(store, sub, user, now) == Failure(OverCapacity(sub.table.value.capacity))
    ensures sub.guests.value < 0 <= sub.table.value.capacity ==> Book(store, sub, Authenticated(u), now).Success?
  {
  }

  /** An example: table "3" seating 4, booked on day 500 at 18:00. */
  const ExampleTable: Table := Table(3, "3", Available, 4)
  const ExampleStore: Store :=
    Store([ExampleTable], [Reservation(1, None, "A", "a@x", "1", 500, 1080, 2, None, true, 3, Reserved)])
  const ExampleNow: int := Instant(499, 0)

  function ExampleRequest(date: int, time: Minute, guests: int): Submission {
    Submission(Some(ExampleTable), Some("B"), Some("b@x"), Some("2"), Some(date), Some(time), Some(guests))
  }

  /** 17:30 runs into the 18:00 booking: the forward query finds it. */
  lemma ExampleHalfHourBefore()
    ensures Book(ExampleStore, ExampleRequest(500, 1050, 2), Authenticated(9), ExampleNow) ==
      Failure(InvalidForm(Some(SlotTaken("3"))))
  {
    var sub := ExampleRequest(500, 1050, 2);
    SlotTakenIff(sub, ExampleStore.reservations, ExampleNow);
    assert InForwardWindow(ExampleStore.reservations[0], sub.table, 500, 1050);
  }

  /** 18:30 starts inside the 18:00 booking: the backward query finds it. */
  lemma ExampleHalfHourAfter()
    ensures Book(ExampleStore, ExampleRequest(500, 1110, 2), Authenticated(9), ExampleNow) ==
      Failure(InvalidForm(Some(TooSoonAfterPrevious("3"))))
  {
    var sub := ExampleRequest(500, 1110, 2);
    var x := ExampleStore.reservations[0];
    TooSoonIff(sub, ExampleStore.reservations, ExampleNow);
    assert !InForwardWindow(x, sub.table, 500, 1110);
    assert SameTableDate(x, sub.table, 500);
  }

  /** 19:00, back to back with the 18:00 booking, is saved. */
  lemma ExampleBackToBack()
    ensures Book(ExampleStore, ExampleRequest(500, 1140, 2), Authenticated(9), ExampleNow).Success?
  {
    var sub := ExampleRequest(500, 1140, 2);
    CleanAcceptsIffNothingNearby(sub, ExampleStore.reservations, ExampleNow);
    ExactSlotCheckRedundantBefore23(ExampleStore, sub, ExampleNow);
  }

  /** 20:00 is saved; five guests at 20:00 are too many for the table. */
  lemma ExampleCapacity()
    ensures Book(ExampleStore, ExampleRequest(500, 1200, 4), Authenticated(9), ExampleNow).Success?
    ensures Book(ExampleStore, ExampleRequest(500, 1200, 5), Authenticated(9), ExampleNow) == Failure(OverCapacity(4))
  {
    CleanAcceptsIffNothingNearby(ExampleRequest(500, 1200, 4), ExampleStore.reservations, ExampleNow);
    ExactSlotCheckRedundantBefore23(ExampleStore, ExampleRequest(500, 1200, 4), ExampleNow);
    CleanAcceptsIffNothingNearby(ExampleRequest(500, 1200, 5), ExampleStore.reservations, ExampleNow);
    ExactSlotCheckRedundantBefore23(ExampleStore, ExampleRequest(500, 1200, 5), ExampleNow);
  }

  /** A request for the day before "now" is in the past. */
  lemma ExamplePast()
    ensures Book(ExampleStore, ExampleRequest(498, 1200, 2), Authenticated(9), ExampleNow) ==
      Failure(InvalidForm(Some(PastDateTime)))
  {
  }

  datatype ViewError =
    /** The reservation id resolves to nothing (`DoesNotExist` / 404). */
    | NotFound
    /** `is_table_available` found a row at the same table, date and time. */
    | SlotAlreadyBooked
    /** A confirm request for a reservation whose status is not "Reserved" (400). */
    | ConfirmOnlyFromReserved

  /** `rs` with the status of the row `id` replaced. */
  function SetStatus(rs: seq<Reservation>, id: nat, st: Status): (r: seq<Reservation>)
    ensures |r| == |rs|
    ensures forall i :: 0 <= i < |rs| ==> r[i] == (if rs[i].id == id then rs[i].(status := st) else rs[i])
  {
    seq(|rs|, i requires 0 <= i < |rs| => if rs[i].id == id then rs[i].(status := st) else rs[i])
  }

  /** `ConfirmReservationView.post`: set status "confirmed", check the slot, save. */
  function Confirm(store: Store, id: nat): (r: Result<Store, ViewError>)
    ensures r == Failure(NotFound) <==> forall x :: x in store.reservations ==> x.id != id
    ensures r.Success? ==>
      r.value == store.(reservations := SetStatus(store.reservations, id, ConfirmedLower))
  {
    match Find(store.reservations, id)
    case None => Failure(NotFound)
    case Some(x) =>
      var confirmed := x.(status := ConfirmedLower);
      if !IsTableAvailable(store.reservations, confirmed) then Failure(SlotAlreadyBooked)
      else Success(store.(reservations := SetStatus(store.reservations, id, ConfirmedLower)))
  }

  /** Confirmation never persists: the availability query finds the reservation
      itself, so a stored reservation always fails it and an unknown id is not
      found. The status it would write is not one of the choices. */
  lemma ConfirmNeverPersists(store: Store, id: nat)
    ensures Confirm(store, id).Failure?
    ensures (exists x :: x in store.reservations && x.id == id) ==> Confirm(store, id) == Failure(SlotAlreadyBooked)
    ensures StatusLiteral(ConfirmedLower) !in StatusChoices
  {
    match Find(store.reservations, id)
    case None =>
    case Some(x) =>
      StoredReservationNeverAvailable(store.reservations, x, x.(status := ConfirmedLower));
    ChoiceRoundTrip(ConfirmedLower);
  }

  /** `UpdateReservationStatusView.post` with the posted `status` value, if any. */
  function UpdateStatus(store: Store, id: nat, posted: Option<string>): (r: Result<Store, ViewError>)
    ensures r == Failure(NotFound) <==> forall x :: x in store.reservations ==> x.id != id
    ensures r.Failure? ==> r == Failure(NotFound) || r == Failure(ConfirmOnlyFromReserved)
    ensures r.Success? <==>
      && Find(store.reservations, id).Some?
      && !(posted == Some(ConfirmLiteral) && Find(store.reservations, id).value.status != Reserved)
    ensures r == Failure(ConfirmOnlyFromReserved) <==>
      && Find(store.reservations, id).Some? && posted == Some(ConfirmLiteral)
      && Find(store.reservations, id).value.status != Reserved
    ensures Find(store.reservations, id).Some? && (posted.None? || posted.value !in StatusChoices) ==>
      r == Success(store)
    ensures r.Success? && posted.Some? && posted.value in StatusChoices ==>
      r.value == store.(reservations := SetStatus(store.reservations, id, ChoiceFromLiteral(posted.value).value))
    ensures r.Success? ==> r.value.tables == store.tables
  {
    match Find(store.reservations, id)
    case None => Failure(NotFound)
    case Some(x) =>
      match posted
      case None => Success(store)
      case Some(lit) =>
        match ChoiceFromLiteral(lit)
        case None => Success(store)
        case Some(st) =>
          if st == ConfirmChoice && x.status != Reserved then Failure(ConfirmOnlyFromReserved)
          else Success(store.(reservations := SetStatus(store.reservations, id, st)))
  }

  /** Every choice but the confirm one is written whatever the current status is:
      a canceled reservation can be put back to "Reserved" and then confirmed. */
  lemma CanceledIsNotTerminal(store: Store, x: Reservation)
    requires x in store.reservations && x.status == Canceled && UniqueReservationIds(store.reservations)
    ensures UpdateStatus(store, x.id, Some(ConfirmLiteral)) == Failure(ConfirmOnlyFromReserved)
    ensures UpdateStatus(store, x.id, Some("Reserved")).Success?
    ensures
      var s1 := UpdateStatus(store, x.id, Some("Reserved")).value;
      UpdateStatus(s1, x.id, Some(ConfirmLiteral)).Success? &&
      x.(status := ConfirmChoice) in UpdateStatus(s1, x.id, Some(ConfirmLiteral)).value.reservations
  {
    var rs := store.reservations;
    var i :| 0 <= i < |rs| && rs[i] == x;
    FindUnique(rs, i);
    ChoiceRoundTrip(Reserved);
    ChoiceRoundTrip(ConfirmChoice);
    var s1 := UpdateStatus(store, x.id, Some("Reserved")).value;
    assert s1.reservations[i] == x.(status := Reserved);
    SetStatusKeepsIds(rs, x.id, Reserved);
    FindUnique(s1.reservations, i);
    var s2 := UpdateStatus(s1, x.id, Some(ConfirmLiteral)).value;
    assert s2.reservations[i] == x.(status := ConfirmChoice);
  }

  /** With unique keys, `Find` returns the row at the key's position. */
  lemma FindUnique(rs: seq<Reservation>, i: int)
    requires UniqueReservationIds(rs) && 0 <= i < |rs|
    ensures Find(rs, rs[i].id) == Some(rs[i])
  {
    if i > 0 {
      assert rs[0].id != rs[i].id;
      assert UniqueReservationIds(rs[1..]) by {
        forall a, b | 0 <= a < |rs| - 1 && 0 <= b < |rs| - 1 && a != b
          ensures rs[1..][a].id != rs[1..][b].id
        {
          assert rs[1..][a] == rs[a + 1] && rs[1..][b] == rs[b + 1];
        }
      }
      FindUnique(rs[1..], i - 1);
    }
  }

  lemma SetStatusKeepsIds(rs: seq<Reservation>, id: nat, st: Status)
    ensures UniqueReservationIds(rs) ==> UniqueReservationIds(SetStatus(rs, id, st))
    ensures forall i :: 0 <= i < |rs| ==>
      SetStatus(rs, id, st)[i].id == rs[i].id && SetStatus(rs, id, st)[i].table == rs[i].table &&
      SetStatus(rs, id, st)[i].date == rs[i].date && SetStatus(rs, id, st)[i].time == rs[i].time
  {
  }

  /** Changing statuses keeps the keys, the foreign keys and the hour spacing. */
  lemma SetStatusPreservesInvariants(store: Store, id: nat, st: Status)
    requires WellFormed(store) && NoSameDateOverlap(store.reservations)
    ensures WellFormed(store.(reservations := SetStatus(store.reservations, id, st)))
    ensures NoSameDateOverlap(SetStatus(store.reservations, id, st))
  {
    var rs := store.reservations;
    var rs' := SetStatus(rs, id, st);
    SetStatusKeepsIds(rs, id, st);
    forall y | y in rs'
      ensures HasTable(store.tables, y.table)
    {
      var i :| 0 <= i < |rs'| && rs'[i] == y;
      assert rs[i] in rs;
    }
    forall y1, y2 | y1 in rs' && y2 in rs' && y1.id != y2.id && y1.date == y2.date
      ensures !Overlaps(y1, y2)
    {
      var i :| 0 <= i < |rs'| && rs'[i] == y1;
      var j :| 0 <= j < |rs'| && rs'[j] == y2;
      assert rs[i] in rs && rs[j] in rs;
      assert !Overlaps(rs[i], rs[j]);
    }
  }

  /** A status update keeps the keys, the foreign keys and the hour spacing. */
  lemma UpdateStatusPreservesInvariants(store: Store, id: nat, posted: Option<string>)
    requires WellFormed(store) && NoSameDateOverlap(store.reservations)
    ensures UpdateStatus(store, id, posted).Success? ==>
      WellFormed(UpdateStatus(store, id, posted).value) &&
      NoSameDateOverlap(UpdateStatus(store, id, posted).value.reservations)
  {
    var r := UpdateStatus(store, id, posted);
    if r.Success? && posted.Some? && posted.value in StatusChoices {
      SetStatusPreservesInvariants(store, id, ChoiceFromLiteral(posted.value).value);
    }
  }

  /** `tables` with the status of the table `id` set to "available". */
  function MarkAvailable(ts: seq<Table>, id: nat): (r: seq<Table>)
    ensures |r| == |ts|
    ensures forall i :: 0 <= i < |ts| ==> r[i] == (if ts[i].id == id then ts[i].(status := Available) else ts[i])
  {
    seq(|ts|, i requires 0 <= i < |ts| => if ts[i].id == id then ts[i].(status := Available) else ts[i])
  }

  /** `CancelReservationView`: mark the reservation's table available, then delete
      the reservation. */
  function Cancel(store: Store, id: nat): (r: Result<Store, ViewError>)
    ensures r == Failure(NotFound) <==> forall x :: x in store.reservations ==> x.id != id
    ensures r.Success? <==> exists x :: x in store.reservations && x.id == id
    ensures r.Failure? ==> r == Failure(NotFound)
    ensures r.Success? ==> forall y :: y in r.value.reservations <==> y in store.reservations && y.id != id
    ensures r.Success? ==>
      && |r.value.tables| == |store.tables|
      && forall i :: 0 <= i < |store.tables| ==>
           r.value.tables[i] ==
             if store.tables[i].id == Find(store.reservations, id).value.table
             then store.tables[i].(status := Available) else store.tables[i]
  {
    match Find(store.reservations, id)
    case None => Failure(NotFound)
    case Some(x) =>
      Success(Store(MarkAvailable(store.tables, x.table), Where(store.reservations, (y: Reservation) => y.id != id)))
  }

  /** Cancelling sets the table available even when other bookings of that table remain. */
  lemma CancelFreesTableRegardless(store: Store, x: Reservation, other: Reservation)
    requires WellFormed(store) && x in store.reservations
    requires other in store.reservations && other.id != x.id && other.table == x.table
    ensures Cancel(store, x.id).Success?
    ensures other in Cancel(store, x.id).value.reservations
    ensures x !in Cancel(store, x.id).value.reservations
    ensures forall t :: t in Cancel(store, x.id).value.tables && t.id == x.table ==> t.status == Available
    ensures exists t :: t in Cancel(store, x.id).value.tables && t.id == x.table
  {
    var rs := store.reservations;
    var i :| 0 <= i < |rs| && rs[i] == x;
    FindUnique(rs, i);
    var ts := store.tables;
    var ts' := Cancel(store, x.id).value.tables;
    forall t | t in ts' && t.id == x.table
      ensures t.status == Available
    {
      var k :| 0 <= k < |ts'| && ts'[k] == t;
      assert ts[k].id == t.id;
    }
    assert HasTable(ts, x.table);
    var t :| t in ts && t.id == x.table;
    var k :| 0 <= k < |ts| && ts[k] == t;
    assert ts'[k] in ts';
  }

  lemma {:induction false} WhereKeepsUniqueIds(rs: seq<Reservation>, p: Reservation -> bool)
    requires UniqueReservationIds(rs)
    ensures UniqueReservationIds(Where(rs, p))
    decreases |rs|
  {
    if |rs| > 0 {
      var tail := rs[1..];
      assert UniqueReservationIds(tail) by {
        forall a, b | 0 <= a < |tail| && 0 <= b < |tail| && a != b
          ensures tail[a].id != tail[b].id
        {
          assert tail[a] == rs[a + 1] && tail[b] == rs[b + 1];
        }
      }
      WhereKeepsUniqueIds(tail, p);
      if p(rs[0]) {
        var w := Where(tail, p);
        forall y | y in w
          ensures y.id != rs[0].id
        {
          var j :| 0 <= j < |tail| && tail[j] == y;
          assert rs[j + 1] == y;
        }
        var full := [rs[0]] + w;
        forall a, b | 0 <= a < |full| && 0 <= b < |full| && a != b
          ensures full[a].id != full[b].id
        {
          if a > 0 && b > 0 {
            assert full[a] == w[a - 1] && full[b] == w[b - 1];
          } else if a == 0 {
            assert full[b] == w[b - 1] && full[b] in w;
          } else {
            assert full[a] == w[a - 1] && full[a] in w;
          }
        }
      }
    }
  }

  /** Cancelling keeps the keys, the foreign keys and the hour spacing. */
  lemma CancelPreservesInvariants(store: Store, id: nat)
    requires WellFormed(store) && NoSameDateOverlap(store.reservations)
    ensures Cancel(store, id).Success? ==>
      WellFormed(Cancel(store, id).value) && NoSameDateOverlap(Cancel(store, id).value.reservations)
  {
    var r := Cancel(store, id);
    if r.Success? {
      WhereKeepsUniqueIds(store.reservations, (y: Reservation) => y.id != id);
      var ts := store.tables;
      var ts' := r.value.tables;
      forall y | y in r.value.reservations
        ensures HasTable(ts', y.table)
      {
        assert HasTable(ts, y.table);
        var t :| t in ts && t.id == y.table;
        var k :| 0 <= k < |ts| && ts[k] == t;
        assert ts'[k] in ts' && ts'[k].id == y.table;
      }
    }
  }
}
