/** The `Tables` and `Reservation` records, their defaults and status choices,
    the stored data as two sequences, and `Reservation.is_table_available`. */
module RestaurantModels {
  import opened Wrappers

  /** Minutes since midnight: a `TimeField` value. */
  type Minute = m: int | 0 <= m < 1440

  const MinutesPerDay: int := 1440

  /** The fixed length of a booking in minutes. */
  const SlotLength: int := 60

  /** `datetime.combine(date, time)` as minutes since day 0 (dates are day numbers). */
  function Instant(date: int, time: Minute): int {
    date * MinutesPerDay + time
  }

  /** The value of `Tables.status`. */
  datatype TableStatus = Available | TableReserved

  /** The value of `Reservation.status`: the three choices plus the value
      the confirm view writes, which is not one of them. */
  datatype Status = ConfirmChoice | Reserved | Canceled | ConfirmedLower

  /** The confirm choice: its first letter is the Cyrillic capital Es (U+0421), not a Latin C. */
  const ConfirmLiteral: string := "\U{0421}onfirm"

  /** The three `Reservation.STATUS_CHOICES` keys, in declaration order. */
  const StatusChoices: seq<string> := [ConfirmLiteral, "Reserved", "Canceled"]

  /** The string stored in the database for a status. */
  function StatusLiteral(s: Status): string {
    match s
    case ConfirmChoice => ConfirmLiteral
    case Reserved => "Reserved"
    case Canceled => "Canceled"
    case ConfirmedLower => "confirmed"
  }

  /** The choice a posted string names, if any (exact, case-sensitive comparison). */
  function ChoiceFromLiteral(lit: string): (r: Option<Status>)
    ensures r.Some? <==> lit in StatusChoices
    ensures r.Some? ==> StatusLiteral(r.value) == lit && r.value != ConfirmedLower
  {
    if lit == ConfirmLiteral then Some(ConfirmChoice)
    else if lit == "Reserved" then Some(Reserved)
    else if lit == "Canceled" then Some(Canceled)
    else None
  }

  /** Every status but the one the confirm view writes is a choice, and its
      literal reads back as itself; "confirmed" reads back as nothing. */
  lemma ChoiceRoundTrip(s: Status)
    ensures s != ConfirmedLower <==> StatusLiteral(s) in StatusChoices
    ensures s != ConfirmedLower ==> ChoiceFromLiteral(StatusLiteral(s)) == Some(s)
    ensures ChoiceFromLiteral(StatusLiteral(ConfirmedLower)) == None
  {
    assert ConfirmLiteral[0] == '\U{0421}';
    assert "confirmed"[0] == 'c';
  }

  /** The Latin spelling "Confirm" is not a choice. */
  lemma LatinConfirmIsNoChoice()
    ensures "Confirm" !in StatusChoices
    ensures ChoiceFromLiteral("Confirm") == None
  {
    assert "Confirm"[0] == 'C' != ConfirmLiteral[0];
  }

  datatype Table = Table(id: nat, number: string, status: TableStatus, capacity: int)

  /** A table created without explicit values: number "1", available, capacity 1. */
  function NewTable(id: nat): (t: Table)
    ensures t.id == id && t.number == "1"
    ensures t.status == Available && t.capacity == 1
  {
    Table(id, "1", Available, 1)
  }

  datatype Reservation = Reservation(
    id: nat,
    owner: Option<nat>,
    name: string,
    email: string,
    phone: string,
    date: int,
    time: Minute,
    guests: int,
    createdAt: Option<int>,
    isActive: bool,
    table: nat,
    status: Status)

  /** `Reservation(table=..., date=..., ...)` with every other field at its default:
      no owner, no creation time, active, status "Reserved". */
  function NewReservation(id: nat, table: nat, name: string, email: string, phone: string,
                          date: int, time: Minute, guests: int): (r: Reservation)
    ensures r.id == id && r.table == table && r.date == date && r.time == time
    ensures r.guests == guests && r.name == name && r.email == email && r.phone == phone
    ensures r.owner == None && r.createdAt == None
    ensures r.isActive && r.status == Reserved && StatusLiteral(r.status) == "Reserved"
  {
    Reservation(id, None, name, email, phone, date, time, guests, None, true, table, Reserved)
  }

  /** The stored data: the `Tables` rows and the `Reservation` rows. */
  datatype Store = Store(tables: seq<Table>, reservations: seq<Reservation>)

  /** An ORM `filter`: the rows satisfying `p`, in stored order. */
  function Where(rs: seq<Reservation>, p: Reservation -> bool): (r: seq<Reservation>)
    ensures |r| <= |rs|
    ensures forall x :: x in r <==> x in rs && p(x)
    ensures |r| > 0 <==> exists x :: x in rs && p(x)
  {
    if |rs| == 0 then []
    else if p(rs[0]) then [rs[0]] + Where(rs[1..], p)
    else Where(rs[1..], p)
  }

  predicate SameSlot(x: Reservation, c: Reservation) {
    x.table == c.table && x.date == c.date && x.time == c.time
  }

  /** `is_table_available`: no stored row has the same table, date and exact time. */
  function IsTableAvailable(rs: seq<Reservation>, c: Reservation): (available: bool)
    ensures available <==> forall x :: x in rs ==> !SameSlot(x, c)
  {
    |Where(rs, x => SameSlot(x, c))| == 0
  }

  /** The query does not exclude the row itself: a stored reservation, or any copy
      of it with other fields changed, never finds its own table available. */
  lemma StoredReservationNeverAvailable(rs: seq<Reservation>, r: Reservation, c: Reservation)
    requires r in rs
    requires c.table == r.table && c.date == r.date && c.time == r.time
    ensures !IsTableAvailable(rs, c)
  {
    assert SameSlot(r, c);
  }

  /** The reservation with the given primary key, if any. */
  function Find(rs: seq<Reservation>, id: nat): (r: Option<Reservation>)
    ensures r.Some? ==> r.value in rs && r.value.id == id
    ensures r.None? <==> forall x :: x in rs ==> x.id != id
  {
    if |rs| == 0 then None
    else if rs[0].id == id then Some(rs[0])
    else Find(rs[1..], id)
  }

  /** The primary key the database hands out next: larger than every stored one. */
  function NextId(rs: seq<Reservation>): (n: nat)
    ensures n > 0
    ensures forall x :: x in rs ==> x.id < n
  {
    if |rs| == 0 then 1
    else
      var rest := NextId(rs[1..]);
      if rs[0].id < rest then rest else rs[0].id + 1
  }

  predicate UniqueReservationIds(rs: seq<Reservation>) {
    forall i, j :: 0 <= i < |rs| && 0 <= j < |rs| && i != j ==> rs[i].id != rs[j].id
  }

  predicate UniqueTableIds(ts: seq<Table>) {
    forall i, j :: 0 <= i < |ts| && 0 <= j < |ts| && i != j ==> ts[i].id != ts[j].id
  }

  predicate HasTable(ts: seq<Table>, id: nat) {
    exists t :: t in ts && t.id == id
  }

  /** Primary keys are unique and every reservation's foreign key resolves. */
  predicate WellFormed(s: Store) {
    && UniqueReservationIds(s.reservations)
    && UniqueTableIds(s.tables)
    && forall x :: x in s.reservations ==> HasTable(s.tables, x.table)
  }

  /** Two reservations of one table whose hours `[start, start + 60)` intersect on
      the absolute time line. */
  predicate Overlaps(a: Reservation, b: Reservation) {
    && a.table == b.table
    && Instant(a.date, a.time) < Instant(b.date, b.time) + SlotLength
    && Instant(b.date, b.time) < Instant(a.date, a.time) + SlotLength
  }

  /** No two distinct stored reservations of one table on one date occupy
      overlapping hours. */
  predicate NoSameDateOverlap(rs: seq<Reservation>) {
    forall x, y :: x in rs && y in rs && x.id != y.id && x.date == y.date ==> !Overlaps(x, y)
  }

  /** On one date, two slots overlap exactly when their start times are less than
      an hour apart. */
  lemma OverlapSameDate(a: Reservation, b: Reservation)
    requires a.date == b.date && a.table == b.table
    ensures Overlaps(a, b) <==> -SlotLength < a.time - b.time < SlotLength
  {
  }
}
