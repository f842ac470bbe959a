/**
 The admin console: the dashboard's reservation list and statistics, and the
 "clear dataset" operation that truncates one named table to its header.
 */
module AdminConsole {
  import opened Records
  import opened Tables
  import opened Lookups
  import opened Booking

  /** The five tables an admin may clear, by the name used in the request path. */
  datatype Dataset = Users | Admins | Services | Reservations | Reviews

  function DatasetName(d: Dataset): string
  {
    match d
    case Users => "users"
    case Admins => "admins"
    case Services => "services"
    case Reservations => "reservations"
    case Reviews => "reviews"
  }

  /** The dataset a request path names; None for any other name. */
  function ParseDataset(name: string): (r: Option<Dataset>)
    ensures forall d :: r == Some(d) <==> DatasetName(d) == name
  {
    if name == "users" then Some(Users)
    else if name == "admins" then Some(Admins)
    else if name == "services" then Some(Services)
    else if name == "reservations" then Some(Reservations)
    else if name == "reviews" then Some(Reviews)
    else None
  }

  /** The number of data rows in one table. */
  function TableSize(db: Db, d: Dataset): nat
  {
    match d
    case Users => |db.users|
    case Admins => |db.admins|
    case Services => |db.services|
    case Reservations => |db.reservations|
    case Reviews => |db.reviews|
  }

  /** Table `d` holds the same rows in `a` and in `b`. */
  predicate SameTable(a: Db, b: Db, d: Dataset)
  {
    match d
    case Users => a.users == b.users
    case Admins => a.admins == b.admins
    case Services => a.services == b.services
    case Reservations => a.reservations == b.reservations
    case Reviews => a.reviews == b.reviews
  }

  /** Rewrites table `d` with its header only: no data rows remain, the other tables are untouched. */
  function ClearDataset(db: Db, d: Dataset): (r: Db)
    ensures TableSize(r, d) == 0
    ensures forall e :: e != d ==> SameTable(db, r, e)
  {
    match d
    case Users => db.(users := [])
    case Admins => db.(admins := [])
    case Services => db.(services := [])
    case Reservations => db.(reservations := [])
    case Reviews => db.(reviews := [])
  }

  /** Clearing a table twice is the same as clearing it once. */
  lemma ClearIdempotent(db: Db, d: Dataset)
    ensures ClearDataset(ClearDataset(db, d), d) == ClearDataset(db, d)
  {
  }

  /** The number of reservation rows whose status is exactly `status`. */
  function CountStatus(reservations: seq<Reservation>, status: string): (n: nat)
    ensures n <= |reservations|
    ensures n == 0 <==> forall i :: 0 <= i < |reservations| ==> reservations[i].status != status
    ensures n == |reservations| <==> forall i :: 0 <= i < |reservations| ==> reservations[i].status == status
    decreases |reservations|
  {
    if reservations == [] then 0
    else
      var rest := CountStatus(reservations[1..], status);
      assert forall i :: 1 <= i < |reservations| ==> reservations[i] == reservations[1..][i - 1];
      (if reservations[0].status == status then 1 else 0) + rest
  }

  /** Counting a concatenation counts each part: every row adds 1 exactly when it has the status. */
  lemma {:induction false} CountStatusAppend(a: seq<Reservation>, b: seq<Reservation>, status: string)
    ensures CountStatus(a + b, status) == CountStatus(a, status) + CountStatus(b, status)
    decreases |a|
  {
    if a == [] {
      assert a + b == b;
    } else {
      assert (a + b)[1..] == a[1..] + b;
      CountStatusAppend(a[1..], b, status);
    }
  }

  /** A row has one status, so the counts of two different statuses add up to at most the row count. */
  lemma {:induction false} TwoStatusesAtMostTotal(reservations: seq<Reservation>, s1: string, s2: string)
    requires s1 != s2
    ensures CountStatus(reservations, s1) + CountStatus(reservations, s2) <= |reservations|
    decreases |reservations|
  {
    if reservations != [] {
      TwoStatusesAtMostTotal(reservations[1..], s1, s2);
    }
  }

  /** The statistics block of the dashboard. */
  datatype Stats = Stats(
    totalReservations: nat, confirmedReservations: nat, cancelledReservations: nat,
    totalUsers: nat, totalServices: nat)

  /**
   Reservation totals count rows; the user and service totals are the sizes of
   dictionaries keyed by id, so they count distinct ids.
   */
  function DashboardStats(reservations: seq<Reservation>, services: seq<Service>, users: seq<User>)
    : (s: Stats)
    ensures s.totalReservations == |reservations|
    ensures s.confirmedReservations == CountStatus(reservations, Confirmed)
    ensures s.cancelledReservations == CountStatus(reservations, Cancelled)
    ensures s.confirmedReservations + s.cancelledReservations <= s.totalReservations
    ensures s.totalUsers == |IdSet(users, UserKey)| <= |users|
    ensures s.totalServices == |IdSet(services, ServiceKey)| <= |services|
    ensures UniqueIds(users, UserKey) ==> s.totalUsers == |users|
    ensures UniqueIds(services, ServiceKey) ==> s.totalServices == |services|
  {
    TwoStatusesAtMostTotal(reservations, Confirmed, Cancelled);
    IdSetSize(users, UserKey);
    IdSetSize(services, ServiceKey);
    Stats(
      |reservations|,
      CountStatus(reservations, Confirmed),
      CountStatus(reservations, Cancelled),
      |IndexById(users, UserKey)|,
      |IndexById(services, ServiceKey)|)
  }

  /**
   The application never writes a status other than "confirmed" (cancelling
   deletes the row), so on its own data the cancelled count is always zero.
   */
  lemma AllConfirmedStats(reservations: seq<Reservation>, services: seq<Service>, users: seq<User>)
    requires AllConfirmed(reservations)
    ensures DashboardStats(reservations, services, users).confirmedReservations == |reservations|
    ensures DashboardStats(reservations, services, users).cancelledReservations == 0
  {
  }

  /** A reservation row with its service name and its user's name, as the dashboard lists it. */
  datatype DashboardRow = DashboardRow(reservation: Reservation, serviceName: string, username: string)

  /** A reservation with its service's name and its user's name, each "Unknown" when missing. */
  function Enhanced(r: Reservation, services: seq<Service>, users: seq<User>): DashboardRow
  {
    DashboardRow(r, ServiceName(services, r.serviceId), UsernameOr(users, r.userId, "Unknown"))
  }

  /**
   A dashboard row keeps the reservation as it is; each name is "Unknown"
   exactly when no row has the id, and otherwise comes from the last row with
   it, which with unique ids is the one row with it.
   */
  lemma EnhancedNames(r: Reservation, services: seq<Service>, users: seq<User>)
    ensures Enhanced(r, services, users).reservation == r
    ensures (forall i :: 0 <= i < |services| ==> services[i].id != r.serviceId) ==>
      Enhanced(r, services, users).serviceName == "Unknown"
    ensures UniqueIds(services, ServiceKey) ==>
      forall i :: 0 <= i < |services| && services[i].id == r.serviceId ==>
        Enhanced(r, services, users).serviceName == services[i].name
    ensures (forall i :: 0 <= i < |users| ==> users[i].id != r.userId) ==>
      Enhanced(r, services, users).username == "Unknown"
    ensures UniqueIds(users, UserKey) ==>
      forall i :: 0 <= i < |users| && users[i].id == r.userId ==>
        Enhanced(r, services, users).username == users[i].username
  {
    ServiceNameIsLastMatch(services, r.serviceId);
    UsernameIsLastMatch(users, r.userId, "Unknown");
  }

  /** Builds the dashboard's list by copying each reservation and adding the two names, in table order. */
  method DashboardRows(reservations: seq<Reservation>, services: seq<Service>, users: seq<User>)
    returns (rows: seq<DashboardRow>)
    ensures |rows| == |reservations|
    ensures forall i :: 0 <= i < |reservations| ==> rows[i] == Enhanced(reservations[i], services, users)
  {
    rows := [];
    for i := 0 to |reservations|
      invariant |rows| == i
      invariant forall k :: 0 <= k < i ==> rows[k] == Enhanced(reservations[k], services, users)
    {
      var enhanced := Enhanced(reservations[i], services, users);
      ghost var before := rows;
      rows := rows + [enhanced];
      assert forall k :: 0 <= k < i ==> rows[k] == before[k];
    }
  }
}
