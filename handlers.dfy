/**
 The request handlers that read and change the tables. The store holds the
 five tables as the handlers see them after reading their files; a handler
 that appends a row or rewrites a file reassigns the matching field. The
 signed-in principal, when there is one, is passed in as `session`.
 */
module Handlers {
  import opened Records
  import opened Tables
  import opened Identity
  import opened Booking
  import opened AdminConsole
  import opened Lookups

  /** What a handler reports back: the flash message or page it leads to. */
  datatype Outcome =
    | Created(id: nat)
    | DuplicateUsername
    | LoginRequired
    | NotFoundOrUnauthorized
    | ConfirmCancel(view: ReservationView)
    | ReservationCancelled
    | InvalidDataset
    | DatasetCleared(dataset: Dataset)

  /** The dashboard page: every reservation with its names, and the statistics. */
  datatype DashboardPage = DashboardPage(rows: seq<DashboardRow>, stats: Stats)

  /**
   What the handlers keep true of data they wrote themselves: ids unique in
   every table, usernames distinct across users and admins, and every
   reservation "confirmed". No handler relies on it.
   */
  predicate Consistent(db: Db)
  {
    && UniqueIds(db.users, UserKey)
    && UniqueIds(db.admins, AdminKey)
    && UniqueIds(db.services, ServiceKey)
    && UniqueIds(db.reservations, ReservationKey)
    && UniqueIds(db.reviews, ReviewKey)
    && DistinctUsernames(db.users, db.admins)
    && AllConfirmed(db.reservations)
  }

  class Store {
    var users: seq<User>
    var admins: seq<Admin>
    var services: seq<Service>
    var reservations: seq<Reservation>
    var reviews: seq<Review>

    /** All five tables. */
    function State(): Db
      reads this
    {
      Db(users, admins, services, reservations, reviews)
    }

    predicate Valid()
      reads this
    {
      Consistent(State())
    }

    /** Opens the store over the tables as found at startup (header-only files are empty tables). */
    constructor (db: Db)
      ensures State() == db
      ensures Valid() <==> Consistent(db)
    {
      users, admins, services, reservations, reviews :=
        db.users, db.admins, db.services, db.reservations, db.reviews;
    }

    /**
     Registration: a username already used in the users OR the admins table is
     rejected and nothing is written; otherwise one row is appended to the
     users table with the next id.
     */
    method Register(username: string, password: string, email: string, phone: string) returns (o: Outcome)
      modifies this`users
      ensures UsernameExists(old(users), admins, username) ==>
        o == DuplicateUsername && users == old(users)
      ensures !UsernameExists(old(users), admins, username) ==>
        var id := NextId(old(users), UserKey);
        o == Created(id) && users == old(users) + [User(id, username, password, email, phone)]
      ensures old(Valid()) ==> Valid()
    {
      if UsernameExists(users, admins, username) {
        o := DuplicateUsername;
        return;
      }
      var id := NextId(users, UserKey);
      var row := User(id, username, password, email, phone);
      if Valid() {
        AppendNextIdKeepsUnique(users, UserKey, row);
        RegisterKeepsUsernamesDistinct(users, admins, row);
      }
      users := users + [row];
      o := Created(id);
    }

    /**
     Booking: the signed-in principal gets one more row with the next id and
     status "confirmed". Nothing is checked against existing reservations of
     the same barber, date or time.
     */
    method MakeReservation(session: Option<Session>, serviceId: nat, date: string, time: string, barber: string)
      returns (o: Outcome)
      modifies this`reservations
      ensures session.None? ==> o == LoginRequired && reservations == old(reservations)
      ensures session.Some? ==>
        var id := NextId(old(reservations), ReservationKey);
        o == Created(id) &&
        reservations == old(reservations) + [Reservation(id, session.value.userId, serviceId, date, time, barber, Confirmed)]
      ensures old(Valid()) ==> Valid()
    {
      if session.None? {
        o := LoginRequired;
        return;
      }
      var id := NextId(reservations, ReservationKey);
      var row := Reservation(id, session.value.userId, serviceId, date, time, barber, Confirmed);
      if Valid() {
        AppendNextIdKeepsUnique(reservations, ReservationKey, row);
      }
      reservations := reservations + [row];
      o := Created(id);
    }

    /**
     Cancellation: the first row with the id must exist and belong to the
     signed-in principal, else nothing changes. Without `confirmed` (a GET) the
     row is shown with its service name; with it (a POST) the table is
     rewritten without every row that has the id.
     */
    method CancelReservation(session: Option<Session>, id: nat, confirmed: bool) returns (o: Outcome)
      modifies this`reservations
      ensures session.None? ==> o == LoginRequired && reservations == old(reservations)
      ensures session.Some? && !MayCancel(old(reservations), id, session.value.userId) ==>
        o == NotFoundOrUnauthorized && reservations == old(reservations)
      ensures session.Some? && MayCancel(old(reservations), id, session.value.userId) && !confirmed ==>
        o == ConfirmCancel(View(FindReservation(old(reservations), id).value, services)) &&
        reservations == old(reservations)
      ensures session.Some? && MayCancel(old(reservations), id, session.value.userId) && confirmed ==>
        o == ReservationCancelled && reservations == RemoveId(old(reservations), id)
      ensures old(Valid()) && session.Some? && MayCancel(old(reservations), id, session.value.userId) && confirmed ==>
        |reservations| == |old(reservations)| - 1
      ensures old(Valid()) ==> Valid()
    {
      if session.None? {
        o := LoginRequired;
        return;
      }
      var found := FindReservation(reservations, id);
      if found.None? || found.value.userId != session.value.userId {
        o := NotFoundOrUnauthorized;
        return;
      }
      if !confirmed {
        o := ConfirmCancel(View(found.value, services));
        return;
      }
      if Valid() {
        RemoveIdKeepsUnique(reservations, id);
        CancelRemovesOnlyOwnRows(reservations, id, session.value.userId);
      }
      reservations := RemoveId(reservations, id);
      o := ReservationCancelled;
    }

    /**
     Posting a review: the signed-in principal gets one more review row with
     the next id; `date` is the server's date at that moment. The rating is
     not validated.
     */
    method AddReview(session: Option<Session>, rating: string, comment: string, date: string) returns (o: Outcome)
      modifies this`reviews
      ensures session.None? ==> o == LoginRequired && reviews == old(reviews)
      ensures session.Some? ==>
        var id := NextId(old(reviews), ReviewKey);
        o == Created(id) && reviews == old(reviews) + [Review(id, session.value.userId, rating, comment, date)]
      ensures old(Valid()) ==> Valid()
    {
      if session.None? {
        o := LoginRequired;
        return;
      }
      var id := NextId(reviews, ReviewKey);
      var row := Review(id, session.value.userId, rating, comment, date);
      if Valid() {
        AppendNextIdKeepsUnique(reviews, ReviewKey, row);
      }
      reviews := reviews + [row];
      o := Created(id);
    }

    /**
     Clearing a dataset: only an admin session may; a known name leaves that
     table with no data rows and the others as they were, an unknown name
     changes nothing.
     */
    method AdminDelete(session: Option<Session>, dataset: string) returns (o: Outcome)
      modifies this
      ensures (session.None? || !session.value.isAdmin) ==> o == LoginRequired && State() == old(State())
      ensures session.Some? && session.value.isAdmin && ParseDataset(dataset).None? ==>
        o == InvalidDataset && State() == old(State())
      ensures session.Some? && session.value.isAdmin && ParseDataset(dataset).Some? ==>
        o == DatasetCleared(ParseDataset(dataset).value) &&
        State() == ClearDataset(old(State()), ParseDataset(dataset).value)
      ensures old(Valid()) ==> Valid()
    {
      if session.None? || !session.value.isAdmin {
        o := LoginRequired;
        return;
      }
      var d := ParseDataset(dataset);
      if d.None? {
        o := InvalidDataset;
        return;
      }
      match d.value {
        case Users => users := [];
        case Admins => admins := [];
        case Services => services := [];
        case Reservations => reservations := [];
        case Reviews => reviews := [];
      }
      o := DatasetCleared(d.value);
    }

    /** The signed-in principal's reservations, each with its service name. */
    method ReservationsPage(session: Option<Session>) returns (page: Option<seq<ReservationView>>)
      ensures page.None? <==> session.None?
      ensures session.Some? ==> page.value == UserReservations(reservations, services, session.value.userId)
    {
      if session.None? {
        return None;
      }
      return Some(UserReservations(reservations, services, session.value.userId));
    }

    /** The admin dashboard; anyone but a signed-in admin is sent to the login page. */
    method AdminDashboard(session: Option<Session>) returns (page: Option<DashboardPage>)
      ensures page.None? <==> session.None? || !session.value.isAdmin
      ensures page.Some? ==>
        page.value.stats == DashboardStats(reservations, services, users) &&
        |page.value.rows| == |reservations| &&
        forall i :: 0 <= i < |reservations| ==> page.value.rows[i] == Enhanced(reservations[i], services, users)
      ensures Valid() && page.Some? ==> page.value.stats.cancelledReservations == 0
    {
      if session.None? || !session.value.isAdmin {
        return None;
      }
      if Valid() {
        AllConfirmedStats(reservations, services, users);
      }
      var rows := DashboardRows(reservations, services, users);
      return Some(DashboardPage(rows, DashboardStats(reservations, services, users)));
    }
  }

  /** The four services a fresh installation starts with. */
  function DefaultServices(): seq<Service>
  {
    [ Service(1, "Haircut", "Basic haircut with styling", "25", "30"),
      Service(2, "Beard Trim", "Beard shaping and trimming", "15", "20"),
      Service(3, "Haircut + Beard", "Combination package", "35", "45"),
      Service(4, "Hair Coloring", "Full hair coloring service", "50", "60") ]
  }

  /** Registering "alice" on a fresh installation, then logging in as her. */
  method RegistrationScenario()
  {
    var store := new Store(Db([], [Admin(1, "admin", "admin123")], DefaultServices(), [], []));
    var o := store.Register("alice", "secret", "alice@example.com", "555");
    assert o == Created(1);
    assert store.admins[0].username == "admin";
    var again := store.Register("admin", "x", "", "");
    assert again == DuplicateUsername;

    assert store.users == [User(1, "alice", "secret", "alice@example.com", "555")];
    assert UserMatches(store.users[0], "alice", "secret");
    var session := Login(store.users, store.admins, "alice", "secret", "user");
    assert session == Some(Session(1, "alice", false));
  }

  /** With unique service ids, a lone reservation is listed with the name of its service's row. */
  lemma ListedWithServiceName(r: Reservation, services: seq<Service>, i: nat)
    requires UniqueIds(services, ServiceKey)
    requires i < |services| && services[i].id == r.serviceId
    ensures UserReservations([r], services, r.userId) == [ReservationView(r, services[i].name)]
  {
    ServiceNameIsLastMatch(services, r.serviceId);
    assert [r][1..] == [];
  }

  /** Alice (user 1) books a haircut with John and sees it on her list with the service name. */
  method ReservationScenario()
  {
    var services := DefaultServices();
    var alice := User(1, "alice", "secret", "alice@example.com", "555");
    var store := new Store(Db([alice], [Admin(1, "admin", "admin123")], services, [], []));
    var session := Some(Session(1, "alice", false));

    var booked := Reservation(1, 1, 1, "2024-01-01", "10:00", "John", Confirmed);
    assert UniqueIds(services, ServiceKey);
    ListedWithServiceName(booked, services, 0);
    var o := store.MakeReservation(session, 1, "2024-01-01", "10:00", "John");
    assert o == Created(1) && store.reservations == [booked];
    var page := store.ReservationsPage(session);
    assert page == Some([ReservationView(booked, "Haircut")]);
  }

  /** Another user may not cancel Alice's reservation; she may, and the table is empty again. */
  method CancelScenario()
  {
    var booked := Reservation(1, 1, 1, "2024-01-01", "10:00", "John", Confirmed);
    var store := new Store(Db([], [], DefaultServices(), [booked], []));
    assert FindReservation([booked], 1) == Some(booked);
    assert RemoveId([booked], 1) == [];
    var o := store.CancelReservation(Some(Session(2, "bob", false)), 1, true);
    assert o == NotFoundOrUnauthorized && store.reservations == [booked];
    o := store.CancelReservation(Some(Session(1, "alice", false)), 1, true);
    assert o == ReservationCancelled && store.reservations == [];
  }
}
