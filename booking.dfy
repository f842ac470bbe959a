/**
 The booking operations on the reservations table: looking a reservation up
 by id, the filter that cancelling writes back, and the signed-in user's
 reservation list joined with service names.
 */
module Booking {
  import opened Records
  import opened Tables
  import opened Lookups

  /** A reservation row with the name of its service, as the pages show it. */
  datatype ReservationView = ReservationView(reservation: Reservation, serviceName: string)

  /** The reservation row joined with its service's name ("Unknown" when the service is gone). */
  function View(r: Reservation, services: seq<Service>): ReservationView
  {
    ReservationView(r, ServiceName(services, r.serviceId))
  }

  /** The first row, in table order, whose id is `id`; None when no row has it. */
  function FindReservation(reservations: seq<Reservation>, id: nat): (r: Option<Reservation>)
    ensures r.None? <==> forall i :: 0 <= i < |reservations| ==> reservations[i].id != id
    ensures r.Some? ==>
      exists i :: 0 <= i < |reservations| && reservations[i] == r.value && r.value.id == id &&
        forall j :: 0 <= j < i ==> reservations[j].id != id
    decreases |reservations|
  {
    if reservations == [] then None
    else if reservations[0].id == id then Some(reservations[0])
    else
      var r := FindReservation(reservations[1..], id);
      assert forall i :: 1 <= i < |reservations| ==> reservations[i] == reservations[1..][i - 1];
      r
  }

  /**
   The ownership check of a cancellation: the FIRST row with id `id` exists and
   belongs to user `userId`. Later rows with the same id are not looked at.
   */
  predicate MayCancel(reservations: seq<Reservation>, id: nat, userId: nat): (b: bool)
    ensures b <==> exists i ::
      && 0 <= i < |reservations|
      && reservations[i].id == id
      && reservations[i].userId == userId
      && forall j :: 0 <= j < i ==> reservations[j].id != id
  {
    var found := FindReservation(reservations, id);
    found.Some? && found.value.userId == userId
  }

  /** The table with every row whose id is `id` removed, the other rows kept in order. */
  function RemoveId(reservations: seq<Reservation>, id: nat): (r: seq<Reservation>)
    ensures forall x :: x in r <==> x in reservations && x.id != id
    ensures |r| <= |reservations|
    ensures (forall i :: 0 <= i < |reservations| ==> reservations[i].id != id) ==> r == reservations
    ensures (exists i :: 0 <= i < |reservations| && reservations[i].id == id) ==> |r| < |reservations|
    decreases |reservations|
  {
    if reservations == [] then []
    else
      var rest := RemoveId(reservations[1..], id);
      assert forall i :: 1 <= i < |reservations| ==> reservations[i] == reservations[1..][i - 1];
      assert reservations == [reservations[0]] + reservations[1..];
      (if reservations[0].id != id then [reservations[0]] else []) + rest
  }

  /** Filtering a concatenation filters each part: the kept rows stay in their original order. */
  lemma {:induction false} RemoveIdAppend(a: seq<Reservation>, b: seq<Reservation>, id: nat)
    ensures RemoveId(a + b, id) == RemoveId(a, id) + RemoveId(b, id)
    decreases |a|
  {
    if a != [] {
      assert (a + b)[1..] == a[1..] + b;
      RemoveIdAppend(a[1..], b, id);
    } else {
      assert a + b == b;
    }
  }

  /**
   When ids are unique, cancelling the reservation with id `id` removes exactly
   that one row and leaves the rows before and after it as they were.
   */
  lemma RemoveUniqueId(reservations: seq<Reservation>, id: nat)
    requires UniqueIds(reservations, ReservationKey)
    requires FindReservation(reservations, id).Some?
    ensures exists i ::
      && 0 <= i < |reservations|
      && reservations[i] == FindReservation(reservations, id).value
      && RemoveId(reservations, id) == reservations[..i] + reservations[i + 1..]
  {
    var i :| 0 <= i < |reservations| && reservations[i] == FindReservation(reservations, id).value &&
      reservations[i].id == id;
    var before, after := reservations[..i], reservations[i + 1..];
    forall k | 0 <= k < |before| ensures before[k].id != id {
      assert before[k] == reservations[k];
      assert ReservationKey(reservations[k]) != ReservationKey(reservations[i]);
    }
    forall k | 0 <= k < |after| ensures after[k].id != id {
      assert after[k] == reservations[i + 1 + k];
      assert ReservationKey(reservations[i]) != ReservationKey(reservations[i + 1 + k]);
    }
    assert reservations == before + [reservations[i]] + after;
    RemoveIdSplit(before, reservations[i], after, id);
  }

  /** Removing the id of the one row that has it leaves the rows around it. */
  lemma RemoveIdSplit(before: seq<Reservation>, x: Reservation, after: seq<Reservation>, id: nat)
    requires x.id == id
    requires forall k :: 0 <= k < |before| ==> before[k].id != id
    requires forall k :: 0 <= k < |after| ==> after[k].id != id
    ensures RemoveId(before + [x] + after, id) == before + after
  {
    var b, a := RemoveId(before, id), RemoveId(after, id);
    assert b == before;
    assert a == after;
    assert RemoveId([x], id) == [];
    RemoveIdAppend(before, [x], id);
    assert RemoveId(before + [x], id) == before;
    RemoveIdAppend(before + [x], after, id);
  }

  /** When ids are unique, a cancel that passes the ownership check removes only the caller's own row. */
  lemma CancelRemovesOnlyOwnRows(reservations: seq<Reservation>, id: nat, userId: nat)
    requires UniqueIds(reservations, ReservationKey)
    requires MayCancel(reservations, id, userId)
    ensures |RemoveId(reservations, id)| == |reservations| - 1
    ensures forall x :: x in reservations && x !in RemoveId(reservations, id) ==> x.userId == userId
  {
    RemoveUniqueId(reservations, id);
    var i :| 0 <= i < |reservations| && reservations[i] == FindReservation(reservations, id).value &&
      RemoveId(reservations, id) == reservations[..i] + reservations[i + 1..];
    forall x | x in reservations && x !in RemoveId(reservations, id) ensures x.userId == userId {
      var k :| 0 <= k < |reservations| && reservations[k] == x;
      assert ReservationKey(reservations[k]) == id == ReservationKey(reservations[i]);
    }
  }

  /**
   The ownership check reads only the first row with the id while the filter
   removes every row with it: when two users' rows share an id, the owner of
   the first may delete the other's.
   */
  lemma DuplicateIdCancelsOthersRow(mine: Reservation, theirs: Reservation)
    requires mine.id == theirs.id && mine.userId != theirs.userId
    ensures MayCancel([mine, theirs], mine.id, mine.userId)
    ensures theirs !in RemoveId([mine, theirs], mine.id)
  {
    assert FindReservation([mine, theirs], mine.id) == Some(mine);
  }

  /** Removing rows keeps the remaining ids unique. */
  lemma {:induction false} RemoveIdKeepsUnique(reservations: seq<Reservation>, id: nat)
    requires UniqueIds(reservations, ReservationKey)
    ensures UniqueIds(RemoveId(reservations, id), ReservationKey)
    decreases |reservations|
  {
    if reservations != [] {
      var head, tail := reservations[0], reservations[1..];
      assert forall i :: 0 <= i < |tail| ==> tail[i] == reservations[i + 1];
      RemoveIdKeepsUnique(tail, id);
      assert forall x :: x in tail ==> x.id != head.id;
      assert RemoveId(reservations, id) == (if head.id != id then [head] else []) + RemoveId(tail, id);
    }
  }

  /**
   Cancelling a reservation just made removes exactly it: the table is back to
   what it was before the reservation.
   */
  lemma CancelUndoesReservation(reservations: seq<Reservation>, r: Reservation)
    requires r.id == NextId(reservations, ReservationKey)
    ensures RemoveId(reservations + [r], r.id) == reservations
  {
    RemoveIdAppend(reservations, [r], r.id);
  }

  /**
   The reservations list of user `userId`: their rows, in table order, each
   joined with its service's name.
   */
  function UserReservations(reservations: seq<Reservation>, services: seq<Service>, userId: nat)
    : (v: seq<ReservationView>)
    ensures forall k :: 0 <= k < |v| ==>
      v[k].reservation in reservations && v[k].reservation.userId == userId &&
      v[k].serviceName == ServiceName(services, v[k].reservation.serviceId)
    ensures forall x :: x in reservations && x.userId == userId ==> View(x, services) in v
    ensures |v| <= |reservations|
    decreases |reservations|
  {
    if reservations == [] then []
    else
      var rest := UserReservations(reservations[1..], services, userId);
      assert forall x :: x in reservations[1..] ==> x in reservations;
      assert forall x :: x in reservations ==> x == reservations[0] || x in reservations[1..];
      (if reservations[0].userId == userId then [View(reservations[0], services)] else []) + rest
  }

  /** The list of a concatenation is the lists of the parts, in order. */
  lemma {:induction false} UserReservationsAppend(
    a: seq<Reservation>, b: seq<Reservation>, services: seq<Service>, userId: nat)
    ensures UserReservations(a + b, services, userId) ==
      UserReservations(a, services, userId) + UserReservations(b, services, userId)
    decreases |a|
  {
    if a != [] {
      assert (a + b)[1..] == a[1..] + b;
      UserReservationsAppend(a[1..], b, services, userId);
    } else {
      assert a + b == b;
    }
  }

  /**
   A reservation made by user `r.userId` appears last on that user's list and
   changes no other user's list.
   */
  lemma NewReservationListed(reservations: seq<Reservation>, services: seq<Service>, r: Reservation, userId: nat)
    ensures UserReservations(reservations + [r], services, userId) ==
      UserReservations(reservations, services, userId) + (if r.userId == userId then [View(r, services)] else [])
  {
    UserReservationsAppend(reservations, [r], services, userId);
  }

  /** Every row of the table has status "confirmed". */
  predicate AllConfirmed(reservations: seq<Reservation>)
  {
    forall i :: 0 <= i < |reservations| ==> reservations[i].status == Confirmed
  }
}
