/**
 The display joins: a page builds a dictionary of services or users keyed by
 id and looks each reservation's or review's foreign key up in it, with a
 fixed fallback when the key is missing. Foreign keys are never enforced, so
 the fallback is the only thing that handles a dangling reference.
 */
module Lookups {
  import opened Records
  import opened Tables

  /**
   The name of the service with id `serviceId`, or "Unknown". When several
   rows share the id, the dictionary keeps the last one.
   */
  function ServiceName(services: seq<Service>, serviceId: nat): (name: string)
    ensures serviceId !in IdSet(services, ServiceKey) ==> name == "Unknown"
    ensures serviceId in IdSet(services, ServiceKey) ==>
      exists i :: LastWithId(services, ServiceKey, i, serviceId) && name == services[i].name
  {
    var index := IndexById(services, ServiceKey);
    if serviceId in index then index[serviceId].name else "Unknown"
  }

  /**
   "Unknown" exactly covers the missing service; otherwise the name is that of
   the last row with the id, which with unique ids is the one row with it.
   */
  lemma ServiceNameIsLastMatch(services: seq<Service>, serviceId: nat)
    ensures (forall i :: 0 <= i < |services| ==> services[i].id != serviceId) ==>
      ServiceName(services, serviceId) == "Unknown"
    ensures (exists i :: 0 <= i < |services| && services[i].id == serviceId) ==>
      exists i :: LastWithId(services, ServiceKey, i, serviceId) && ServiceName(services, serviceId) == services[i].name
    ensures UniqueIds(services, ServiceKey) ==>
      forall i :: 0 <= i < |services| && services[i].id == serviceId ==> ServiceName(services, serviceId) == services[i].name
  {
    if exists i :: 0 <= i < |services| && services[i].id == serviceId {
      var i :| 0 <= i < |services| && services[i].id == serviceId;
      assert serviceId in IdSet(services, ServiceKey) by { assert ServiceKey(services[i]) == serviceId; }
      var index := IndexById(services, ServiceKey);
      var last :| LastWithId(services, ServiceKey, last, serviceId) && index[serviceId] == services[last];
      if UniqueIds(services, ServiceKey) {
        forall k | 0 <= k < |services| && services[k].id == serviceId
          ensures ServiceName(services, serviceId) == services[k].name
        {
          LastWithIdIsOnly(services, ServiceKey, last, k, serviceId);
        }
      }
    }
  }

  /**
   The username of the user with id `userId`, or `fallback` ("Anonymous" on
   the reviews page, "Unknown" on the dashboard). When several rows share the
   id, the dictionary keeps the last one.
   */
  function UsernameOr(users: seq<User>, userId: nat, fallback: string): (name: string)
    ensures userId !in IdSet(users, UserKey) ==> name == fallback
    ensures userId in IdSet(users, UserKey) ==>
      exists i :: LastWithId(users, UserKey, i, userId) && name == users[i].username
  {
    var index := IndexById(users, UserKey);
    if userId in index then index[userId].username else fallback
  }

  /**
   The fallback exactly covers the missing user; otherwise the name is that of
   the last row with the id, which with unique ids is the one row with it.
   */
  lemma UsernameIsLastMatch(users: seq<User>, userId: nat, fallback: string)
    ensures (forall i :: 0 <= i < |users| ==> users[i].id != userId) ==>
      UsernameOr(users, userId, fallback) == fallback
    ensures (exists i :: 0 <= i < |users| && users[i].id == userId) ==>
      exists i :: LastWithId(users, UserKey, i, userId) && UsernameOr(users, userId, fallback) == users[i].username
    ensures UniqueIds(users, UserKey) ==>
      forall i :: 0 <= i < |users| && users[i].id == userId ==> UsernameOr(users, userId, fallback) == users[i].username
  {
    if exists i :: 0 <= i < |users| && users[i].id == userId {
      var i :| 0 <= i < |users| && users[i].id == userId;
      assert userId in IdSet(users, UserKey) by { assert UserKey(users[i]) == userId; }
      var index := IndexById(users, UserKey);
      var last :| LastWithId(users, UserKey, last, userId) && index[userId] == users[last];
      if UniqueIds(users, UserKey) {
        forall k | 0 <= k < |users| && users[k].id == userId
          ensures UsernameOr(users, userId, fallback) == users[k].username
        {
          LastWithIdIsOnly(users, UserKey, last, k, userId);
        }
      }
    }
  }
}
