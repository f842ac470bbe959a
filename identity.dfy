/**
 The identity checks: plaintext credential matching against the users or the
 admins table, the username check that spans both tables, and the login form
 that picks the table and opens a session.
 */
module Identity {
  import opened Records

  predicate UserMatches(u: User, username: string, password: string)
  {
    u.username == username && u.password == password
  }

  predicate AdminMatches(a: Admin, username: string, password: string)
  {
    a.username == username && a.password == password
  }

  /** Scans the users table and returns the first row whose username and password both match. */
  method AuthenticateUser(users: seq<User>, username: string, password: string) returns (r: Option<User>)
    ensures r.None? <==> forall i :: 0 <= i < |users| ==> !UserMatches(users[i], username, password)
    ensures r.Some? ==>
      exists i :: 0 <= i < |users| && users[i] == r.value && UserMatches(users[i], username, password) &&
        forall j :: 0 <= j < i ==> !UserMatches(users[j], username, password)
  {
    for i := 0 to |users|
      invariant forall j :: 0 <= j < i ==> !UserMatches(users[j], username, password)
    {
      if users[i].username == username && users[i].password == password {
        return Some(users[i]);
      }
    }
    return None;
  }

  /** Scans the admins table and returns the first row whose username and password both match. */
  method AuthenticateAdmin(admins: seq<Admin>, username: string, password: string) returns (r: Option<Admin>)
    ensures r.None? <==> forall i :: 0 <= i < |admins| ==> !AdminMatches(admins[i], username, password)
    ensures r.Some? ==>
      exists i :: 0 <= i < |admins| && admins[i] == r.value && AdminMatches(admins[i], username, password) &&
        forall j :: 0 <= j < i ==> !AdminMatches(admins[j], username, password)
  {
    for i := 0 to |admins|
      invariant forall j :: 0 <= j < i ==> !AdminMatches(admins[j], username, password)
    {
      if admins[i].username == username && admins[i].password == password {
        return Some(admins[i]);
      }
    }
    return None;
  }

  /** The usernames of the users table followed by those of the admins table. */
  function AllUsernames(users: seq<User>, admins: seq<Admin>): seq<string>
  {
    seq(|users|, i requires 0 <= i < |users| => users[i].username) +
    seq(|admins|, i requires 0 <= i < |admins| => admins[i].username)
  }

  /** Whether any row of the users table or of the admins table has this username. */
  function UsernameExists(users: seq<User>, admins: seq<Admin>, username: string): (b: bool)
    ensures b <==>
      (exists i :: 0 <= i < |users| && users[i].username == username) ||
      (exists i :: 0 <= i < |admins| && admins[i].username == username)
  {
    var names := AllUsernames(users, admins);
    assert forall i :: 0 <= i < |users| ==> names[i] == users[i].username;
    assert forall i :: 0 <= i < |admins| ==> names[|users| + i] == admins[i].username;
    username in names
  }

  /**
   No username occurs twice, within the users table, within the admins table,
   or across the two: what the registration check maintains.
   */
  predicate DistinctUsernames(users: seq<User>, admins: seq<Admin>)
  {
    (forall i, j :: 0 <= i < j < |users| ==> users[i].username != users[j].username) &&
    (forall i, j :: 0 <= i < j < |admins| ==> admins[i].username != admins[j].username) &&
    (forall i, j :: 0 <= i < |users| && 0 <= j < |admins| ==> users[i].username != admins[j].username)
  }

  /**
   The login form: `userType` "admin" checks the admins table, any other value
   (the form's default is "user") checks the users table; a match opens a
   session with that row's id and username. None means that no new session
   is opened; a session the browser already holds is left as it was.
   */
  method Login(users: seq<User>, admins: seq<Admin>, username: string, password: string, userType: string)
    returns (s: Option<Session>)
    ensures userType == "admin" ==>
      (s.Some? <==> exists i :: 0 <= i < |admins| && AdminMatches(admins[i], username, password))
    ensures userType != "admin" ==>
      (s.Some? <==> exists i :: 0 <= i < |users| && UserMatches(users[i], username, password))
    ensures s.Some? ==> s.value.username == username && s.value.isAdmin == (userType == "admin")
    ensures s.Some? && userType == "admin" ==>
      exists i ::
        && 0 <= i < |admins|
        && AdminMatches(admins[i], username, password)
        && s.value.userId == admins[i].id
        && forall j :: 0 <= j < i ==> !AdminMatches(admins[j], username, password)
    ensures s.Some? && userType != "admin" ==>
      exists i ::
        && 0 <= i < |users|
        && UserMatches(users[i], username, password)
        && s.value.userId == users[i].id
        && forall j :: 0 <= j < i ==> !UserMatches(users[j], username, password)
  {
    if userType == "admin" {
      var admin := AuthenticateAdmin(admins, username, password);
      if admin.Some? {
        return Some(Session(admin.value.id, admin.value.username, true));
      }
    } else {
      var user := AuthenticateUser(users, username, password);
      if user.Some? {
        return Some(Session(user.value.id, user.value.username, false));
      }
    }
    return None;
  }

  /**
   After a registration accepted by the username check, the new row is the
   only row of the users table that the new credentials match, so logging in
   with them finds exactly that row.
   */
  lemma RegisteredUserIsOnlyMatch(users: seq<User>, admins: seq<Admin>, u: User)
    requires !UsernameExists(users, admins, u.username)
    ensures forall i :: 0 <= i < |users + [u]| && UserMatches((users + [u])[i], u.username, u.password) ==>
      i == |users|
    ensures UserMatches((users + [u])[|users|], u.username, u.password)
  {
  }

  /** A registration accepted by the username check keeps usernames distinct across both tables. */
  lemma RegisterKeepsUsernamesDistinct(users: seq<User>, admins: seq<Admin>, u: User)
    requires DistinctUsernames(users, admins)
    requires !UsernameExists(users, admins, u.username)
    ensures DistinctUsernames(users + [u], admins)
  {
  }

  /** With distinct usernames, one username cannot log in both as a user and as an admin. */
  lemma UserAndAdminDisjoint(users: seq<User>, admins: seq<Admin>, username: string, p1: string, p2: string)
    requires DistinctUsernames(users, admins)
    ensures !((exists i :: 0 <= i < |users| && UserMatches(users[i], username, p1)) &&
              (exists j :: 0 <= j < |admins| && AdminMatches(admins[j], username, p2)))
  {
  }
}
