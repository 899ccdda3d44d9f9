/**
 * Logging in, early snapshot (iki-epep/src/pages/LoginPage.jsx): the first
 * stored account whose username and password both match is the one logged in,
 * and only its username and email are kept in the session.
 */
module EarlyLogin {
  import opened Wrappers
  import opened Records

  /** The account at `i` has these credentials. */
  predicate MatchesAt(users: seq<User>, i: int, name: string, password: string)
    requires 0 <= i < |users|
  {
    users[i].username == name && users[i].password == password
  }

  /**
   * `storedUsers.find(user => user.username === name && user.password === password)`,
   * as a position: the first matching account, or none when no account matches.
   */
  function FindUser(users: seq<User>, name: string, password: string): (r: Option<nat>)
    ensures r.None? <==> forall i :: 0 <= i < |users| ==> !MatchesAt(users, i, name, password)
    ensures r.Some? ==> r.value < |users| && MatchesAt(users, r.value, name, password)
    ensures r.Some? ==> forall i :: 0 <= i < r.value ==> !MatchesAt(users, i, name, password)
  {
    if users == [] then None
    else if MatchesAt(users, 0, name, password) then Some(0)
    else
      var rest := FindUser(users[1..], name, password);
      assert forall i :: 1 <= i < |users| ==> (MatchesAt(users, i, name, password) <==> MatchesAt(users[1..], i - 1, name, password));
      if rest.None? then None
      else
        assert MatchesAt(users, rest.value + 1, name, password);
        Some(rest.value + 1)
  }

  /** The session record of an account: its username and email, never its password. */
  function SessionOf(u: User): (s: Session)
    ensures s.username == u.username && s.email == u.email
  {
    Session(u.username, u.email)
  }

  /** The login form and its error banner. */
  class LoginPage {
    const store: Store
    var error: bool

    constructor (store: Store)
      ensures this.store == store && !error
    {
      this.store := store;
      error := false;
    }

    /**
     * `handleLogin`: with a matching account the session becomes that
     * account's username and email; without one the error is shown and the
     * session is left as it was. A missing user list means no account; an
     * unreadable one makes the handler throw with nothing changed.
     */
    method HandleLogin(name: string, password: string)
      modifies this`error, store`loggedUser
      ensures old(store.users).Corrupt? ==> store.loggedUser == old(store.loggedUser) && error == old(error)
      ensures store.users.Absent? ==> store.loggedUser == old(store.loggedUser) && error
      ensures store.users.Present? && FindUser(store.users.items, name, password).Some? ==>
                store.loggedUser == Some(SessionOf(store.users.items[FindUser(store.users.items, name, password).value]))
                && error == old(error)
      ensures store.users.Present? && FindUser(store.users.items, name, password).None? ==>
                store.loggedUser == old(store.loggedUser) && error
    {
      var stored := ReadList(store.users);
      if stored.None? {
        return;
      }
      var found := FindUser(stored.value, name, password);
      if found.Some? {
        store.loggedUser := Some(SessionOf(stored.value[found.value]));
      } else {
        error := true;
      }
    }
  }
}
