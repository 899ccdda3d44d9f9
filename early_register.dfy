/**
 * Registration in the early snapshot (iki-epep/src/pages/RegisterPage.jsx):
 * fewer checks than the later page, no email uniqueness, and the new account is
 * logged in straight away.
 */
module EarlyRegister {
  import opened Wrappers
  import opened Records
  import opened Text

  datatype RegisterError =
    | MissingField       // "Semua field wajib diisi!"
    | PasswordTooShort   // "Password minimal 8 karakter!"
    | StoreUnreadable    // `JSON.parse` throws: the handler stops, nothing is written
    | UsernameTaken      // "Username sudah terdaftar!"

  /** `users.find((user) => user.username === username)` finds someone. */
  predicate UsernameUsed(users: seq<User>, name: string) {
    exists i :: 0 <= i < |users| && users[i].username == name
  }

  /**
   * The handler on the stored user list: the first failing check decides the
   * error; on success the list gains exactly the new account at its end. The
   * email is neither checked for shape nor for uniqueness.
   */
  function Registered(slot: Slot<User>, name: string, email: string, password: string): (r: Result<seq<User>, RegisterError>)
    ensures r == Failure(MissingField) <==> name == [] || email == [] || password == []
    ensures r == Failure(PasswordTooShort) <==> name != [] && email != [] && password != [] && Utf16Length(password) < 8
    ensures r == Failure(StoreUnreadable) <==> name != [] && email != [] && Utf16Length(password) >= 8 && slot.Corrupt?
    ensures r == Failure(UsernameTaken) <==>
              name != [] && email != [] && Utf16Length(password) >= 8 && !slot.Corrupt? && UsernameUsed(ReadList(slot).value, name)
    ensures r.Success? ==> r.value == ReadList(slot).value + [User(name, email, password)]
  {
    if name == [] || email == [] || password == [] then Failure(MissingField)
    else if Utf16Length(password) < 8 then Failure(PasswordTooShort)
    else
      match ReadList(slot)
      case None => Failure(StoreUnreadable)
      case Some(users) =>
        if UsernameUsed(users, name) then Failure(UsernameTaken)
        else Success(users + [User(name, email, password)])
  }

  /** No two accounts share a username. */
  predicate UniqueUsernames(users: seq<User>) {
    forall i, j :: 0 <= i < j < |users| ==> users[i].username != users[j].username
  }

  /**
   * A successful registration keeps usernames unique and leaves earlier
   * accounts as they were. Emails may repeat: two accounts with one email
   * both register.
   */
  lemma {:induction false} RegisterKeepsUniqueUsernames(users: seq<User>, name: string, email: string, password: string)
    requires UniqueUsernames(users)
    requires Registered(Present(users), name, email, password).Success?
    ensures var after := Registered(Present(users), name, email, password).value;
            && UniqueUsernames(after)
            && |after| == |users| + 1
            && after[..|users|] == users
  {
    var after := Registered(Present(users), name, email, password).value;
    forall i, j | 0 <= i < j < |after| ensures after[i].username != after[j].username {
      if j == |users| {
        assert after[i] == users[i];
      }
    }
    assert after[..|users|] == users;
  }

  /** Two accounts may share an email: the early page does not look at it. */
  lemma SharedEmailAccepted()
    ensures var first := User("ana", "a@x.id", "12345678");
            Registered(Present([first]), "budi", "a@x.id", "87654321").Success?
  {
    var first := User("ana", "a@x.id", "12345678");
    assert !UsernameUsed([first], "budi") by {
      assert "ana" != "budi";
    }
  }

  /** The registration form's banners. */
  class RegisterPage {
    const store: Store
    var error: Option<RegisterError>
    var success: bool

    constructor (store: Store)
      ensures this.store == store && error.None? && !success
    {
      this.store := store;
      error := None;
      success := false;
    }

    /**
     * `handleRegister`: on success the account is appended and the session
     * becomes its username and email (not the password); a failed check sets
     * its error and writes nothing; an unreadable list changes nothing.
     */
    method HandleRegister(name: string, email: string, password: string)
      modifies this, store`users, store`loggedUser
      ensures Registered(old(store.users), name, email, password) == Failure(StoreUnreadable) ==>
                store.users == old(store.users) && store.loggedUser == old(store.loggedUser)
                && error == old(error) && success == old(success)
      ensures (Registered(old(store.users), name, email, password).Failure?
               && Registered(old(store.users), name, email, password).error != StoreUnreadable) ==>
                store.users == old(store.users) && store.loggedUser == old(store.loggedUser)
                && error == Some(Registered(old(store.users), name, email, password).error) && success == old(success)
      ensures Registered(old(store.users), name, email, password).Success? ==>
                && store.users == Present(Registered(old(store.users), name, email, password).value)
                && store.loggedUser == Some(Session(name, email))
                && success && error == old(error)
    {
      if name == [] || email == [] || password == [] {
        error := Some(MissingField);
        return;
      }
      if Utf16Length(password) < 8 {
        error := Some(PasswordTooShort);
        return;
      }
      var read := ReadList(store.users);
      if read.None? {
        return;
      }
      var users := read.value;
      if UsernameUsed(users, name) {
        error := Some(UsernameTaken);
        return;
      }
      users := users + [User(name, email, password)];
      store.users := Present(users);
      store.loggedUser := Some(Session(name, email));
      success := true;
    }
  }
}
