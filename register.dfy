/**
 * Registration in the later snapshot (ikiEpep/src/pages/RegisterPage.jsx): a
 * chain of checks that stops at the first failure, then the new account is
 * appended to the stored user list.
 */
module Register {
  import opened Wrappers
  import opened Text
  import opened Seqs
  import opened Records

  // ---------------------------------------------------------------------------
  // The email shape `/^[^\s@]+@[^\s@]+\.[^\s@]+$/`

  /** A character `[^\s@]` accepts. */
  predicate Plain(c: char) {
    !IsSpace(c) && c != '@'
  }

  /**
   * The strings the pattern matches, read off the pattern: a non-empty local
   * part, `@` at position `at`, a non-empty domain part, `.` at position `dot`,
   * and a non-empty final part, every other character plain.
   */
  ghost predicate EmailShape(s: string) {
    exists at, dot :: 0 < at && at + 1 < dot && dot + 1 < |s| && s[at] == '@' && s[dot] == '.'
      && (forall k :: 0 <= k < |s| && k != at ==> Plain(s[k]))
  }

  /** Some character of `s[lo..hi]` is a dot. */
  predicate DotBetween(s: string, lo: nat, hi: nat)
    requires lo <= hi <= |s|
  {
    '.' in s[lo..hi]
  }

  /**
   * `emailRegex.test(email)` computed directly: no whitespace, exactly one `@`,
   * not first, and a dot strictly between the character after the `@` and
   * the last character.
   */
  predicate IsEmail(s: string) {
    var at := IndexOf(s, '@');
    && 0 < at
    && (forall k :: 0 <= k < |s| ==> !IsSpace(s[k]))
    && '@' !in s[at + 1..]
    && at + 2 <= |s| - 1
    && DotBetween(s, at + 2, |s| - 1)
  }

  /** A string the direct test accepts has the pattern's shape. */
  lemma {:induction false} EmailHasShape(s: string)
    requires IsEmail(s)
    ensures EmailShape(s)
  {
    var at := IndexOf(s, '@');
    var j :| 0 <= j < |s[at + 2..|s| - 1]| && s[at + 2..|s| - 1][j] == '.';
    var dot := at + 2 + j;
    assert s[dot] == '.';
    forall k | 0 <= k < |s| && k != at ensures Plain(s[k]) {
      if k < at {
        assert s[k] in s[..at];
      } else {
        assert s[k] == s[at + 1..][k - at - 1];
      }
    }
  }

  /** A string of the pattern's shape passes the direct test. */
  lemma {:induction false} ShapeIsEmail(s: string)
    requires EmailShape(s)
    ensures IsEmail(s)
  {
    var at := IndexOf(s, '@');
    var a, dot :| 0 < a && a + 1 < dot && dot + 1 < |s| && s[a] == '@' && s[dot] == '.'
      && (forall k :: 0 <= k < |s| && k != a ==> Plain(s[k]));
    assert at == a by {
      assert at != -1;
      assert !Plain(s[at]);
    }
    forall k | 0 <= k < |s| ensures !IsSpace(s[k]) {
      if k != a {
        assert Plain(s[k]);
      }
    }
    var rest := s[a + 1..];
    assert '@' !in rest by {
      forall k | 0 <= k < |rest| ensures rest[k] != '@' {
        assert Plain(s[a + 1 + k]);
      }
    }
    assert s[at + 2..|s| - 1][dot - at - 2] == '.';
  }

  /** The direct test accepts exactly the strings of the pattern's shape. */
  lemma {:induction false} IsEmailIffShape(s: string)
    ensures IsEmail(s) <==> EmailShape(s)
  {
    if IsEmail(s) {
      EmailHasShape(s);
    }
    if EmailShape(s) {
      ShapeIsEmail(s);
    }
  }

  // ---------------------------------------------------------------------------
  // The check chain

  datatype RegisterError =
    | MissingField       // "Semua field wajib diisi!"
    | PasswordTooShort   // "Password minimal 8 karakter!"
    | PasswordMismatch   // "Password dan konfirmasi password harus sama!"
    | BadEmail           // "Format email tidak valid!"
    | StoreUnreadable    // `JSON.parse` throws: the handler stops, nothing is written
    | UsernameTaken      // "Username sudah terdaftar!"
    | EmailTaken         // "Email sudah terdaftar!"

  datatype Form = Form(username: string, email: string, password: string, confirmPassword: string)

  /** `users.find((user) => user.username === username)` finds someone. */
  predicate UsernameUsed(users: seq<User>, name: string) {
    exists i :: 0 <= i < |users| && users[i].username == name
  }

  /** `users.find((user) => user.email === email)` finds someone. */
  predicate EmailUsed(users: seq<User>, email: string) {
    exists i :: 0 <= i < |users| && users[i].email == email
  }

  /** `!username || !email || !password || !confirmPassword`. */
  predicate AnyEmpty(f: Form) {
    f.username == [] || f.email == [] || f.password == [] || f.confirmPassword == []
  }

  /** The checks that need no stored data, in the handler's order. */
  function FormProblem(f: Form): (r: Option<RegisterError>)
    ensures r == Some(MissingField) <==> AnyEmpty(f)
    ensures r == Some(PasswordTooShort) <==> !AnyEmpty(f) && Utf16Length(f.password) < 8
    ensures r == Some(PasswordMismatch) <==> !AnyEmpty(f) && Utf16Length(f.password) >= 8 && f.password != f.confirmPassword
    ensures r == Some(BadEmail) <==> !AnyEmpty(f) && Utf16Length(f.password) >= 8 && f.password == f.confirmPassword && !IsEmail(f.email)
    ensures r.None? || r.value in {MissingField, PasswordTooShort, PasswordMismatch, BadEmail}
  {
    if AnyEmpty(f) then Some(MissingField)
    else if Utf16Length(f.password) < 8 then Some(PasswordTooShort)
    else if f.password != f.confirmPassword then Some(PasswordMismatch)
    else if !IsEmail(f.email) then Some(BadEmail)
    else None
  }

  /**
   * The whole handler on the stored user list: the first failing check decides
   * the error and nothing is written; on success the list gains exactly the new
   * account at its end.
   */
  function Registered(slot: Slot<User>, f: Form): (r: Result<seq<User>, RegisterError>)
    ensures FormProblem(f).Some? ==> r == Failure(FormProblem(f).value)
    ensures FormProblem(f).None? && slot.Corrupt? ==> r == Failure(StoreUnreadable)
    ensures r == Failure(UsernameTaken) <==>
              FormProblem(f).None? && !slot.Corrupt? && UsernameUsed(ReadList(slot).value, f.username)
    ensures r == Failure(EmailTaken) <==>
              && FormProblem(f).None? && !slot.Corrupt?
              && !UsernameUsed(ReadList(slot).value, f.username) && EmailUsed(ReadList(slot).value, f.email)
    ensures r.Success? <==>
              && FormProblem(f).None? && !slot.Corrupt?
              && !UsernameUsed(ReadList(slot).value, f.username) && !EmailUsed(ReadList(slot).value, f.email)
    ensures r.Success? ==> r.value == ReadList(slot).value + [User(f.username, f.email, f.password)]
  {
    match FormProblem(f)
    case Some(e) => Failure(e)
    case None =>
      match ReadList(slot)
      case None => Failure(StoreUnreadable)
      case Some(users) =>
        if UsernameUsed(users, f.username) then Failure(UsernameTaken)
        else if EmailUsed(users, f.email) then Failure(EmailTaken)
        else Success(users + [User(f.username, f.email, f.password)])
  }

  /** No two accounts share a username or an email. */
  predicate UniqueAccounts(users: seq<User>) {
    forall i, j :: 0 <= i < j < |users| ==> users[i].username != users[j].username && users[i].email != users[j].email
  }

  /** A successful registration keeps usernames and emails unique, and leaves earlier accounts as they were. */
  lemma {:induction false} RegisterKeepsUnique(users: seq<User>, f: Form)
    requires UniqueAccounts(users)
    requires Registered(Present(users), f).Success?
    ensures var after := Registered(Present(users), f).value;
            && UniqueAccounts(after)
            && |after| == |users| + 1
            && after[..|users|] == users
  {
    var after := Registered(Present(users), f).value;
    assert after == users + [User(f.username, f.email, f.password)];
    forall i, j | 0 <= i < j < |after|
      ensures after[i].username != after[j].username && after[i].email != after[j].email
    {
      if j == |users| {
        assert after[i] == users[i];
        assert !UsernameUsed(users, f.username) && !EmailUsed(users, f.email);
      }
    }
    assert after[..|users|] == users;
  }

  /** The form state and banners of the registration page. */
  class RegisterPage {
    const store: Store
    var error: Option<RegisterError>
    var success: bool
    var form: Form

    constructor (store: Store)
      ensures this.store == store && error.None? && !success && form == Form("", "", "", "")
    {
      this.store := store;
      error := None;
      success := false;
      form := Form("", "", "", "");
    }

    /**
     * `handleRegister`: runs the checks in order. A failed check sets its error
     * and writes nothing; an unreadable user list stops the handler with
     * nothing changed; success appends the account, shows the success banner
     * and clears the form.
     */
    method HandleRegister()
      modifies this, store`users
      ensures Registered(old(store.users), old(form)) == Failure(StoreUnreadable) ==>
                store.users == old(store.users) && error == old(error) && success == old(success) && form == old(form)
      ensures (Registered(old(store.users), old(form)).Failure? && Registered(old(store.users), old(form)).error != StoreUnreadable) ==>
                && store.users == old(store.users) && error == Some(Registered(old(store.users), old(form)).error)
                && success == old(success) && form == old(form)
      ensures Registered(old(store.users), old(form)).Success? ==>
                && store.users == Present(Registered(old(store.users), old(form)).value)
                && success && error == old(error) && form == Form("", "", "", "")
    {
      var problem := FormProblem(form);
      if problem.Some? {
        error := problem;
        return;
      }
      var read := ReadList(store.users);
      if read.None? {
        return;
      }
      var users := read.value;
      if UsernameUsed(users, form.username) {
        error := Some(UsernameTaken);
        return;
      }
      if EmailUsed(users, form.email) {
        error := Some(EmailTaken);
        return;
      }
      users := users + [User(form.username, form.email, form.password)];
      store.users := Present(users);
      success := true;
      form := Form("", "", "", "");
    }
  }
}
