/** Librarian accounts: registration refuses a username already in use, and
    login succeeds exactly when a row pairs the username with the digest of
    the password given. The digest function (SHA-256 in hex) is a parameter. */
module Credentials {
  import opened Outcomes
  import opened LibraryDb

  /** A row of `librarians`; the password itself is never stored. */
  datatype Account = Account(username: string, digest: string, name: string, email: Option<string>)

  /** The table and its AUTOINCREMENT sequence. */
  datatype Accounts = Accounts(rows: map<int, Account>, last: int)

  predicate AccountsSequenced(a: Accounts) {
    forall k :: k in a.rows ==> k <= a.last
  }

  predicate UsernameTaken(a: Accounts, username: string) {
    exists k :: k in a.rows && a.rows[k].username == username
  }

  /** The UNIQUE constraint on `username`. */
  predicate UsernamesUnique(a: Accounts) {
    forall j, k :: j in a.rows && k in a.rows && j != k ==> a.rows[j].username != a.rows[k].username
  }

  /** The register screen's `reg`: inserts the username, the digest of the
      password and the full name, or fails on a duplicate username. */
  function Register(a: Accounts, digest: string -> string, username: string, password: string, name: string)
    : (r: Result<(Accounts, int), Failure>)
    requires AccountsSequenced(a)
    ensures r.Err? <==> UsernameTaken(a, username)
    ensures r.Err? ==> r.error == DuplicateUsername
    ensures r.Ok? ==>
      var (a', id) := r.value;
      && id == a.last + 1 == a'.last && id !in a.rows
      && a'.rows.Keys == a.rows.Keys + {id}
      && (forall k :: k in a.rows ==> a'.rows[k] == a.rows[k])
      && a'.rows[id] == Account(username, digest(password), name, None)
      && AccountsSequenced(a')
  {
    if UsernameTaken(a, username) then Err(DuplicateUsername)
    else
      var id := a.last + 1;
      Ok((Accounts(a.rows[id := Account(username, digest(password), name, None)], id), id))
  }

  /** The login screen's `login`: looks for a row with this username and the
      digest of this password. An unknown user and a wrong password fail
      alike. On success the result is the username the session records. */
  function Login(a: Accounts, digest: string -> string, username: string, password: string): (r: Option<string>)
    ensures r.Some? ==> r.value == username && UsernameTaken(a, username)
  {
    if exists k :: k in a.rows && a.rows[k].username == username && a.rows[k].digest == digest(password)
    then Some(username)
    else None
  }

  /** In any table with unique usernames, a registered user logs in exactly
      with a password whose digest is the one stored in their row. */
  lemma LoginMatchesRow(a: Accounts, digest: string -> string, username: string, password: string, k: int)
    requires UsernamesUnique(a) && k in a.rows && a.rows[k].username == username
    ensures Login(a, digest, username, password).Some? <==> a.rows[k].digest == digest(password)
  {
    if Login(a, digest, username, password).Some? {
      var j :| j in a.rows && a.rows[j].username == username && a.rows[j].digest == digest(password);
      assert j == k;
    }
  }

  /** Registration keeps usernames unique. */
  lemma RegisterKeepsUnique(a: Accounts, digest: string -> string, username: string, password: string, name: string)
    requires AccountsSequenced(a) && UsernamesUnique(a)
    requires Register(a, digest, username, password, name).Ok?
    ensures UsernamesUnique(Register(a, digest, username, password, name).value.0)
  {
  }

  /** Whoever just registered can log in with that password, and with another
      password exactly when it has the same digest. */
  lemma RegisterThenLogin(a: Accounts, digest: string -> string, username: string, password: string, name: string,
                          attempt: string)
    requires AccountsSequenced(a) && Register(a, digest, username, password, name).Ok?
    ensures Login(Register(a, digest, username, password, name).value.0, digest, username, password) == Some(username)
    ensures Login(Register(a, digest, username, password, name).value.0, digest, username, attempt).Some?
            <==> digest(attempt) == digest(password)
  {
    var (a', id) := Register(a, digest, username, password, name).value;
    assert a'.rows[id].username == username;
    if Login(a', digest, username, attempt).Some? {
      var k :| k in a'.rows && a'.rows[k].username == username && a'.rows[k].digest == digest(attempt);
      assert k == id;
    }
  }

  /** A name nobody registered never logs in, whatever the password. */
  lemma UnknownUserFails(a: Accounts, digest: string -> string, username: string, password: string)
    requires !UsernameTaken(a, username)
    ensures Login(a, digest, username, password) == None
  {
  }
}
