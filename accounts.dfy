/** The users table as a value, and what each statement the service runs
    against it does to that value. Columns: username (UNIQUE), email (UNIQUE),
    password (the bcrypt hash). The username is the map's key, so its UNIQUE
    constraint holds by construction; the email's is `EmailsUnique`. */
module Accounts {
  import opened Bcrypt

  /** A row of the users table apart from its username. */
  datatype Account = Account(email: string, hash: string)

  type Table = map<string, Account>

  /** A row as the list query returns it; `password` holds the stored hash. */
  datatype User = User(username: string, email: string, password: string)

  /** The UNIQUE constraint on the email column. */
  ghost predicate EmailsUnique(t: Table)
  {
    forall u, v :: u in t && v in t && u != v ==> t[u].email != t[v].email
  }

  /** The registration pre-check: some row has this username or this email. */
  predicate Taken(t: Table, username: string, email: string)
  {
    username in t || exists v :: v in t && t[v].email == email
  }

  /** INSERT INTO users (username, email, password). */
  function Insert(t: Table, username: string, email: string, hash: string): (t': Table)
  {
    t[username := Account(email, hash)]
  }

  /** DELETE FROM users WHERE username = $1. */
  function Remove(t: Table, username: string): (t': Table)
  {
    t - {username}
  }

  /** UPDATE users SET password = $2 WHERE username = $1. */
  function SetHash(t: Table, username: string, hash: string): (t': Table)
  {
    if username in t then t[username := t[username].(hash := hash)] else t
  }

  /** UPDATE users SET username = $2 WHERE username = $1, when it does not
      violate the UNIQUE constraint. */
  function Rename(t: Table, from: string, to: string): (t': Table)
  {
    if from in t then (t - {from})[to := t[from]] else t
  }

  /** Outcome of checking a username and password against the table. */
  datatype LoginResult =
    | Authenticated
    | UserNotFound     // "user not found"
    | InvalidPassword  // "invalid password"

  /** SELECT password FROM users WHERE username = $1, then a bcrypt compare. */
  function Login(t: Table, h: Hasher, username: string, password: string): (r: LoginResult)
  {
    if username !in t then UserNotFound
    else if !h.compare(t[username].hash, password) then InvalidPassword
    else Authenticated
  }

  /** Every entry of the list is a row of the table, as stored. */
  ghost predicate EntriesMatch(users: seq<User>, t: Table)
  {
    forall i :: 0 <= i < |users| ==>
      users[i].username in t && t[users[i].username] == Account(users[i].email, users[i].password)
  }

  /** Every row of the table has an entry in the list. */
  ghost predicate Covers(users: seq<User>, t: Table)
  {
    forall u :: u in t ==> exists i :: 0 <= i < |users| && users[i].username == u
  }

  /** No username is listed twice. */
  ghost predicate NoRepeats(users: seq<User>)
  {
    forall i, j :: 0 <= i < j < |users| ==> users[i].username != users[j].username
  }

  /** A list of rows is a faithful listing of the table: one entry per row,
      each entry matching its row, no username twice. */
  ghost predicate Enumerates(users: seq<User>, t: Table)
  {
    |users| == |t| && EntriesMatch(users, t) && Covers(users, t) && NoRepeats(users)
  }

  /** The table rebuilt from a listing, entry by entry. */
  function FromRows(users: seq<User>): (t: Table)
  {
    if users == [] then map[]
    else
      var last := users[|users| - 1];
      FromRows(users[..|users| - 1])[last.username := Account(last.email, last.password)]
  }

  // ---------------------------------------------------------------------
  // Registration

  /** When the pre-check finds nothing, the insert adds exactly one row, the
      new one, keeps every other row, and keeps emails unique. */
  lemma InsertAddsOneRow(t: Table, username: string, email: string, hash: string)
    requires EmailsUnique(t) && !Taken(t, username, email)
    ensures EmailsUnique(Insert(t, username, email, hash))
    ensures Insert(t, username, email, hash).Keys == t.Keys + {username}
    ensures |Insert(t, username, email, hash)| == |t| + 1
    ensures Insert(t, username, email, hash)[username] == Account(email, hash)
    ensures forall v :: v in t ==> Insert(t, username, email, hash)[v] == t[v]
  {
  }

  /** Once a row is in, registering the same username or the same email
      again is refused. */
  lemma SecondRegistrationTaken(t: Table, username: string, email: string, hash: string, otherName: string, otherEmail: string)
    ensures Taken(Insert(t, username, email, hash), username, otherEmail)
    ensures Taken(Insert(t, username, email, hash), otherName, email)
  {
  }

  /** After registering, logging in with the same password succeeds. */
  lemma RegisterThenLogin(t: Table, h: Hasher, username: string, email: string, password: string)
    requires RoundTrips(h)
    ensures Login(Insert(t, username, email, h.generate(password)), h, username, password) == Authenticated
  {
  }

  // ---------------------------------------------------------------------
  // Deletion

  /** Deleting removes the named row only, is a no-op when it is absent, and
      keeps emails unique. */
  lemma RemoveOnlyNamed(t: Table, username: string)
    ensures Remove(t, username).Keys == t.Keys - {username}
    ensures forall v :: v in t && v != username ==> Remove(t, username)[v] == t[v]
    ensures username !in t ==> Remove(t, username) == t
    ensures EmailsUnique(t) ==> EmailsUnique(Remove(t, username))
  {
  }

  /** A deleted account can no longer log in, whatever the password. */
  lemma RemoveThenLogin(t: Table, h: Hasher, username: string, password: string)
    ensures Login(Remove(t, username), h, username, password) == UserNotFound
  {
  }

  // ---------------------------------------------------------------------
  // Password change

  /** Changing a password replaces that row's hash and nothing else. */
  lemma SetHashOnlyHash(t: Table, username: string, hash: string)
    ensures SetHash(t, username, hash).Keys == t.Keys
    ensures username in t ==> SetHash(t, username, hash)[username] == Account(t[username].email, hash)
    ensures forall v :: v in t && v != username ==> SetHash(t, username, hash)[v] == t[v]
    ensures username !in t ==> SetHash(t, username, hash) == t
    ensures EmailsUnique(t) ==> EmailsUnique(SetHash(t, username, hash))
  {
  }

  /** After a password change the new password logs in, and every other
      account logs in exactly as before. */
  lemma SetHashThenLogin(t: Table, h: Hasher, username: string, newPassword: string)
    requires RoundTrips(h) && username in t
    ensures Login(SetHash(t, username, h.generate(newPassword)), h, username, newPassword) == Authenticated
    ensures forall v, p :: v != username ==>
      Login(SetHash(t, username, h.generate(newPassword)), h, v, p) == Login(t, h, v, p)
  {
  }

  // ---------------------------------------------------------------------
  // Username change

  /** Renaming to a free name (or to itself) moves the row to the new key
      unchanged, keeps every other row, and keeps emails unique. */
  lemma RenameMovesRow(t: Table, from: string, to: string)
    requires EmailsUnique(t)
    requires from in t ==> to !in t || to == from
    ensures EmailsUnique(Rename(t, from, to))
    ensures from in t ==> Rename(t, from, to).Keys == t.Keys - {from} + {to}
    ensures from in t ==> Rename(t, from, to)[to] == t[from]
    ensures forall v :: v in t && v != from ==> v in Rename(t, from, to) && Rename(t, from, to)[v] == t[v]
    ensures from !in t ==> Rename(t, from, to) == t
  {
  }

  /** After a rename the account logs in under its new name with its old
      password, and no longer under its old name. */
  lemma RenameThenLogin(t: Table, h: Hasher, from: string, to: string, password: string)
    requires from in t && (to !in t || to == from)
    ensures Login(Rename(t, from, to), h, to, password) == Login(t, h, from, password)
    ensures from != to ==> Login(Rename(t, from, to), h, from, password) == UserNotFound
  {
  }

  // ---------------------------------------------------------------------
  // Listing

  /** Dropping the last entry of a faithful listing lists the table without
      that entry's row. */
  lemma DropLastEntry(users: seq<User>, t: Table)
    requires Enumerates(users, t) && users != []
    ensures Enumerates(users[..|users| - 1], Remove(t, users[|users| - 1].username))
  {
    var n := |users| - 1;
    var init, t' := users[..n], Remove(t, users[n].username);
    assert users[n].username in t;
    assert |t'| == |init|;
    assert EntriesMatch(init, t') by {
      forall i | 0 <= i < |init|
        ensures init[i].username in t' && t'[init[i].username] == Account(init[i].email, init[i].password)
      {
        assert init[i] == users[i] && users[i].username != users[n].username;
      }
    }
    assert Covers(init, t') by {
      forall u | u in t'
        ensures exists i :: 0 <= i < |init| && init[i].username == u
      {
        var i :| 0 <= i < |users| && users[i].username == u;
        assert i != n && init[i] == users[i];
      }
    }
    assert NoRepeats(init) by {
      forall i, j | 0 <= i < j < |init|
        ensures init[i].username != init[j].username
      {
        assert init[i] == users[i] && init[j] == users[j];
      }
    }
  }

  /** A faithful listing determines the table: rebuilding it row by row gives
      the table back. */
  lemma {:induction false} ListingRoundTrip(users: seq<User>, t: Table)
    requires Enumerates(users, t)
    ensures FromRows(users) == t
  {
    if users == [] {
      assert |t.Keys| == 0;
    } else {
      var last := users[|users| - 1];
      DropLastEntry(users, t);
      ListingRoundTrip(users[..|users| - 1], Remove(t, last.username));
      assert EntriesMatch(users, t);
      assert t[last.username] == Account(last.email, last.password);
      assert Remove(t, last.username)[last.username := t[last.username]] == t;
    }
  }
}
