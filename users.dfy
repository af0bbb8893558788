/** The account store the HTTP handlers call: one object standing for the
    database handle, whose `rows` field is the users table. Each method is one
    of the package's functions and changes the table exactly as its SQL
    statement does. The Postgres repository package holds the same AddUser,
    ValidateUser, DeleteUser and GetAllUsers (only the text of the duplicate
    error differs), so this class models both. */
module Users {
  import opened Wrappers
  import opened Bcrypt
  import opened Accounts

  datatype StoreError =
    | AlreadyExists     // the pre-insert query found the username or the email
    | UniqueViolation   // the database refused the UPDATE on the UNIQUE username

  /** None stands for Go's nil error. */
  type Failure = Option<StoreError>

  class Store {
    /** The password hashing library. */
    const crypto: Hasher
    /** The users table. */
    var rows: Table

    /** The UNIQUE constraints of the table; every method keeps them. */
    ghost predicate Valid()
      reads this
    {
      EmailsUnique(rows)
    }

    /** A freshly created, empty users table. */
    constructor (crypto: Hasher)
      ensures Valid()
      ensures this.crypto == crypto && rows == map[]
    {
      this.crypto := crypto;
      rows := map[];
    }

    /** SELECT password FROM users WHERE username = $1. */
    function PasswordHash(username: string): (hash: Option<string>)
      reads this
    {
      if username in rows then Some(rows[username].hash) else None
    }

    /** Registration: refuse when the username or the email is already in
        use, otherwise insert the row with the hashed password. */
    method AddUser(username: string, email: string, password: string) returns (err: Failure)
      requires Valid()
      modifies this
      ensures Valid()
      ensures err == Some(AlreadyExists) <==> Taken(old(rows), username, email)
      ensures err == None <==> !Taken(old(rows), username, email)
      ensures rows == if err == None then Insert(old(rows), username, email, crypto.generate(password)) else old(rows)
    {
      var alreadyExists := Taken(rows, username, email);
      if alreadyExists {
        return Some(AlreadyExists);
      }
      var hashedPassword := crypto.generate(password);
      InsertAddsOneRow(rows, username, email, hashedPassword);
      rows := Insert(rows, username, email, hashedPassword);
      err := None;
    }

    /** Deletion: remove the row if there is one; succeeds either way. */
    method DeleteUser(username: string)
      requires Valid()
      modifies this
      ensures Valid()
      ensures rows == Remove(old(rows), username)
    {
      RemoveOnlyNamed(rows, username);
      rows := Remove(rows, username);
    }

    /** Login check: "user not found" without a row, "invalid password" when
        the stored hash does not match, nil otherwise. Reads only. */
    method ValidateUser(username: string, password: string) returns (r: LoginResult)
      ensures r == UserNotFound <==> username !in rows
      ensures r == InvalidPassword <==> username in rows && !crypto.compare(rows[username].hash, password)
      ensures r == Authenticated <==> username in rows && crypto.compare(rows[username].hash, password)
      ensures r == Login(rows, crypto, username, password)
    {
      var hashedPassword := PasswordHash(username);
      if hashedPassword.None? {
        return UserNotFound;
      }
      if !crypto.compare(hashedPassword.value, password) {
        return InvalidPassword;
      }
      return Authenticated;
    }

    /** Password change: store the hash of the new password in the named row;
        a username without a row updates nothing and still succeeds. */
    method UpdateUserPassword(username: string, newPassword: string)
      requires Valid()
      modifies this
      ensures Valid()
      ensures rows == SetHash(old(rows), username, crypto.generate(newPassword))
    {
      var hashedPassword := crypto.generate(newPassword);
      SetHashOnlyHash(rows, username, hashedPassword);
      rows := SetHash(rows, username, hashedPassword);
    }

    /** Username change: move the row to the new name. The UNIQUE constraint
        refuses it when another row already has that name; a current name
        without a row updates nothing and succeeds. */
    method UpdateUserUsername(currentUsername: string, newUsername: string) returns (err: Failure)
      requires Valid()
      modifies this
      ensures Valid()
      ensures err == Some(UniqueViolation) <==>
        currentUsername in old(rows) && newUsername in old(rows) && newUsername != currentUsername
      ensures err.Some? ==> err.value == UniqueViolation
      ensures rows == if err == None then Rename(old(rows), currentUsername, newUsername) else old(rows)
    {
      if currentUsername in rows && newUsername in rows && newUsername != currentUsername {
        return Some(UniqueViolation);
      }
      RenameMovesRow(rows, currentUsername, newUsername);
      rows := Rename(rows, currentUsername, newUsername);
      err := None;
    }

    /** Listing: walk the result set of SELECT username, email, password FROM
        users and collect one entry per row. The order of the rows is the
        database's (the query has no ORDER BY), so any order is allowed. */
    method GetAllUsers() returns (users: seq<User>)
      ensures Enumerates(users, rows)
    {
      users := [];
      var pending := rows.Keys;
      while pending != {}
        invariant pending <= rows.Keys
        invariant |users| + |pending| == |rows|
        invariant forall i :: 0 <= i < |users| ==>
          users[i].username in rows && users[i].username !in pending &&
          rows[users[i].username] == Account(users[i].email, users[i].password)
        invariant forall u :: u in rows && u !in pending ==> exists i :: 0 <= i < |users| && users[i].username == u
        invariant forall i, j :: 0 <= i < j < |users| ==> users[i].username != users[j].username
        decreases pending
      {
        var u :| u in pending;
        ghost var listed := users;
        users := users + [User(u, rows[u].email, rows[u].hash)];
        pending := pending - {u};
        forall v | v in rows && v !in pending
          ensures exists i :: 0 <= i < |users| && users[i].username == v
        {
          if v == u {
            assert users[|users| - 1].username == v;
          } else {
            var i :| 0 <= i < |listed| && listed[i].username == v;
            assert users[i] == listed[i];
          }
        }
      }
    }
  }
}
