/** The decision logic of the two credential-changing HTTP handlers, once the
    JSON body has been decoded into its fields. Each handler answers with one
    status; the table changes only on the success path. */
module Rest {
  import opened Wrappers
  import opened Bcrypt
  import opened Accounts
  import opened Users

  /** The answers the two handlers can give. */
  datatype Reply =
    | NoContent            // success
    | BadRequest           // a required field is empty
    | NotFound             // "User not found"
    | Unauthorized         // "Invalid current password"
    | InternalServerError  // the store refused the change

  /** The HTTP status code written for each answer. */
  function StatusCode(reply: Reply): (code: int)
  {
    match reply
    case NoContent => 204
    case BadRequest => 400
    case NotFound => 404
    case Unauthorized => 401
    case InternalServerError => 500
  }

  /** Change of password: check that all three fields are present, fetch the
      stored hash, compare the current password with it, and only then store
      the hash of the new password. Every early answer leaves the table as
      it was. */
  method UpdateUserPasswordHandler(db: Store, username: string, currentPassword: string, newPassword: string)
    returns (reply: Reply)
    requires db.Valid()
    modifies db
    ensures db.Valid()
    ensures reply == BadRequest <==> username == "" || currentPassword == "" || newPassword == ""
    ensures reply == NotFound <==>
      username != "" && currentPassword != "" && newPassword != "" && username !in old(db.rows)
    ensures reply == Unauthorized <==>
      username != "" && currentPassword != "" && newPassword != "" &&
      Login(old(db.rows), db.crypto, username, currentPassword) == InvalidPassword
    ensures reply == NoContent <==>
      username != "" && currentPassword != "" && newPassword != "" &&
      Login(old(db.rows), db.crypto, username, currentPassword) == Authenticated
    ensures reply != InternalServerError && StatusCode(reply) in {204, 400, 401, 404}
    ensures db.rows == if reply == NoContent
                       then SetHash(old(db.rows), username, db.crypto.generate(newPassword))
                       else old(db.rows)
  {
    if username == "" || currentPassword == "" || newPassword == "" {
      return BadRequest;
    }
    var storedPasswordHash := db.PasswordHash(username);
    if storedPasswordHash.None? {
      return NotFound;
    }
    if !db.crypto.compare(storedPasswordHash.value, currentPassword) {
      return Unauthorized;
    }
    db.UpdateUserPassword(username, newPassword);
    reply := NoContent;
  }

  /** Change of username: check that both fields are present, then rename
      through the store; a refusal by the store is a 500. */
  method UpdateUserUsernameHandler(db: Store, username: string, newUsername: string) returns (reply: Reply)
    requires db.Valid()
    modifies db
    ensures db.Valid()
    ensures reply == BadRequest <==> username == "" || newUsername == ""
    ensures reply == InternalServerError <==>
      username != "" && newUsername != "" &&
      username in old(db.rows) && newUsername in old(db.rows) && newUsername != username
    ensures reply in {NoContent, BadRequest, InternalServerError} && StatusCode(reply) in {204, 400, 500}
    ensures db.rows == if reply == NoContent
                       then Rename(old(db.rows), username, newUsername)
                       else old(db.rows)
  {
    if username == "" || newUsername == "" {
      return BadRequest;
    }
    var err := db.UpdateUserUsername(username, newUsername);
    if err.Some? {
      return InternalServerError;
    }
    reply := NoContent;
  }
}
