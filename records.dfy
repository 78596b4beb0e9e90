/**
 * The records the two controllers read and write, the password digest, the
 * session cookie and the JSON responses they send back.
 */
module Records {
  import opened Wrappers

  /** A store-assigned document id (a Mongo ObjectId in the application). */
  type Id = nat

  /**
   * A bcrypt digest, idealised: the salt is an input of the model (bcrypt draws
   * it at random) and a digest verifies exactly the password it was made from.
   */
  datatype Digest = BCrypt(salt: nat, secret: string)

  predicate Verify(password: string, d: Digest)
  {
    d.secret == password
  }

  function Hash(salt: nat, password: string): (d: Digest)
    ensures forall p :: Verify(p, d) <==> p == password
  {
    BCrypt(salt, password)
  }

  /** A document of the users collection. */
  datatype User = User(_id: Id, fullName: string, email: string, password: Digest, profilePic: Option<string>)

  /** The fields of a user that are sent to clients: everything but the password digest. */
  datatype PublicUser = PublicUser(_id: Id, fullName: string, email: string, profilePic: Option<string>)

  /** The object signup and login send back: the user's id, name, email and picture. */
  function PublicView(u: User): (p: PublicUser)
    ensures p._id == u._id && p.fullName == u.fullName && p.email == u.email && p.profilePic == u.profilePic
  {
    PublicUser(u._id, u.fullName, u.email, u.profilePic)
  }

  /** What is sent to clients does not depend on the password digest in any way. */
  lemma PublicViewIgnoresPassword(u: User, d: Digest)
    ensures PublicView(u.(password := d)) == PublicView(u)
  {
  }

  /** No two stored users share an id. */
  ghost predicate UniqueUserIds(users: seq<User>)
  {
    forall i, j :: 0 <= i < j < |users| ==> users[i]._id != users[j]._id
  }

  /** A document of the messages collection; createdAt is the timestamp the store assigns on save. */
  datatype Message = Message(_id: Id, senderId: Id, receiverId: Id, text: Option<string>, image: Option<string>, createdAt: nat)

  /** The value of the `jwt` cookie as a response sets it. */
  datatype CookieSetting =
    | SessionToken(userId: Id)          // a signed token naming the user
    | Cleared(value: string, maxAge: nat)

  /** The JSON bodies the handlers send. */
  datatype Body =
    | Msg(message: string)
    | MsgDetails(message: string, details: string)
    | MsgError(message: string, cause: Option<string>)   // `error` key, dropped when undefined
    | Err(error: string)
    | ErrDetails(error: string, details: string)
    | OneUser(user: PublicUser)
    | UserDocument(doc: Option<User>)
    | UserList(users: seq<PublicUser>)
    | MessageList(msgs: seq<Message>)
    | OneMessage(msg: Message)

  datatype Response = Response(status: nat, body: Body)

  /** JavaScript falsiness of a string field of a request body: absent, null or "". */
  predicate Falsy(field: Option<string>)
    ensures Falsy(field) <==> field == None || field == Some("")
  {
    field.None? || field.value == ""
  }

  /** What `"..." + x` makes of a string that may be undefined. */
  function JsString(s: Option<string>): (r: string)
    ensures s.Some? ==> r == s.value
    ensures s.None? ==> r == "undefined"
  {
    if s.Some? then s.value else "undefined"
  }
}
