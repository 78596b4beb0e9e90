/**
 * The authentication controller: signup, login, logout, profile-picture update
 * and the session echo, over a users store, the cookies set on the client and
 * the media host.
 *
 * signup, login and updateProfile are each written twice: a pure outcome
 * function and a method of AuthController that runs the same early-return
 * pipeline on the store and is proved to follow that function. For signup and
 * login the function's contract states what the handler answers and how the
 * store changes; for updateProfile it covers the checks and the upload (every
 * refusal and the URL to be stored), and the method's contract gives the
 * success answer and the store update. logout is a method whose contract
 * gives the cookie and the answer directly; checkAuth is a pure function.
 */
module Auth {
  import opened Wrappers
  import opened Records
  import Media

  const JwtCookie: string := "jwt"
  const MinPasswordLength: nat := 6

  const InvalidCredentials: Response := Response(400, Msg("Invalid credentials"))
  const PresetDetails: string := "The specified upload preset 'profile_pictures' may not exist."

  // ---------------------------------------------------------------- the store

  ghost predicate UniqueEmails(users: seq<User>)
  {
    forall i, j :: 0 <= i < j < |users| ==> users[i].email != users[j].email
  }

  ghost predicate IdsBelow(users: seq<User>, bound: Id)
  {
    forall i :: 0 <= i < |users| ==> users[i]._id < bound
  }

  /** findOne({email}): the position of the first user with that email. */
  function FindByEmail(users: seq<User>, email: string): (r: Option<nat>)
    ensures r.Some? ==> r.value < |users| && users[r.value].email == email
    ensures r.Some? ==> forall j :: 0 <= j < r.value ==> users[j].email != email
    ensures r.None? <==> forall u :: u in users ==> u.email != email
  {
    if users == [] then None
    else if users[0].email == email then Some(0)
    else match FindByEmail(users[1..], email)
      case None => None
      case Some(k) => Some(k + 1)
  }

  /** The position of the first user with that id. */
  function FindById(users: seq<User>, id: Id): (r: Option<nat>)
    ensures r.Some? ==> r.value < |users| && users[r.value]._id == id
    ensures r.Some? ==> forall j :: 0 <= j < r.value ==> users[j]._id != id
    ensures r.None? <==> forall u :: u in users ==> u._id != id
  {
    if users == [] then None
    else if users[0]._id == id then Some(0)
    else match FindById(users[1..], id)
      case None => None
      case Some(k) => Some(k + 1)
  }

  /** findByIdAndUpdate(id, {profilePic: url}): the first user with that id gets the new picture. */
  function SetProfilePic(users: seq<User>, id: Id, url: string): (r: seq<User>)
    ensures |r| == |users|
    ensures forall i :: 0 <= i < |users| && users[i]._id != id ==> r[i] == users[i]
    ensures forall i :: 0 <= i < |users| ==> r[i] == users[i] || r[i] == users[i].(profilePic := Some(url))
    ensures (exists u :: u in users && u._id == id) ==>
              exists i :: 0 <= i < |users| && users[i]._id == id && r[i] == users[i].(profilePic := Some(url))
  {
    match FindById(users, id)
    case None => users
    case Some(k) => users[k := users[k].(profilePic := Some(url))]
  }

  /** The document findByIdAndUpdate returns with {new: true}: the user with that id, or null. */
  function UserById(users: seq<User>, id: Id): (r: Option<User>)
    ensures r.Some? ==> r.value in users && r.value._id == id
    ensures r.None? <==> forall u :: u in users ==> u._id != id
  {
    match FindById(users, id)
    case None => None
    case Some(k) => Some(users[k])
  }

  // ---------------------------------------------------------------- signup

  datatype SignupForm = SignupForm(fullName: Option<string>, email: Option<string>, password: Option<string>)

  /** The form passes both checks that run before the store is consulted. */
  predicate WellFormed(f: SignupForm)
  {
    !Falsy(f.fullName) && !Falsy(f.email) && !Falsy(f.password) && |f.password.value| >= MinPasswordLength
  }

  /** What signup answers, and the user it saves (if any). */
  datatype SignupResult = SignupResult(response: Response, created: Option<User>)

  function SignupOutcome(users: seq<User>, nextId: Id, f: SignupForm, salt: nat): (r: SignupResult)
    ensures Falsy(f.fullName) || Falsy(f.email) || Falsy(f.password) ==>
              r == SignupResult(Response(400, Msg("All fields are required")), None)
    ensures !Falsy(f.fullName) && !Falsy(f.email) && !Falsy(f.password) && |f.password.value| < MinPasswordLength ==>
              r == SignupResult(Response(400, Msg("Password must be at least 6 characters")), None)
    ensures WellFormed(f) && (exists u :: u in users && u.email == f.email.value) ==>
              r == SignupResult(Response(400, Msg("E-mail already exists")), None)
    ensures r.created.Some? <==> WellFormed(f) && forall u :: u in users ==> u.email != f.email.value
    ensures r.created.None? ==> r.response.status == 400
    ensures r.created.Some? ==>
              var u := r.created.value;
              && u._id == nextId && u.fullName == f.fullName.value && u.email == f.email.value
              && Verify(f.password.value, u.password) && u.profilePic == None
              && r.response == Response(201, OneUser(PublicView(u)))
  {
    if Falsy(f.fullName) || Falsy(f.email) || Falsy(f.password) then
      SignupResult(Response(400, Msg("All fields are required")), None)
    else if |f.password.value| < MinPasswordLength then
      SignupResult(Response(400, Msg("Password must be at least 6 characters")), None)
    else if FindByEmail(users, f.email.value).Some? then
      SignupResult(Response(400, Msg("E-mail already exists")), None)
    else
      var u := User(nextId, f.fullName.value, f.email.value, Hash(salt, f.password.value), None);
      SignupResult(Response(201, OneUser(PublicView(u))), Some(u))
  }

  // ---------------------------------------------------------------- login

  /** What login answers, and the user a session token is issued for (if any). */
  datatype LoginResult = LoginResult(response: Response, session: Option<Id>)

  function LoginOutcome(users: seq<User>, email: string, password: string): (r: LoginResult)
    ensures r.session.None? ==> r.response == InvalidCredentials
    ensures (forall u :: u in users ==> u.email != email) ==> r == LoginResult(InvalidCredentials, None)
    ensures r.session.Some? ==>
              exists u :: u in users && u.email == email && Verify(password, u.password) &&
                          r == LoginResult(Response(200, OneUser(PublicView(u))), Some(u._id))
    ensures UniqueEmails(users) ==>
              (r.session.Some? <==> exists u :: u in users && u.email == email && Verify(password, u.password))
  {
    match FindByEmail(users, email)
    case None => LoginResult(InvalidCredentials, None)
    case Some(k) =>
      if !Verify(password, users[k].password) then LoginResult(InvalidCredentials, None)
      else LoginResult(Response(200, OneUser(PublicView(users[k]))), Some(users[k]._id))
  }

  // ---------------------------------------------------------------- profile picture

  datatype ProfileResult = ProfileRefused(response: Response) | ProfileUploaded(url: string)

  /** The checks and the upload of updateProfile, up to the store update. */
  function ProfilePicOutcome(pic: Option<string>, upload: Media.UploadOutcome): (r: ProfileResult)
    ensures Falsy(pic) ==> r == ProfileRefused(Response(400, Msg("Profile pic is required")))
    ensures !Falsy(pic) && !(Media.ImagePrefix <= pic.value) ==>
              r == ProfileRefused(Response(400, MsgDetails("Invalid image format", Media.FormatDetails)))
    ensures !Falsy(pic) && Media.ImagePrefix <= pic.value && |pic.value| > Media.MaxImageLength ==>
              r == ProfileRefused(Response(400, Msg("Image size exceeds the 10MB limit")))
    ensures Media.UploadAttempted(pic) && upload.UploadFailed? && Media.MentionsPreset(upload.message) ==>
              r == ProfileRefused(Response(400, MsgDetails("Cloudinary upload preset error", PresetDetails)))
    ensures Media.UploadAttempted(pic) && upload.UploadFailed? && !Media.MentionsPreset(upload.message) ==>
              r == ProfileRefused(Response(500, MsgError("Image upload failed", upload.message)))
    ensures r.ProfileUploaded? <==> Media.UploadAttempted(pic) && upload.Uploaded?
    ensures r.ProfileUploaded? ==> r.url == upload.secureUrl
  {
    if Falsy(pic) then ProfileRefused(Response(400, Msg("Profile pic is required")))
    else match Media.CheckImage(pic.value)
      case Some(BadFormat) => ProfileRefused(Response(400, MsgDetails("Invalid image format", Media.FormatDetails)))
      case Some(TooLarge) => ProfileRefused(Response(400, Msg("Image size exceeds the 10MB limit")))
      case None =>
        match upload
        case Uploaded(url) => ProfileUploaded(url)
        case UploadFailed(message) =>
          if Media.MentionsPreset(message) then
            ProfileRefused(Response(400, MsgDetails("Cloudinary upload preset error", PresetDetails)))
          else
            ProfileRefused(Response(500, MsgError("Image upload failed", message)))
  }

  // ---------------------------------------------------------------- session echo

  /** checkAuth: the user the authentication middleware attached, sent back as is. */
  function CheckAuth(current: PublicUser): (r: Response)
    ensures r.status == 200 && r.body.OneUser? && r.body.user == current
  {
    Response(200, OneUser(current))
  }

  // ---------------------------------------------------------------- lemmas

  /** Signup keeps emails unique and ids fresh. */
  lemma SignupPreservesStore(users: seq<User>, nextId: Id, f: SignupForm, salt: nat)
    requires UniqueEmails(users) && UniqueUserIds(users) && IdsBelow(users, nextId)
    requires SignupOutcome(users, nextId, f, salt).created.Some?
    ensures var users' := users + [SignupOutcome(users, nextId, f, salt).created.value];
            UniqueEmails(users') && UniqueUserIds(users') && IdsBelow(users', nextId + 1)
  {
  }

  /** A user who has just signed up can log in with the same email and password. */
  lemma SignupThenLogin(users: seq<User>, nextId: Id, f: SignupForm, salt: nat)
    requires SignupOutcome(users, nextId, f, salt).created.Some?
    ensures var u := SignupOutcome(users, nextId, f, salt).created.value;
            LoginOutcome(users + [u], f.email.value, f.password.value)
              == LoginResult(Response(200, OneUser(PublicView(u))), Some(nextId))
  {
  }

  /** Repeating a successful signup with any well-formed form and any salt is refused as a duplicate. */
  lemma SignupTwiceConflicts(users: seq<User>, nextId: Id, f: SignupForm, salt: nat, f': SignupForm, salt': nat)
    requires SignupOutcome(users, nextId, f, salt).created.Some?
    requires WellFormed(f') && f'.email == f.email
    ensures var u := SignupOutcome(users, nextId, f, salt).created.value;
            SignupOutcome(users + [u], nextId + 1, f', salt')
              == SignupResult(Response(400, Msg("E-mail already exists")), None)
  {
  }

  /** An unknown email and a wrong password give the very same answer and issue no token. */
  lemma LoginFailuresIndistinguishable(users: seq<User>, unknown: string, p: string, known: string, wrong: string)
    requires UniqueEmails(users)
    requires forall u :: u in users ==> u.email != unknown
    requires forall u :: u in users && u.email == known ==> !Verify(wrong, u.password)
    ensures LoginOutcome(users, unknown, p) == LoginOutcome(users, known, wrong) == LoginResult(InvalidCredentials, None)
  {
  }

  /** Updating a picture changes no id and no email, so the store stays well formed. */
  lemma SetProfilePicPreservesStore(users: seq<User>, id: Id, url: string, bound: Id)
    requires UniqueEmails(users) && UniqueUserIds(users) && IdsBelow(users, bound)
    ensures var users' := SetProfilePic(users, id, url);
            UniqueEmails(users') && UniqueUserIds(users') && IdsBelow(users', bound)
  {
  }

  // ---------------------------------------------------------------- the controller

  class AuthController {
    /** The users collection. */
    var users: seq<User>
    /** The id the store gives the next user it saves. */
    var nextId: Id
    /** The cookies set on the client by the responses so far, by name. */
    var cookieJar: map<string, CookieSetting>
    /** The payloads handed to the media host, in order. */
    var uploads: seq<string>
    /** The URLs the media host has returned from successful uploads. */
    ghost var confirmed: set<string>

    ghost predicate Valid()
      reads this
    {
      && UniqueEmails(users) && UniqueUserIds(users) && IdsBelow(users, nextId)
      && forall u :: u in users && u.profilePic.Some? ==> u.profilePic.value in confirmed
    }

    constructor ()
      ensures Valid()
      ensures users == [] && cookieJar == map[] && uploads == [] && confirmed == {}
    {
      users, nextId, cookieJar, uploads := [], 0, map[], [];
      confirmed := {};
    }

    /** signup: the session cookie is set before the user is saved; the save is taken to succeed. */
    method Signup(f: SignupForm, salt: nat) returns (resp: Response)
      requires Valid()
      modifies this
      ensures Valid()
      ensures var r := SignupOutcome(old(users), old(nextId), f, salt);
              && resp == r.response
              && (r.created.None? ==> users == old(users) && nextId == old(nextId) && cookieJar == old(cookieJar))
              && (r.created.Some? ==>
                    && users == old(users) + [r.created.value] && nextId == old(nextId) + 1
                    && cookieJar == old(cookieJar)[JwtCookie := SessionToken(old(nextId))])
      ensures uploads == old(uploads) && confirmed == old(confirmed)
    {
      if Falsy(f.fullName) || Falsy(f.email) || Falsy(f.password) {
        return Response(400, Msg("All fields are required"));
      }
      if |f.password.value| < MinPasswordLength {
        return Response(400, Msg("Password must be at least 6 characters"));
      }
      var existing := FindByEmail(users, f.email.value);
      if existing.Some? {
        return Response(400, Msg("E-mail already exists"));
      }
      var hashed := Hash(salt, f.password.value);
      var newUser := User(nextId, f.fullName.value, f.email.value, hashed, None);
      SignupPreservesStore(users, nextId, f, salt);
      cookieJar := cookieJar[JwtCookie := SessionToken(newUser._id)];
      users := users + [newUser];
      nextId := nextId + 1;
      resp := Response(201, OneUser(PublicView(newUser)));
    }

    /** login: one answer for both failures; a token only on success. */
    method Login(email: string, password: string) returns (resp: Response)
      requires Valid()
      modifies this`cookieJar
      ensures Valid()
      ensures users == old(users)
      ensures var r := LoginOutcome(users, email, password);
              && resp == r.response
              && cookieJar == (if r.session.Some? then old(cookieJar)[JwtCookie := SessionToken(r.session.value)]
                               else old(cookieJar))
    {
      var found := FindByEmail(users, email);
      if found.None? {
        return InvalidCredentials;
      }
      var user := users[found.value];
      if !Verify(password, user.password) {
        return InvalidCredentials;
      }
      cookieJar := cookieJar[JwtCookie := SessionToken(user._id)];
      resp := Response(200, OneUser(PublicView(user)));
    }

    /** logout: always clears the jwt cookie. */
    method Logout() returns (resp: Response)
      requires Valid()
      modifies this`cookieJar
      ensures Valid()
      ensures cookieJar == old(cookieJar)[JwtCookie := Cleared("", 0)]
      ensures resp == Response(200, Msg("Successfully logged out"))
    {
      cookieJar := cookieJar[JwtCookie := Cleared("", 0)];
      resp := Response(200, Msg("Successfully logged out"));
    }

    /**
     * updateProfile for the authenticated caller: checks, then one upload, then
     * the store update; the 200 body is the whole updated document.
     */
    method UpdateProfile(caller: Id, pic: Option<string>, upload: Media.UploadOutcome) returns (resp: Response)
      requires Valid()
      modifies this`users, this`uploads, this`confirmed
      ensures Valid()
      ensures uploads == old(uploads) + (if Media.UploadAttempted(pic) then [pic.value] else [])
      ensures confirmed == old(confirmed) + (if Media.UploadAttempted(pic) && upload.Uploaded? then {upload.secureUrl} else {})
      ensures match ProfilePicOutcome(pic, upload)
              case ProfileRefused(r) => resp == r && users == old(users)
              case ProfileUploaded(url) =>
                && users == SetProfilePic(old(users), caller, url)
                && resp == Response(200, UserDocument(UserById(users, caller)))
    {
      if Falsy(pic) {
        return Response(400, Msg("Profile pic is required"));
      }
      var payload := pic.value;
      if !(Media.ImagePrefix <= payload) {
        return Response(400, MsgDetails("Invalid image format", Media.FormatDetails));
      }
      if Media.ExceedsSizeLimit(|payload|) {
        return Response(400, Msg("Image size exceeds the 10MB limit"));
      }
      uploads := uploads + [payload];
      match upload {
        case UploadFailed(message) =>
          if Media.MentionsPreset(message) {
            return Response(400, MsgDetails("Cloudinary upload preset error", PresetDetails));
          }
          return Response(500, MsgError("Image upload failed", message));
        case Uploaded(url) =>
          confirmed := confirmed + {url};
          SetProfilePicPreservesStore(users, caller, url, nextId);
          users := SetProfilePic(users, caller, url);
          resp := Response(200, UserDocument(UserById(users, caller)));
      }
    }
  }
}
