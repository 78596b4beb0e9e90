# UFlareChatApp backend controllers in Dafny

This project models the two Express controllers of the UFlareChatApp backend:

- the authentication controller: signup, login, logout, profile-picture update and the session echo `checkAuth`;
- the message controller: the sidebar user listing, conversation retrieval and message sending.

The users and messages collections are sequences of records owned by two classes, `Auth.AuthController` and
`Messages.MessageController`. Ids are drawn from a counter each store keeps. The `jwt` cookie set on the client is a
map from cookie name to setting. The media host (Cloudinary) appears in two ways:

- its answer to an upload is an input of type `Media.UploadOutcome`, either `Uploaded(secureUrl)` or `UploadFailed(message)`;
- each controller records every payload it hands to the host (`uploads`) and, as ghost state, every URL the host returned (`confirmed`).

The object invariant `Valid()` of each controller covers three things:

- emails are unique (users only);
- ids are fresh;
- no stored `profilePic` or message `image` holds a URL the host did not return from a successful upload.

The handlers take three forms:

- signup, login, updateProfile and sendMessage are each written twice: a pure outcome function and a method that
  runs the handler's early-return pipeline on the class's state and whose postcondition ties the new state and the
  response to that function. For signup and login the outcome function's contract states the status, the body and
  the change to the store. For updateProfile and sendMessage it covers the checks and the upload: the status and
  body of every refusal, and the URL to be stored. The method's postcondition then gives the success answer and
  the change to the store;
- logout is a method whose postcondition gives the cookie and the answer directly;
- checkAuth and the two read-only queries, getUsersForSidebar and getMessages, are pure functions.

Lemmas relate the
operations to each other: a signup followed by a login with the same credentials, a repeated signup, and the
two sides of a conversation.

Modules: `Wrappers` (Option), `Records` (documents, digest, cookie, JSON bodies), `Media` (inline-image checks
shared by both controllers), `Auth`, `Messages`.

Behaviour of the code that the model keeps as written:

- A non-preset profile upload failure answers 500 `{message: "Image upload failed", error}`, not 400. The `error` key is absent when the host's error has no message.
- A preset failure answers 400 with a fixed message. It is not a separate configuration error.
- A successful profile update answers 200 with the whole updated document as `findByIdAndUpdate` returns it, password digest included, or `null` when no user has the caller's id. It is not the public view.
- The session cookie is named `jwt`.
- Signup sets the cookie before the save.

## Model

| member | source | states |
|---|---|---|
| Records.Hash | backend/src/controllers/auth.controller.js:25-26 | the salted digest verifies the password it was made from, and (idealised, see Left out) no other |
| Records.PublicView | backend/src/controllers/auth.controller.js:40-46 | the object sent back carries exactly the user's `_id`, `fullName`, `email` and `profilePic` |
| Records.PublicViewIgnoresPassword | backend/src/controllers/auth.controller.js:79-84 | the public view is the same whatever the password digest, so no part of the password reaches the client |
| Records.Falsy | backend/src/controllers/auth.controller.js:13 | `!x` on a request field: true exactly when the field is absent or the empty string |
| Records.JsString | backend/src/controllers/message.controller.js:99 | string concatenation with a message that may be undefined: the message itself, or "undefined" |
| Media.ExceedsSizeLimit | backend/src/controllers/auth.controller.js:133-137 | the 9.5 MB estimate (length x 3/4 bytes) is exceeded exactly when the payload is longer than 13281962 characters |
| Media.CheckImage | backend/src/controllers/message.controller.js:69-83 | the prefix check comes first and then the size check; a payload is accepted exactly when it starts with `data:image/` and is at most 13281962 long |
| Media.Contains | backend/src/controllers/auth.controller.js:160 | `includes`: true exactly when the pattern occurs at some position of the string |
| Media.MentionsPreset | backend/src/controllers/auth.controller.js:160 | the preset test holds exactly when the host's error has a message and "preset" occurs in it |
| Auth.FindByEmail | backend/src/controllers/auth.controller.js:21 | `findOne({email})` finds the first user with that email, and finds none exactly when no user has it |
| Auth.SetProfilePic | backend/src/controllers/auth.controller.js:173-177 | only `profilePic` of a record with the caller's id changes, to the uploaded URL; that record does change when it exists; every other record is unchanged |
| Auth.UserById | backend/src/controllers/auth.controller.js:173-180 | the returned document is a stored user with the caller's id, or null exactly when there is none |
| Auth.SignupOutcome | backend/src/controllers/auth.controller.js:13-46 | 400 "All fields are required", then 400 for a password shorter than 6, then 400 "E-mail already exists", and in each case no user is created; a user is created exactly when the form is well formed and the email is new; that user has the next id, the given name and email, a digest of the password and no picture; the answer is 201 with its public view (no password) |
| Auth.LoginOutcome | backend/src/controllers/auth.controller.js:66-84 | every failure is the single 400 "Invalid credentials" with no token; success issues a token for a stored user with that email whose digest verifies the password, and answers 200 with that user's public view; with unique emails it succeeds exactly when such a user exists |
| Auth.ProfilePicOutcome | backend/src/controllers/auth.controller.js:116-194 | 400 for a missing pic, then for a missing `data:image/` prefix, then for an oversized pic; an upload error that mentions "preset" gives 400, any other gives 500 "Image upload failed" with the host's message; a new picture results exactly when the upload was attempted and succeeded, and it is the returned secure URL |
| Auth.CheckAuth | backend/src/controllers/auth.controller.js:198-209 | answers 200 with the authenticated user as the middleware attached it |
| Auth.SignupPreservesStore | backend/src/controllers/auth.controller.js:21-38 | a successful signup keeps emails unique and ids distinct and fresh |
| Auth.SignupThenLogin | backend/src/controllers/auth.controller.js:28-84 | right after a successful signup, login with the same email and password succeeds with 200, the new user's public view and a token for the new id |
| Auth.SignupTwiceConflicts | backend/src/controllers/auth.controller.js:21-23 | repeating a successful signup with the same email and any well-formed form (name present, password of at least 6 characters) gives 400 "E-mail already exists" and creates nothing |
| Auth.LoginFailuresIndistinguishable | backend/src/controllers/auth.controller.js:66-75 | an unknown email and a wrong password give the identical response and issue no token |
| Auth.SetProfilePicPreservesStore | backend/src/controllers/auth.controller.js:173-177 | a picture update keeps emails unique and ids distinct and fresh |
| Auth.AuthController.Signup | backend/src/controllers/auth.controller.js:8-60 | follows SignupOutcome: the store gains exactly the created user, or is unchanged; the jwt cookie is set for the new id only on success; nothing is uploaded; the store invariant is kept |
| Auth.AuthController.Login | backend/src/controllers/auth.controller.js:62-93 | follows LoginOutcome; the jwt cookie changes only on success, to a token for the found user; the users store is not touched and the store invariant is kept |
| Auth.AuthController.Logout | backend/src/controllers/auth.controller.js:95-109 | always sets the jwt cookie to "" with maxAge 0 and answers 200 "Successfully logged out"; the store invariant is kept |
| Auth.AuthController.UpdateProfile | backend/src/controllers/auth.controller.js:111-196 | the payload reaches the host only when it passed all three checks; on every refusal the store is unchanged; on success only the caller's picture changes, to the confirmed URL, and the answer is 200 with the updated document |
| Messages.SidebarUsers | backend/src/controllers/message.controller.js:11 | the listing holds the public view of every user whose id is not the caller's, and nothing else; it is no longer than the store, and when ids are unique no user appears twice |
| Messages.GetUsersForSidebar | backend/src/controllers/message.controller.js:6-13 | 200 with exactly the public views of the users other than the caller, no more of them than there are users, each user once when ids are unique |
| Messages.Conversation | backend/src/controllers/message.controller.js:41-45 | each message between the two users is kept as often as it is stored; every other message is dropped |
| Messages.SortByCreatedAt | backend/src/controllers/message.controller.js:46 | the result is ordered by createdAt ascending and is a permutation of the input |
| Messages.GetMessages | backend/src/controllers/message.controller.js:35-48 | 200 with exactly the stored messages from the caller to the other user and back, oldest first |
| Messages.GetMessagesSymmetric | backend/src/controllers/message.controller.js:41-45 | getMessages(A, B) and getMessages(B, A) return the same list |
| Messages.GetMessagesNoHistory | backend/src/controllers/message.controller.js:41-48 | two users with no shared messages get an empty list |
| Messages.SendImageOutcome | backend/src/controllers/message.controller.js:64-100 | a falsy image means no upload and an absent image; otherwise 400 for a missing prefix, then for the size, then "Failed to upload image: " followed by the host's message on upload failure; a message can carry an image URL only if the upload was attempted and returned that URL |
| Messages.MessageController.SendMessage | backend/src/controllers/message.controller.js:58-115 | the host is called only for a present image that passed both checks; on refusal nothing is saved; otherwise exactly one message is appended (caller as sender, route id as receiver, the body's text, the uploaded URL or none, the store's timestamp) and answered with 201; every stored image URL was confirmed by the host |

## Left out

- JWT signing and the token's lifetime: `generateToken` lives in backend/src/lib/utils.js, which is not part of this model. The cookie records only the user id the token names.
- bcrypt's salting and hashing: the digest is idealised, and the salt is an input.
- Records.Hash: bcrypt only looks at the first 72 bytes of a password, so two passwords that agree on those bytes both verify against one digest; the model's digest verifies only the exact password. For a password longer than 72 bytes, login with a different password sharing that prefix succeeds in the application but fails in `Auth.LoginOutcome`.
- The authentication middleware that resolves `req.user`: the caller is an input id, or for `checkAuth` the record the middleware attached, which is taken to be without its password digest (a `PublicUser`). Its 401 path is not modelled.
- The generic 500 catch-alls for store exceptions and for malformed request values (non-string fields, absent login fields, which Mongoose and bcrypt handle in their own ways): saves and queries are taken to succeed, and every request field is a string or absent. The login email and password are plain strings.
- The unreachable `if(newUser)` else branch of signup ("Invalid user data"): a Mongoose constructor always returns a document.
- The signup find-then-save race and all concurrency: each handler is one sequential step on its store.
- Cloudinary's own behaviour (allowed formats, size transformations): the host is only its `Ok`/`Err(message)` outcome. The configuration module and its startup ping are not modelled.
- Tie order of `.sort({createdAt: 1})`: MongoDB leaves the order of equal timestamps unspecified. The model keeps store order.
- Store-assigned timestamps other than a message's `createdAt` (the store's clock is an input), and schema defaults: the user schema is not part of this model, and a new user's `profilePic` is taken as absent.
- String length: JavaScript counts UTF-16 code units and the model counts characters. Email matching is exact, with no normalisation by the schema.
- Logging, the real-time push (only a TODO in the source) and the browser-side store.
