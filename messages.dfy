/**
 * The message controller: the sidebar listing and the conversation query, which
 * only read the stores and are pure functions, and message sending, which
 * validates and uploads an optional inline image before it saves anything and
 * is written twice: the pure SendImageOutcome, which covers the image checks
 * and the upload (every refusal and the image URL to be stored), and the
 * MessageController method proved to follow it, whose contract gives the
 * saved message and the 201 answer.
 */
module Messages {
  import opened Wrappers
  import opened Records
  import Media

  // ---------------------------------------------------------------- sidebar

  /** User.find({_id: {$ne: me}}).select("-password"), in store order. */
  function SidebarUsers(users: seq<User>, me: Id): (r: seq<PublicUser>)
    ensures |r| <= |users|
    ensures forall p :: p in r ==> p._id != me && exists u :: u in users && PublicView(u) == p
    ensures forall u :: u in users && u._id != me ==> PublicView(u) in r
    ensures UniqueUserIds(users) ==> DistinctIds(r)
  {
    if users == [] then []
    else
      var rest := SidebarUsers(users[1..], me);
      assert forall u :: u in users[1..] ==> u in users;
      RestOmitsFirst(users, rest);
      if users[0]._id != me then
        PrependDistinct(PublicView(users[0]), rest);
        [PublicView(users[0])] + rest
      else rest
  }

  ghost predicate DistinctIds(ps: seq<PublicUser>)
  {
    forall i, j :: 0 <= i < j < |ps| ==> ps[i]._id != ps[j]._id
  }

  /** Views drawn from the later users never carry the first user's id, when ids are unique. */
  lemma RestOmitsFirst(users: seq<User>, rest: seq<PublicUser>)
    requires |users| > 0
    requires forall p :: p in rest ==> exists u :: u in users[1..] && PublicView(u) == p
    ensures UniqueUserIds(users) ==> UniqueUserIds(users[1..])
    ensures UniqueUserIds(users) ==> forall p :: p in rest ==> p._id != users[0]._id
  {
    if UniqueUserIds(users) {
      forall p | p in rest ensures p._id != users[0]._id {
        var u :| u in users[1..] && PublicView(u) == p;
        var k :| 0 <= k < |users[1..]| && users[1..][k] == u;
        assert users[k + 1] == u;
      }
    }
  }

  lemma PrependDistinct(p: PublicUser, rest: seq<PublicUser>)
    ensures DistinctIds(rest) && (forall q :: q in rest ==> q._id != p._id) ==> DistinctIds([p] + rest)
  {
    if DistinctIds(rest) && forall q :: q in rest ==> q._id != p._id {
      forall i, j | 0 <= i < j < |[p] + rest| ensures ([p] + rest)[i]._id != ([p] + rest)[j]._id {
        if i == 0 { assert ([p] + rest)[j] == rest[j - 1]; assert rest[j - 1] in rest; }
      }
    }
  }

  /** getUsersForSidebar: everyone but the caller, each once, without password digests. */
  function GetUsersForSidebar(users: seq<User>, me: Id): (r: Response)
    ensures r.status == 200 && r.body.UserList?
    ensures |r.body.users| <= |users|
    ensures forall p :: p in r.body.users <==> p._id != me && exists u :: u in users && PublicView(u) == p
    ensures UniqueUserIds(users) ==> DistinctIds(r.body.users)
  {
    var r := Response(200, UserList(SidebarUsers(users, me)));
    assert forall u :: u in users && PublicView(u)._id != me ==> PublicView(u) in r.body.users;
    r
  }

  // ---------------------------------------------------------------- conversation

  /** The message travels between a and b, in either direction. */
  predicate Between(m: Message, a: Id, b: Id)
  {
    (m.senderId == a && m.receiverId == b) || (m.senderId == b && m.receiverId == a)
  }

  /** The $or filter of getMessages, in store order. */
  function Conversation(msgs: seq<Message>, a: Id, b: Id): (r: seq<Message>)
    ensures forall m :: multiset(r)[m] == if Between(m, a, b) then multiset(msgs)[m] else 0
  {
    if msgs == [] then []
    else
      assert msgs == [msgs[0]] + msgs[1..];
      (if Between(msgs[0], a, b) then [msgs[0]] else []) + Conversation(msgs[1..], a, b)
  }

  ghost predicate SortedByCreatedAt(s: seq<Message>)
  {
    forall i, j :: 0 <= i < j < |s| ==> s[i].createdAt <= s[j].createdAt
  }

  /** Puts m after every message of s that is not later than m. */
  function Insert(m: Message, s: seq<Message>): (r: seq<Message>)
    requires SortedByCreatedAt(s)
    ensures SortedByCreatedAt(r)
    ensures multiset(r) == multiset(s) + multiset{m}
  {
    if s == [] then [m]
    else if m.createdAt < s[0].createdAt then
      PrependSorted(m, s);
      [m] + s
    else
      var rest := Insert(m, s[1..]);
      assert s == [s[0]] + s[1..];
      LowerBound(s[0], m, s[1..], rest);
      PrependSorted(s[0], rest);
      assert multiset([s[0]] + rest) == multiset{s[0]} + multiset(rest);
      [s[0]] + rest
  }

  lemma PrependSorted(first: Message, s: seq<Message>)
    requires SortedByCreatedAt(s)
    requires forall k :: 0 <= k < |s| ==> first.createdAt <= s[k].createdAt
    ensures SortedByCreatedAt([first] + s)
  {
  }

  /** A message no later than m and than everything in s is no later than anything in a rearrangement of m and s. */
  lemma LowerBound(first: Message, m: Message, s: seq<Message>, r: seq<Message>)
    requires first.createdAt <= m.createdAt
    requires forall x :: x in s ==> first.createdAt <= x.createdAt
    requires multiset(r) == multiset(s) + multiset{m}
    ensures forall k :: 0 <= k < |r| ==> first.createdAt <= r[k].createdAt
  {
    forall k | 0 <= k < |r| ensures first.createdAt <= r[k].createdAt {
      assert r[k] in multiset(r);
    }
  }

  /** .sort({createdAt: 1}), as a stable insertion sort. */
  function SortByCreatedAt(s: seq<Message>): (r: seq<Message>)
    ensures SortedByCreatedAt(r)
    ensures multiset(r) == multiset(s)
  {
    if s == [] then []
    else
      assert s == s[..|s| - 1] + [s[|s| - 1]];
      Insert(s[|s| - 1], SortByCreatedAt(s[..|s| - 1]))
  }

  /** getMessages: the conversation between the caller and the other user, oldest first. */
  function GetMessages(msgs: seq<Message>, me: Id, other: Id): (r: Response)
    ensures r.status == 200 && r.body.MessageList?
    ensures SortedByCreatedAt(r.body.msgs)
    ensures forall m :: multiset(r.body.msgs)[m] == if Between(m, me, other) then multiset(msgs)[m] else 0
    ensures forall m :: m in r.body.msgs <==> m in msgs && Between(m, me, other)
  {
    Response(200, MessageList(SortByCreatedAt(Conversation(msgs, me, other))))
  }

  lemma {:induction false} ConversationSymmetric(msgs: seq<Message>, a: Id, b: Id)
    ensures Conversation(msgs, a, b) == Conversation(msgs, b, a)
  {
    if msgs != [] {
      ConversationSymmetric(msgs[1..], a, b);
    }
  }

  /** The conversation looks the same from both sides. */
  lemma GetMessagesSymmetric(msgs: seq<Message>, a: Id, b: Id)
    ensures GetMessages(msgs, a, b) == GetMessages(msgs, b, a)
  {
    ConversationSymmetric(msgs, a, b);
  }

  /** Two users who never wrote to each other see an empty conversation. */
  lemma GetMessagesNoHistory(msgs: seq<Message>, a: Id, b: Id)
    requires forall m :: m in msgs ==> !Between(m, a, b)
    ensures GetMessages(msgs, a, b).body.msgs == []
  {
  }

  // ---------------------------------------------------------------- sending

  datatype SendResult = SendRefused(response: Response) | SendAccepted(imageUrl: Option<string>)

  /** The image part of sendMessage: the answer it stops with, or the image URL the message gets. */
  function SendImageOutcome(image: Option<string>, upload: Media.UploadOutcome): (r: SendResult)
    ensures Falsy(image) ==> r == SendAccepted(None)
    ensures !Falsy(image) && !(Media.ImagePrefix <= image.value) ==>
              r == SendRefused(Response(400, ErrDetails("Invalid image format", Media.FormatDetails)))
    ensures !Falsy(image) && Media.ImagePrefix <= image.value && |image.value| > Media.MaxImageLength ==>
              r == SendRefused(Response(400, Err("Image size exceeds the 10MB limit")))
    ensures Media.UploadAttempted(image) && upload.UploadFailed? ==>
              r == SendRefused(Response(400, Err("Failed to upload image: " + JsString(upload.message))))
    ensures Media.UploadAttempted(image) && upload.Uploaded? ==> r == SendAccepted(Some(upload.secureUrl))
    ensures r.SendRefused? ==> r.response.status == 400
    ensures r.SendAccepted? && r.imageUrl.Some? ==> Media.UploadAttempted(image) && upload == Media.Uploaded(r.imageUrl.value)
  {
    if Falsy(image) then SendAccepted(None)
    else match Media.CheckImage(image.value)
      case Some(BadFormat) => SendRefused(Response(400, ErrDetails("Invalid image format", Media.FormatDetails)))
      case Some(TooLarge) => SendRefused(Response(400, Err("Image size exceeds the 10MB limit")))
      case None =>
        match upload
        case Uploaded(url) => SendAccepted(Some(url))
        case UploadFailed(message) => SendRefused(Response(400, Err("Failed to upload image: " + JsString(message))))
  }

  ghost predicate UniqueIds(msgs: seq<Message>)
  {
    forall i, j :: 0 <= i < j < |msgs| ==> msgs[i]._id != msgs[j]._id
  }

  ghost predicate IdsBelow(msgs: seq<Message>, bound: Id)
  {
    forall i :: 0 <= i < |msgs| ==> msgs[i]._id < bound
  }

  class MessageController {
    /** The messages collection. */
    var messages: seq<Message>
    /** The id the store gives the next message it saves. */
    var nextId: Id
    /** The payloads handed to the media host, in order. */
    var uploads: seq<string>
    /** The URLs the media host has returned from successful uploads. */
    ghost var confirmed: set<string>

    /** Ids are fresh, and no stored message carries an image URL the host did not return. */
    ghost predicate Valid()
      reads this
    {
      && UniqueIds(messages) && IdsBelow(messages, nextId)
      && forall m :: m in messages && m.image.Some? ==> m.image.value in confirmed
    }

    constructor ()
      ensures Valid()
      ensures messages == [] && uploads == [] && confirmed == {}
    {
      messages, nextId, uploads := [], 0, [];
      confirmed := {};
    }

    /**
     * sendMessage from the authenticated sender to the route's receiver; `now`
     * is the timestamp the store assigns on save.
     */
    method SendMessage(sender: Id, receiver: Id, text: Option<string>, image: Option<string>,
                       upload: Media.UploadOutcome, now: nat) returns (resp: Response)
      requires Valid()
      modifies this
      ensures Valid()
      ensures uploads == old(uploads) + (if Media.UploadAttempted(image) then [image.value] else [])
      ensures confirmed == old(confirmed) + (if Media.UploadAttempted(image) && upload.Uploaded? then {upload.secureUrl} else {})
      ensures match SendImageOutcome(image, upload)
              case SendRefused(r) => resp == r && messages == old(messages) && nextId == old(nextId)
              case SendAccepted(url) =>
                var m := Message(old(nextId), sender, receiver, text, url, now);
                && messages == old(messages) + [m] && nextId == old(nextId) + 1
                && resp == Response(201, OneMessage(m))
    {
      var imageUrl: Option<string> := None;
      if !Falsy(image) {
        var payload := image.value;
        if !(Media.ImagePrefix <= payload) {
          return Response(400, ErrDetails("Invalid image format", Media.FormatDetails));
        }
        if Media.ExceedsSizeLimit(|payload|) {
          return Response(400, Err("Image size exceeds the 10MB limit"));
        }
        uploads := uploads + [payload];
        match upload {
          case UploadFailed(message) =>
            return Response(400, Err("Failed to upload image: " + JsString(message)));
          case Uploaded(url) =>
            confirmed := confirmed + {url};
            imageUrl := Some(url);
        }
      }
      var m := Message(nextId, sender, receiver, text, imageUrl, now);
      messages := messages + [m];
      nextId := nextId + 1;
      resp := Response(201, OneMessage(m));
    }
  }
}
