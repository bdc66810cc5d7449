/** Timelines and message writes. The dashboard gathers the ids of everyone
    the user follows plus the user's own id, asks the repository once for
    their messages, and passes that order through unchanged. Repository calls
    are numbered in the order the service makes them. */
module MessageService {
  import opened Wrappers
  import opened Database
  import opened Results
  import UserRepository
  import FollowRepository
  import MessageRepository

  const UserMissing := "User does not exist"
  const MessageMissing := "Message does not exist"

  /** `followerId` has an edge to `followedId`, and `followedId`'s row exists. */
  predicate FollowsExisting(s: Store, followerId: int, followedId: int) {
    UserExists(s, followedId) &&
    exists e :: e in s.follows && e.followerId == followerId && e.followedId == followedId
  }

  function Ids(users: seq<User>): (r: seq<int>)
    ensures |r| == |users|
    ensures forall i :: 0 <= i < |users| ==> r[i] == users[i].id
  {
    seq(|users|, i requires 0 <= i < |users| => users[i].id)
  }

  /** The author list: the followed users' ids, then the user's own. */
  function DashboardAuthors(followees: seq<User>, userId: int): (r: seq<int>)
    ensures |r| == |followees| + 1 && r[|followees|] == userId
    ensures forall i :: 0 <= i < |followees| ==> r[i] == followees[i].id
  {
    Ids(followees) + [userId]
  }

  /** The author list built from the store: exactly the user and everyone the
      user follows. */
  lemma AuthorsAreSelfAndFollowed(s: Store, userId: int, x: int)
    ensures var authors := DashboardAuthors(FollowRepository.FollowingOf(s.users, s.follows, userId), userId);
      x in authors <==> x == userId || FollowsExisting(s, userId, x)
  {
    var following := FollowRepository.FollowingOf(s.users, s.follows, userId);
    var authors := DashboardAuthors(following, userId);
    if x in authors && x != userId {
      var i :| 0 <= i < |authors| && authors[i] == x;
      assert following[i] in following;
    }
    if FollowsExisting(s, userId, x) {
      var e :| e in s.follows && e.followerId == userId && e.followedId == x;
      var found := UserRepository.FindById(s.users, x).value;
      var i :| 0 <= i < |following| && following[i] == found;
      assert authors[i] == x;
    }
  }

  /** With no outgoing edge the author list is the user alone. */
  lemma NoFollowsAuthorsSelf(s: Store, userId: int)
    requires forall e :: e in s.follows ==> e.followerId != userId
    ensures DashboardAuthors(FollowRepository.FollowingOf(s.users, s.follows, userId), userId) == [userId]
  {
    FollowRepository.NoEdgesNoNeighbours(s.users, s.follows, userId);
  }

  /** The dashboard's messages as the batched query returns them: every
      message of the user or of someone the user follows, each as often as
      stored, newest first. */
  function DashboardFeed(s: Store, userId: int): (feed: seq<Message>)
    ensures MessageRepository.NewestFirst(feed)
    ensures forall m :: multiset(feed)[m] ==
                        if m.userId == userId || FollowsExisting(s, userId, m.userId) then multiset(s.messages)[m] else 0
  {
    var authors := DashboardAuthors(FollowRepository.FollowingOf(s.users, s.follows, userId), userId);
    forall x ensures x in authors <==> x == userId || FollowsExisting(s, userId, x) {
      AuthorsAreSelfAndFollowed(s, userId, x);
    }
    MessageRepository.GetMessagesFromUserIds(s, None, 0, authors).value
  }

  /** The dashboard (call 0 looks the user up, call 1 reads the follows,
      call 2 reads the messages). Success carries no status code. */
  function GetDashboardMessages(s: Store, fault: Option<Fault>, userId: int): (r: ServiceResult<seq<MessageModel>>)
    ensures Clear(fault, 1) && !UserExists(s, userId) ==> r == Rejected(UserMissing, 400)
    ensures Clear(fault, 3) && UserExists(s, userId) ==>
      r == ServiceResult(true, None, None, Some(ToMessageModels(DashboardFeed(s, userId))))
    ensures Fails(fault, 0) ==> r == Internal(fault.value.message)
    ensures (Fails(fault, 1) || Fails(fault, 2)) && UserExists(s, userId) ==> r == Internal(fault.value.message)
  {
    CatchRead(
      var user :- UserRepository.GetUserById(s, fault, 0, userId);
      if user.None? then Returned(Rejected(UserMissing, 400))
      else
        var followees :- FollowRepository.GetFollowing(s, fault, 1, userId);
        var messages :- MessageRepository.GetMessagesFromUserIds(s, fault, 2, DashboardAuthors(followees, userId));
        Returned(ServiceResult(true, None, None, Some(ToMessageModels(messages)))))
  }

  /** One user's own messages (call 0 looks the user up, call 1 reads them). */
  function GetUserMessages(s: Store, fault: Option<Fault>, userId: int): (r: ServiceResult<seq<MessageModel>>)
    ensures Clear(fault, 1) && !UserExists(s, userId) ==> r == Rejected(UserMissing, 400)
    ensures Clear(fault, 2) && UserExists(s, userId) ==>
      r == ServiceResult(true, None, None, Some(ToMessageModels(MessageRepository.GetMessages(s, None, 0, userId).value)))
    ensures Fails(fault, 0) ==> r == Internal(fault.value.message)
    ensures Fails(fault, 1) && UserExists(s, userId) ==> r == Internal(fault.value.message)
    ensures r.success ==> r.data.Some? && forall m :: m in r.data.value ==> m.userId == userId
  {
    CatchRead(
      var user :- UserRepository.GetUserById(s, fault, 0, userId);
      if user.None? then Returned(Rejected(UserMissing, 400))
      else
        var messages :- MessageRepository.GetMessages(s, fault, 1, userId);
        assert forall i :: 0 <= i < |messages| ==> messages[i].userId == userId by {
          forall i | 0 <= i < |messages| ensures messages[i].userId == userId {
            assert messages[i] in multiset(messages);
          }
        }
        Returned(ServiceResult(true, None, None, Some(ToMessageModels(messages)))))
  }

  /** Posts a message stamped `now` (call 0 looks the author up, call 1
      inserts). The new id is returned with no status code. */
  function CreateMessage(s: Store, fault: Option<Fault>, userId: int, content: string, now: int): (o: Outcome<int>)
    ensures Clear(fault, 1) && !UserExists(s, userId) ==> o == Outcome(Rejected(UserMissing, 400), s)
    ensures Clear(fault, 2) && UserExists(s, userId) ==> o.result == ServiceResult(true, None, None, Some(s.nextMessageId))
    ensures Fails(fault, 0) ==> o == Outcome(Internal(fault.value.message), s)
    ensures Fails(fault, 1) && UserExists(s, userId) ==> o == Outcome(Internal(fault.value.message), s)
    ensures o.result.success ==> UserExists(s, userId) && o.result.data.Some?
    ensures o.result.success ==>
      && o.store.messages == s.messages + [Message(o.result.data.value, userId, content, now)]
      && o.store.users == s.users && o.store.follows == s.follows
    ensures o.result.success ==> o.result.data.value == s.nextMessageId < o.store.nextMessageId
    ensures CountersKept(s, o.store)
    ensures !o.result.success ==> o.store == s
  {
    Catch(
      var user :- UserRepository.GetUserById(s, fault, 0, userId);
      if user.None? then Returned(Outcome(Rejected(UserMissing, 400), s))
      else
        var created :- MessageRepository.CreateMessage(s, fault, 1, userId, content, now);
        Returned(Outcome(ServiceResult(true, None, None, Some(created.id)), created.store)),
      s)
  }

  /** Replaces a message's content (call 0 looks it up, call 1 writes). The
      repository's report is passed through without a status code. */
  function UpdateMessage(s: Store, fault: Option<Fault>, content: string, messageId: int): (o: Outcome<()>)
    ensures Clear(fault, 1) && !MessageExists(s, messageId) ==> o == Outcome(Rejected(MessageMissing, 400), s)
    ensures Clear(fault, 2) && MessageExists(s, messageId) ==> o.result == ServiceResult(true, None, None, None)
    ensures Fails(fault, 0) ==> o == Outcome(Internal(fault.value.message), s)
    ensures Fails(fault, 1) && MessageExists(s, messageId) ==>
      o == Outcome(ServiceResult(false, Some(fault.value.message), None, None), s)
    // success changes the content of that message only
    ensures o.result.success ==> MessageExists(s, messageId)
    ensures o.result.success ==>
      && |o.store.messages| == |s.messages|
      && o.store.users == s.users && o.store.follows == s.follows
      && forall i :: 0 <= i < |s.messages| ==>
           && o.store.messages[i].id == s.messages[i].id
           && o.store.messages[i].userId == s.messages[i].userId
           && o.store.messages[i].createdDate == s.messages[i].createdDate
           && o.store.messages[i].content == (if s.messages[i].id == messageId then content else s.messages[i].content)
    ensures CountersKept(s, o.store)
    ensures !o.result.success ==> o.store == s
  {
    Catch(
      var message :- MessageRepository.GetMessage(s, fault, 0, messageId);
      if message.None? then Returned(Outcome(Rejected(MessageMissing, 400), s))
      else
        var w := MessageRepository.UpdateMessage(s, fault, 1, content, message.value);
        Returned(Outcome(ServiceResult(w.result.success, w.result.errorMessage, None, None), w.store)),
      s)
  }

  /** Deletes a message (call 0 looks it up, call 1 deletes). The
      repository's report is passed through without a status code. */
  function DeleteMessage(s: Store, fault: Option<Fault>, messageId: int): (o: Outcome<()>)
    ensures Clear(fault, 1) && !MessageExists(s, messageId) ==> o == Outcome(Rejected(MessageMissing, 400), s)
    ensures Clear(fault, 2) && MessageExists(s, messageId) ==> o.result == ServiceResult(true, None, None, None)
    ensures Fails(fault, 0) ==> o == Outcome(Internal(fault.value.message), s)
    ensures Fails(fault, 1) && MessageExists(s, messageId) ==>
      o == Outcome(ServiceResult(false, Some(fault.value.message), None, None), s)
    ensures o.result.success ==> MessageExists(s, messageId)
    ensures o.result.success ==>
      && (forall m :: m in o.store.messages <==> m in s.messages && m.id != messageId)
      && o.store.users == s.users && o.store.follows == s.follows
    ensures o.result.success ==> o.store.messages == MessageRepository.WithoutMessage(s.messages, messageId)
    ensures CountersKept(s, o.store)
    ensures !o.result.success ==> o.store == s
  {
    Catch(
      var message :- MessageRepository.GetMessage(s, fault, 0, messageId);
      if message.None? then Returned(Outcome(Rejected(MessageMissing, 400), s))
      else
        var w := MessageRepository.DeleteMessage(s, fault, 1, message.value);
        Returned(Outcome(ServiceResult(w.result.success, w.result.errorMessage, None, None), w.store)),
      s)
  }
}
