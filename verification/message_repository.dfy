/** The Messages table: per-author and batched multi-author queries ordered
    newest first, point lookup, and the three writes. */
module MessageRepository {
  import opened Wrappers
  import opened Database
  import opened Results
  import UserRepository

  /** Non-increasing `createdDate`. No order among equal timestamps is
      promised. */
  predicate NewestFirst(ms: seq<Message>) {
    forall i, j :: 0 <= i < j < |ms| ==> ms[j].createdDate <= ms[i].createdDate
  }

  /** Places `m` into an already newest-first sequence. */
  function InsertNewestFirst(m: Message, ms: seq<Message>): (r: seq<Message>)
    requires NewestFirst(ms)
    ensures NewestFirst(r)
    ensures multiset(r) == multiset(ms) + multiset{m}
    ensures forall x :: x in r ==> x in ms || x == m
  {
    if |ms| == 0 then [m]
    else if ms[0].createdDate <= m.createdDate then
      ConsNewestFirst(m, ms);
      [m] + ms
    else
      var rest := InsertNewestFirst(m, ms[1..]);
      assert ms == [ms[0]] + ms[1..];
      ConsNewestFirst(ms[0], rest);
      [ms[0]] + rest
  }

  /** A message no older than every element may go in front. */
  lemma ConsNewestFirst(x: Message, ms: seq<Message>)
    requires NewestFirst(ms)
    requires forall y :: y in ms ==> y.createdDate <= x.createdDate
    ensures NewestFirst([x] + ms)
  {
    forall i, j | 0 <= i < j < |[x] + ms|
      ensures ([x] + ms)[j].createdDate <= ([x] + ms)[i].createdDate
    {
      assert ([x] + ms)[j] == ms[j - 1];
      if i > 0 {
        assert ([x] + ms)[i] == ms[i - 1];
      } else {
        assert ms[j - 1] in ms;
      }
    }
  }

  /** The ordering the `OrderByDescending(CreatedDate)` queries deliver: a
      permutation of the selected rows with non-increasing dates. */
  function SortNewestFirst(ms: seq<Message>): (r: seq<Message>)
    ensures NewestFirst(r)
    ensures multiset(r) == multiset(ms)
  {
    if |ms| == 0 then []
    else
      assert ms == [ms[0]] + ms[1..];
      InsertNewestFirst(ms[0], SortNewestFirst(ms[1..]))
  }

  /** The rows whose author is in `userIds`, in stored order. Each row is kept
      as often as it occurs, however often its author is listed. */
  function ByAuthors(ms: seq<Message>, userIds: seq<int>): (r: seq<Message>)
    ensures forall m :: multiset(r)[m] == if m.userId in userIds then multiset(ms)[m] else 0
  {
    if |ms| == 0 then []
    else
      assert ms == [ms[0]] + ms[1..];
      if ms[0].userId in userIds then [ms[0]] + ByAuthors(ms[1..], userIds)
      else ByAuthors(ms[1..], userIds)
  }

  /** The first row with id `id`, as a primary-key lookup finds it. */
  function FindMessage(ms: seq<Message>, id: int): (r: Option<Message>)
    ensures r.Some? <==> exists m :: m in ms && m.id == id
    ensures r.Some? ==> r.value in ms && r.value.id == id
  {
    if |ms| == 0 then None
    else if ms[0].id == id then Some(ms[0])
    else FindMessage(ms[1..], id)
  }

  /** The rows whose id is not `id`, in stored order. */
  function WithoutMessage(ms: seq<Message>, id: int): (r: seq<Message>)
    ensures forall m :: m in r <==> m in ms && m.id != id
  {
    if |ms| == 0 then []
    else if ms[0].id == id then WithoutMessage(ms[1..], id)
    else [ms[0]] + WithoutMessage(ms[1..], id)
  }

  /** One author's messages, newest first. */
  function GetMessages(s: Store, fault: Option<Fault>, call: nat, userId: int): (r: Call<seq<Message>>)
    ensures r.Thrown? <==> Fails(fault, call)
    ensures r.Thrown? ==> r.message == fault.value.message
    ensures r.Returned? ==> NewestFirst(r.value)
    ensures r.Returned? ==> forall m :: multiset(r.value)[m] == if m.userId == userId then multiset(s.messages)[m] else 0
  {
    if Fails(fault, call) then Thrown(fault.value.message)
    else Returned(SortNewestFirst(ByAuthors(s.messages, [userId])))
  }

  function GetMessage(s: Store, fault: Option<Fault>, call: nat, messageId: int): (r: Call<Option<Message>>)
    ensures r.Thrown? <==> Fails(fault, call)
    ensures r.Thrown? ==> r.message == fault.value.message
    ensures r.Returned? ==> (r.value.Some? <==> MessageExists(s, messageId))
    ensures r.Returned? && r.value.Some? ==> r.value.value in s.messages && r.value.value.id == messageId
  {
    if Fails(fault, call) then Thrown(fault.value.message) else Returned(FindMessage(s.messages, messageId))
  }

  /** The batched query: every message whose author is listed, newest first.
      An empty list is answered without touching the database. */
  function GetMessagesFromUserIds(s: Store, fault: Option<Fault>, call: nat, userIds: seq<int>): (r: Call<seq<Message>>)
    ensures |userIds| == 0 ==> r == Returned([])
    ensures r.Thrown? <==> 0 < |userIds| && Fails(fault, call)
    ensures r.Thrown? ==> r.message == fault.value.message
    ensures r.Returned? ==> NewestFirst(r.value)
    ensures r.Returned? ==> forall m :: multiset(r.value)[m] == if m.userId in userIds then multiset(s.messages)[m] else 0
  {
    if |userIds| == 0 then Returned([])
    else if Fails(fault, call) then Thrown(fault.value.message)
    else Returned(SortNewestFirst(ByAuthors(s.messages, userIds)))
  }

  /** Inserts a message stamped `now` under the next identity value. A failed
      save is not caught here: it throws. */
  function CreateMessage(s: Store, fault: Option<Fault>, call: nat, userId: int, content: string, now: int)
    : (r: Call<Created>)
    ensures r.Thrown? <==> Fails(fault, call)
    ensures r.Thrown? ==> r.message == fault.value.message
    ensures r.Returned? ==> r.value.id == s.nextMessageId && s.nextMessageId < r.value.store.nextMessageId
    ensures r.Returned? ==> r.value.store.messages == s.messages + [Message(r.value.id, userId, content, now)]
    ensures r.Returned? ==> r.value.store.users == s.users && r.value.store.follows == s.follows
  {
    if Fails(fault, call) then Thrown(fault.value.message)
    else
      var id := s.nextMessageId;
      Returned(Created(id, s.(messages := s.messages + [Message(id, userId, content, now)],
                                             nextMessageId := id + 1)))
  }

  /** Sets the content of `message`'s row; a failed save is caught and reported. */
  function UpdateMessage(s: Store, fault: Option<Fault>, call: nat, content: string, message: Message): (w: Written)
    ensures w.result.success <==> !Fails(fault, call)
    ensures !w.result.success ==> w.result.errorMessage == Some(fault.value.message) && w.store == s
    ensures w.store.users == s.users && w.store.follows == s.follows
    ensures |w.store.messages| == |s.messages|
    ensures forall i :: 0 <= i < |s.messages| ==>
      && w.store.messages[i].id == s.messages[i].id
      && w.store.messages[i].userId == s.messages[i].userId
      && w.store.messages[i].createdDate == s.messages[i].createdDate
      && (s.messages[i].id != message.id ==> w.store.messages[i] == s.messages[i])
      && (s.messages[i].id == message.id && w.result.success ==> w.store.messages[i].content == content)
  {
    if Fails(fault, call) then Written(OperationResult(false, Some(fault.value.message)), s)
    else
      var ms := seq(|s.messages|, i requires 0 <= i < |s.messages| =>
        if s.messages[i].id == message.id then s.messages[i].(content := content) else s.messages[i]);
      Written(OperationResult(true, None), s.(messages := ms))
  }

  /** Removes `message`'s row; a failed save is caught and reported. The save
      fails when no row has that key. */
  function DeleteMessage(s: Store, fault: Option<Fault>, call: nat, message: Message): (w: Written)
    ensures w.result.success <==> !Fails(fault, call) && MessageExists(s, message.id)
    ensures Fails(fault, call) ==> w.result.errorMessage == Some(fault.value.message)
    ensures !Fails(fault, call) && !MessageExists(s, message.id) ==> w.result.errorMessage == Some(NoRowAffected)
    ensures !w.result.success ==> w.store == s
    ensures w.store.users == s.users && w.store.follows == s.follows
    ensures w.result.success ==> forall m :: m in w.store.messages <==> m in s.messages && m.id != message.id
    ensures w.result.success ==> w.store == s.(messages := WithoutMessage(s.messages, message.id))
  {
    if Fails(fault, call) then Written(OperationResult(false, Some(fault.value.message)), s)
    else if !MessageExists(s, message.id) then Written(OperationResult(false, Some(NoRowAffected)), s)
    else Written(OperationResult(true, None), s.(messages := WithoutMessage(s.messages, message.id)))
  }

  /** Deleting a message that is not stored is reported as a failure. */
  lemma DeleteMissingMessageFails(s: Store, message: Message)
    requires !MessageExists(s, message.id)
    ensures DeleteMessage(s, None, 0, message) == Written(OperationResult(false, Some(NoRowAffected)), s)
  {
  }

  /** Removing messages keeps the message ids pairwise distinct. */
  lemma {:induction false} WithoutMessageKeepsKeys(ms: seq<Message>, id: int)
    requires UniqueMessageIds(ms)
    ensures UniqueMessageIds(WithoutMessage(ms, id))
  {
    if |ms| > 0 {
      var tail := ms[1..];
      assert UniqueMessageIds(tail) by {
        forall i, j | 0 <= i < j < |tail| ensures tail[i].id != tail[j].id {
          assert tail[i] == ms[i + 1] && tail[j] == ms[j + 1];
        }
      }
      WithoutMessageKeepsKeys(tail, id);
      if ms[0].id != id {
        var rest := WithoutMessage(tail, id);
        forall v | v in rest ensures v.id != ms[0].id {
          var k :| 0 <= k < |tail| && tail[k] == v;
          assert ms[k + 1] == v;
        }
        ConsMessageKeys(ms[0], rest);
      }
    }
  }

  /** A message whose id no other message has may go in front. */
  lemma ConsMessageKeys(x: Message, rest: seq<Message>)
    requires UniqueMessageIds(rest)
    requires forall v :: v in rest ==> v.id != x.id
    ensures UniqueMessageIds([x] + rest)
  {
    var r := [x] + rest;
    forall i, j | 0 <= i < j < |r| ensures r[i].id != r[j].id {
      assert r[j] == rest[j - 1];
      if i > 0 {
        assert r[i] == rest[i - 1];
      }
    }
  }

  /** A created message is read back under the returned id with the given
      author, content and date. */
  lemma CreateThenGetMessage(s: Store, userId: int, content: string, now: int)
    requires Valid(s)
    ensures var r := CreateMessage(s, None, 0, userId, content, now);
      && !MessageExists(s, r.value.id)
      && GetMessage(r.value.store, None, 0, r.value.id) == Returned(Some(Message(r.value.id, userId, content, now)))
  {
    var r := CreateMessage(s, None, 0, userId, content, now);
    var m := Message(r.value.id, userId, content, now);
    forall x | x in s.messages ensures x.id < s.nextMessageId {
      var i :| 0 <= i < |s.messages| && s.messages[i] == x;
    }
    FindMessageAppend(s.messages, m);
  }

  lemma {:induction false} FindMessageAppend(ms: seq<Message>, m: Message)
    requires forall x :: x in ms ==> x.id != m.id
    ensures FindMessage(ms + [m], m.id) == Some(m)
  {
    if |ms| > 0 {
      assert (ms + [m])[1..] == ms[1..] + [m];
      FindMessageAppend(ms[1..], m);
    }
  }

  /** A deleted message is no longer found. */
  lemma DeleteThenGetMessage(s: Store, message: Message)
    ensures var w := DeleteMessage(s, None, 0, message);
      GetMessage(w.store, None, 0, message.id) == Returned(None)
  {
  }
}
