/** How the follow graph shapes the dashboard: following someone brings
    their messages in, unfollowing takes them out again. */
module Timeline {
  import opened Wrappers
  import opened Database
  import opened Results
  import FollowService
  import FollowGraph
  import MessageService
  import UserService

  /** After a successful follow, every message of the followed user is on the
      follower's dashboard. */
  lemma FollowShowsMessages(s: Store, a: int, b: int, m: Message)
    requires FollowService.FollowUser(s, None, a, b).result.success
    requires m in s.messages && m.userId == b
    ensures m in MessageService.DashboardFeed(FollowService.FollowUser(s, None, a, b).store, a)
  {
    var o := FollowService.FollowUser(s, None, a, b);
    var e := Follow(s.nextFollowId, a, b);
    assert o.store.follows[|s.follows|] == e;
    assert UserExists(o.store, b);
    assert MessageService.FollowsExisting(o.store, a, b);
    assert m in multiset(o.store.messages);
    assert multiset(MessageService.DashboardFeed(o.store, a))[m] > 0;
  }

  /** After a successful unfollow (edges sound, ids unique), none of the
      unfollowed user's messages is left on the former follower's dashboard. */
  lemma UnfollowHidesMessages(s: Store, a: int, b: int, m: Message)
    requires FollowGraph.SoundEdges(s.follows) && Valid(s)
    requires FollowService.UnFollowUser(s, None, a, b).result.success
    requires m.userId == b
    ensures m !in MessageService.DashboardFeed(FollowService.UnFollowUser(s, None, a, b).store, a)
  {
    var o := FollowService.UnFollowUser(s, None, a, b);
    FollowGraph.UnfollowRemovesExactlyThePair(s, a, b);
    assert !HasEdge(o.store.follows, a, b);
    assert !MessageService.FollowsExisting(o.store, a, b);
    assert multiset(MessageService.DashboardFeed(o.store, a))[m] == 0;
  }

  /** The store after Alfonso and Ivan sign up, Alfonso follows Ivan and
      Ivan posts "hello". */
  function HelloStore(): Store {
    Store([User(1, "Alfonso"), User(2, "Ivan")], [Follow(1, 1, 2)], [Message(1, 2, "hello", 0)], 3, 2, 2)
  }

  lemma HelloSetup()
    ensures var s0 := Store([], [], [], 1, 1, 1);
      var c1 := UserService.CreateUser(s0, None, "Alfonso");
      var c2 := UserService.CreateUser(c1.store, None, "Ivan");
      var f := FollowService.FollowUser(c2.store, None, 1, 2);
      var p := MessageService.CreateMessage(f.store, None, 2, "hello", 0);
      && c1.result.data == Some(1) && c2.result.data == Some(2)
      && f.result.success && p.result.data == Some(1)
      && p.store == HelloStore()
  {
    var s0 := Store([], [], [], 1, 1, 1);
    var c1 := UserService.CreateUser(s0, None, "Alfonso");
    assert c1.store == Store([User(1, "Alfonso")], [], [], 2, 1, 1);
    var c2 := UserService.CreateUser(c1.store, None, "Ivan");
    assert !NameTaken(c1.store, "Ivan");
    assert c2.store == Store([User(1, "Alfonso"), User(2, "Ivan")], [], [], 3, 1, 1);
    var f := FollowService.FollowUser(c2.store, None, 1, 2);
    assert FollowService.DistinctUsers(c2.store, 1, 2);
    assert f.store == Store([User(1, "Alfonso"), User(2, "Ivan")], [Follow(1, 1, 2)], [], 3, 2, 1);
    var p := MessageService.CreateMessage(f.store, None, 2, "hello", 0);
    assert UserExists(f.store, 2);
  }

  /** A feed holding exactly one message, once, is that message alone. */
  lemma SingleMessageFeed(feed: seq<Message>, msg: Message)
    requires multiset(feed) == multiset{msg}
    ensures feed == [msg]
  {
    assert |feed| == |multiset(feed)| == 1;
    assert feed[0] in multiset(feed);
  }

  /** When the store holds a single message and its author is the user or
      someone the user follows, the dashboard is that message alone. */
  lemma SingleMessageDashboard(s: Store, u: int, msg: Message)
    requires s.messages == [msg] && UserExists(s, u)
    requires msg.userId == u || MessageService.FollowsExisting(s, u, msg.userId)
    ensures MessageService.GetDashboardMessages(s, None, u).data == Some([ToMessageModel(msg)])
  {
    var feed := MessageService.DashboardFeed(s, u);
    forall m ensures multiset(feed)[m] == multiset{msg}[m] {
      assert multiset(s.messages) == multiset{msg};
    }
    assert multiset(feed) == multiset{msg};
    SingleMessageFeed(feed, msg);
    assert ToMessageModels(feed) == [ToMessageModel(msg)];
  }

  /** Ivan's "hello" is on Alfonso's dashboard, through the follow. */
  lemma HelloOnFollowerDashboard()
    ensures MessageService.GetDashboardMessages(HelloStore(), None, 1).data == Some([MessageModel(1, 2, "hello")])
  {
    var s := HelloStore();
    assert UserExists(s, 1) by { assert s.users[0].id == 1; }
    assert MessageService.FollowsExisting(s, 1, 2) by {
      assert s.users[1].id == 2;
      assert s.follows[0] == Follow(1, 1, 2);
    }
    SingleMessageDashboard(s, 1, Message(1, 2, "hello", 0));
  }

  /** Ivan's "hello" is on Ivan's own dashboard. */
  lemma HelloOnAuthorDashboard()
    ensures MessageService.GetDashboardMessages(HelloStore(), None, 2).data == Some([MessageModel(1, 2, "hello")])
  {
    var s := HelloStore();
    assert UserExists(s, 2) by { assert s.users[1].id == 2; }
    SingleMessageDashboard(s, 2, Message(1, 2, "hello", 0));
  }
}
