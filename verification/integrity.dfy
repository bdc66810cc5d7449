/** Integrity under the service writes.
    Foreign keys: every edge joins two stored users and every message has a
    stored author. The services check existence before they link a user, and
    the database refuses to delete a user something still refers to.
    Primary keys: ids stay unique and below their identity counters, because
    new rows take the counter's value and the counters never go back. */
module Integrity {
  import opened Wrappers
  import opened Database
  import opened Results
  import UserService
  import FollowService
  import MessageService
  import UserRepository
  import FollowRepository
  import MessageRepository

  lemma CreateUserKeepsReferential(s: Store, fault: Option<Fault>, username: string)
    requires Referential(s)
    ensures Referential(UserService.CreateUser(s, fault, username).store)
  {
    var o := UserService.CreateUser(s, fault, username);
    if o.result.success {
      forall x | UserExists(s, x) ensures UserExists(o.store, x) {
        var u :| u in s.users && u.id == x;
        assert u in o.store.users;
      }
    }
  }

  lemma EditUserKeepsReferential(s: Store, fault: Option<Fault>, username: string, userId: int)
    requires Referential(s)
    ensures Referential(UserService.EditUser(s, fault, username, userId).store)
  {
    var o := UserService.EditUser(s, fault, username, userId);
    if o.result.success {
      forall x | UserExists(s, x) ensures UserExists(o.store, x) {
        var u :| u in s.users && u.id == x;
        var i :| 0 <= i < |s.users| && s.users[i] == u;
        assert o.store.users[i] in o.store.users;
      }
    }
  }

  /** Only an unreferenced user is deleted, so no edge or message loses its user. */
  lemma DeleteUserKeepsReferential(s: Store, fault: Option<Fault>, userId: int)
    requires Referential(s)
    ensures Referential(UserService.DeleteUser(s, fault, userId).store)
  {
    var o := UserService.DeleteUser(s, fault, userId);
    if o.result.success {
      forall x | UserExists(s, x) && x != userId ensures UserExists(o.store, x) {
        var u :| u in s.users && u.id == x;
        assert u in o.store.users;
      }
      forall e | e in o.store.follows ensures UserExists(o.store, e.followerId) && UserExists(o.store, e.followedId) {
        assert e.followerId != userId && e.followedId != userId;
      }
      forall m | m in o.store.messages ensures UserExists(o.store, m.userId) {
        assert m.userId != userId;
      }
    }
  }

  lemma FollowUserKeepsReferential(s: Store, fault: Option<Fault>, followerId: int, followeeId: int)
    requires Referential(s)
    ensures Referential(FollowService.FollowUser(s, fault, followerId, followeeId).store)
  {
  }

  lemma UnFollowUserKeepsReferential(s: Store, fault: Option<Fault>, followerId: int, followeeId: int)
    requires Referential(s)
    ensures Referential(FollowService.UnFollowUser(s, fault, followerId, followeeId).store)
  {
  }

  lemma CreateMessageKeepsReferential(s: Store, fault: Option<Fault>, userId: int, content: string, now: int)
    requires Referential(s)
    ensures Referential(MessageService.CreateMessage(s, fault, userId, content, now).store)
  {
  }

  lemma UpdateMessageKeepsReferential(s: Store, fault: Option<Fault>, content: string, messageId: int)
    requires Referential(s)
    ensures Referential(MessageService.UpdateMessage(s, fault, content, messageId).store)
  {
    var o := MessageService.UpdateMessage(s, fault, content, messageId);
    if o.result.success {
      forall m | m in o.store.messages ensures UserExists(o.store, m.userId) {
        var i :| 0 <= i < |o.store.messages| && o.store.messages[i] == m;
        assert s.messages[i] in s.messages;
      }
    }
  }

  lemma DeleteMessageKeepsReferential(s: Store, fault: Option<Fault>, messageId: int)
    requires Referential(s)
    ensures Referential(MessageService.DeleteMessage(s, fault, messageId).store)
  {
  }

  lemma CreateUserKeepsValid(s: Store, fault: Option<Fault>, username: string)
    requires Valid(s)
    ensures Valid(UserService.CreateUser(s, fault, username).store)
  {
    var o := UserService.CreateUser(s, fault, username);
    if o.result.success {
      var us := o.store.users;
      forall i, j | 0 <= i < j < |us| ensures us[i].id != us[j].id {
        assert us[i] == s.users[i];
        if j < |s.users| {
          assert us[j] == s.users[j];
        }
      }
    }
  }

  lemma EditUserKeepsValid(s: Store, fault: Option<Fault>, username: string, userId: int)
    requires Valid(s)
    ensures Valid(UserService.EditUser(s, fault, username, userId).store)
  {
    var o := UserService.EditUser(s, fault, username, userId);
    if o.result.success {
      forall i, j | 0 <= i < j < |o.store.users| ensures o.store.users[i].id != o.store.users[j].id {
        assert s.users[i].id != s.users[j].id;
      }
      forall i | 0 <= i < |o.store.users| ensures o.store.users[i].id < o.store.nextUserId {
        assert s.users[i].id < s.nextUserId;
      }
    }
  }

  lemma DeleteUserKeepsValid(s: Store, fault: Option<Fault>, userId: int)
    requires Valid(s)
    ensures Valid(UserService.DeleteUser(s, fault, userId).store)
  {
    var o := UserService.DeleteUser(s, fault, userId);
    if o.result.success {
      UserRepository.WithoutUserKeepsKeys(s.users, userId);
      forall i | 0 <= i < |o.store.users| ensures o.store.users[i].id < o.store.nextUserId {
        assert o.store.users[i] in s.users;
        var k :| 0 <= k < |s.users| && s.users[k] == o.store.users[i];
      }
    }
  }

  lemma FollowUserKeepsValid(s: Store, fault: Option<Fault>, followerId: int, followeeId: int)
    requires Valid(s)
    ensures Valid(FollowService.FollowUser(s, fault, followerId, followeeId).store)
  {
    var o := FollowService.FollowUser(s, fault, followerId, followeeId);
    if o.result.success {
      var fs := o.store.follows;
      forall i, j | 0 <= i < j < |fs| ensures fs[i].id != fs[j].id {
        assert fs[i] == s.follows[i];
        if j < |s.follows| {
          assert fs[j] == s.follows[j];
        }
      }
    }
  }

  lemma UnFollowUserKeepsValid(s: Store, fault: Option<Fault>, followerId: int, followeeId: int)
    requires Valid(s)
    ensures Valid(FollowService.UnFollowUser(s, fault, followerId, followeeId).store)
  {
    var o := FollowService.UnFollowUser(s, fault, followerId, followeeId);
    if o.result.success {
      FollowRepository.WithoutEdgeKeepsKeys(s.follows, FollowService.EdgeToRemove(s, followerId, followeeId).id);
      forall i | 0 <= i < |o.store.follows| ensures o.store.follows[i].id < o.store.nextFollowId {
        assert o.store.follows[i] in s.follows;
        var k :| 0 <= k < |s.follows| && s.follows[k] == o.store.follows[i];
      }
    }
  }

  lemma CreateMessageKeepsValid(s: Store, fault: Option<Fault>, userId: int, content: string, now: int)
    requires Valid(s)
    ensures Valid(MessageService.CreateMessage(s, fault, userId, content, now).store)
  {
    var o := MessageService.CreateMessage(s, fault, userId, content, now);
    if o.result.success {
      var ms := o.store.messages;
      forall i, j | 0 <= i < j < |ms| ensures ms[i].id != ms[j].id {
        assert ms[i] == s.messages[i];
        if j < |s.messages| {
          assert ms[j] == s.messages[j];
        }
      }
    }
  }

  lemma UpdateMessageKeepsValid(s: Store, fault: Option<Fault>, content: string, messageId: int)
    requires Valid(s)
    ensures Valid(MessageService.UpdateMessage(s, fault, content, messageId).store)
  {
    var o := MessageService.UpdateMessage(s, fault, content, messageId);
    if o.result.success {
      forall i, j | 0 <= i < j < |o.store.messages| ensures o.store.messages[i].id != o.store.messages[j].id {
        assert s.messages[i].id != s.messages[j].id;
      }
      forall i | 0 <= i < |o.store.messages| ensures o.store.messages[i].id < o.store.nextMessageId {
        assert s.messages[i].id < s.nextMessageId;
      }
    }
  }

  lemma DeleteMessageKeepsValid(s: Store, fault: Option<Fault>, messageId: int)
    requires Valid(s)
    ensures Valid(MessageService.DeleteMessage(s, fault, messageId).store)
  {
    var o := MessageService.DeleteMessage(s, fault, messageId);
    if o.result.success {
      MessageRepository.WithoutMessageKeepsKeys(s.messages, messageId);
      forall i | 0 <= i < |o.store.messages| ensures o.store.messages[i].id < o.store.nextMessageId {
        assert o.store.messages[i] in s.messages;
        var k :| 0 <= k < |s.messages| && s.messages[k] == o.store.messages[i];
      }
    }
  }
}
