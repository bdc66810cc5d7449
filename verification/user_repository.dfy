/** The Users table: lookups by id and by name, and the three writes. */
module UserRepository {
  import opened Wrappers
  import opened Database
  import opened Results

  /** The first user that `matches` accepts, in stored order; the lookups
      below differ only in the row predicate. */
  function FindFirst(users: seq<User>, matches: User -> bool): (r: Option<User>)
    ensures r.Some? <==> exists u :: u in users && matches(u)
    ensures r.Some? ==> r.value in users && matches(r.value)
  {
    if |users| == 0 then None
    else if matches(users[0]) then Some(users[0])
    else FindFirst(users[1..], matches)
  }

  /** The first user with id `id`, as a primary-key lookup finds it. */
  function FindById(users: seq<User>, id: int): (r: Option<User>)
    ensures r.Some? <==> exists u :: u in users && u.id == id
    ensures r.Some? ==> r.value in users && r.value.id == id
  {
    FindFirst(users, (u: User) => u.id == id)
  }

  /** The first user whose name is exactly `username`. */
  function FindByName(users: seq<User>, username: string): (r: Option<User>)
    ensures r.Some? <==> exists u :: u in users && u.username == username
    ensures r.Some? ==> r.value in users && r.value.username == username
  {
    FindFirst(users, (u: User) => u.username == username)
  }

  /** The users whose id is not `id`, in their stored order. */
  function WithoutUser(users: seq<User>, id: int): (r: seq<User>)
    ensures forall u :: u in r <==> u in users && u.id != id
    ensures |r| <= |users|
  {
    if |users| == 0 then []
    else if users[0].id == id then WithoutUser(users[1..], id)
    else [users[0]] + WithoutUser(users[1..], id)
  }

  function GetUserById(s: Store, fault: Option<Fault>, call: nat, id: int): (r: Call<Option<User>>)
    ensures r.Thrown? <==> Fails(fault, call)
    ensures r.Thrown? ==> r.message == fault.value.message
    ensures r.Returned? ==> (r.value.Some? <==> UserExists(s, id))
    ensures r.Returned? && r.value.Some? ==> r.value.value in s.users && r.value.value.id == id
  {
    if Fails(fault, call) then Thrown(fault.value.message) else Returned(FindById(s.users, id))
  }

  function GetUserByName(s: Store, fault: Option<Fault>, call: nat, username: string): (r: Call<Option<User>>)
    ensures r.Thrown? <==> Fails(fault, call)
    ensures r.Thrown? ==> r.message == fault.value.message
    ensures r.Returned? ==> (r.value.Some? <==> NameTaken(s, username))
    ensures r.Returned? && r.value.Some? ==> r.value.value in s.users && r.value.value.username == username
  {
    if Fails(fault, call) then Thrown(fault.value.message) else Returned(FindByName(s.users, username))
  }

  /** Every row of the table, in stored order. */
  function GetUsers(s: Store, fault: Option<Fault>, call: nat): (r: Call<seq<User>>)
    ensures r.Thrown? <==> Fails(fault, call)
    ensures r.Thrown? ==> r.message == fault.value.message
    ensures r.Returned? ==> r.value == s.users
  {
    if Fails(fault, call) then Thrown(fault.value.message) else Returned(s.users)
  }

  /** Inserts a user under the next identity value. A failed save is not
      caught here: it throws. */
  function CreateUser(s: Store, fault: Option<Fault>, call: nat, username: string): (r: Call<Created>)
    ensures r.Thrown? <==> Fails(fault, call)
    ensures r.Thrown? ==> r.message == fault.value.message
    ensures r.Returned? ==> r.value.id == s.nextUserId && s.nextUserId < r.value.store.nextUserId
    ensures r.Returned? ==> r.value.store.users == s.users + [User(r.value.id, username)]
    ensures r.Returned? ==> r.value.store.follows == s.follows && r.value.store.messages == s.messages
  {
    if Fails(fault, call) then Thrown(fault.value.message)
    else
      var id := s.nextUserId;
      Returned(Created(id, s.(users := s.users + [User(id, username)], nextUserId := id + 1)))
  }

  /** Sets the username of `existing`'s row; a failed save is caught and reported. */
  function EditUser(s: Store, fault: Option<Fault>, call: nat, username: string, existing: User): (w: Written)
    ensures w.result.success <==> !Fails(fault, call)
    ensures !w.result.success ==> w.result.errorMessage == Some(fault.value.message) && w.store == s
    ensures w.store.follows == s.follows && w.store.messages == s.messages
    ensures |w.store.users| == |s.users|
    ensures forall i :: 0 <= i < |s.users| ==>
      && w.store.users[i].id == s.users[i].id
      && (s.users[i].id != existing.id ==> w.store.users[i] == s.users[i])
      && (s.users[i].id == existing.id && w.result.success ==> w.store.users[i].username == username)
  {
    if Fails(fault, call) then Written(OperationResult(false, Some(fault.value.message)), s)
    else
      var users := seq(|s.users|, i requires 0 <= i < |s.users| =>
        if s.users[i].id == existing.id then s.users[i].(username := username) else s.users[i]);
      Written(OperationResult(true, None), s.(users := users))
  }

  /** Removes `user`'s row; a failed save is caught and reported. The save
      fails when no row has that id, and when an edge or a message still
      refers to the user: the foreign keys are required and not cascading. */
  function DeleteUser(s: Store, fault: Option<Fault>, call: nat, user: User): (w: Written)
    ensures w.result.success <==> !Fails(fault, call) && UserExists(s, user.id) && !Referenced(s, user.id)
    ensures Fails(fault, call) ==> w.result.errorMessage == Some(fault.value.message)
    ensures !Fails(fault, call) && !UserExists(s, user.id) ==> w.result.errorMessage == Some(NoRowAffected)
    ensures !Fails(fault, call) && UserExists(s, user.id) && Referenced(s, user.id) ==>
      w.result.errorMessage == Some(SaveRejected)
    ensures !w.result.success ==> w.store == s
    ensures w.store.follows == s.follows && w.store.messages == s.messages
    ensures w.result.success ==> forall u :: u in w.store.users <==> u in s.users && u.id != user.id
    ensures w.result.success ==> w.store == s.(users := WithoutUser(s.users, user.id))
  {
    if Fails(fault, call) then Written(OperationResult(false, Some(fault.value.message)), s)
    else if FindById(s.users, user.id).None? then Written(OperationResult(false, Some(NoRowAffected)), s)
    else if Referenced(s, user.id) then Written(OperationResult(false, Some(SaveRejected)), s)
    else Written(OperationResult(true, None), s.(users := WithoutUser(s.users, user.id)))
  }

  /** Removing users keeps the user ids pairwise distinct. */
  lemma {:induction false} WithoutUserKeepsKeys(users: seq<User>, id: int)
    requires UniqueUserIds(users)
    ensures UniqueUserIds(WithoutUser(users, id))
  {
    if |users| > 0 {
      var tail := users[1..];
      assert UniqueUserIds(tail) by {
        forall i, j | 0 <= i < j < |tail| ensures tail[i].id != tail[j].id {
          assert tail[i] == users[i + 1] && tail[j] == users[j + 1];
        }
      }
      WithoutUserKeepsKeys(tail, id);
      if users[0].id != id {
        var rest := WithoutUser(tail, id);
        forall v | v in rest ensures v.id != users[0].id {
          var k :| 0 <= k < |tail| && tail[k] == v;
          assert users[k + 1] == v;
        }
        ConsUserKeys(users[0], rest);
      }
    }
  }

  /** A user whose id no other user has may go in front. */
  lemma ConsUserKeys(x: User, rest: seq<User>)
    requires UniqueUserIds(rest)
    requires forall v :: v in rest ==> v.id != x.id
    ensures UniqueUserIds([x] + rest)
  {
    var r := [x] + rest;
    forall i, j | 0 <= i < j < |r| ensures r[i].id != r[j].id {
      assert r[j] == rest[j - 1];
      if i > 0 {
        assert r[i] == rest[i - 1];
      }
    }
  }

  /** A created user is found again under the returned id, and that id was
      not in use before. */
  lemma CreateThenGetById(s: Store, username: string)
    requires Valid(s)
    ensures var r := CreateUser(s, None, 0, username);
      && !UserExists(s, r.value.id)
      && GetUserById(r.value.store, None, 0, r.value.id) == Returned(Some(User(r.value.id, username)))
  {
    var r := CreateUser(s, None, 0, username);
    IdsBelowNext(s);
    FindByIdAppend(s.users, User(r.value.id, username));
  }

  /** Creating a user keeps the primary keys unique. */
  lemma CreateKeepsValid(s: Store, fault: Option<Fault>, call: nat, username: string)
    requires Valid(s)
    ensures var r := CreateUser(s, fault, call, username); r.Returned? ==> Valid(r.value.store)
  {
  }

  lemma IdsBelowNext(s: Store)
    requires Valid(s)
    ensures forall u :: u in s.users ==> u.id < s.nextUserId
  {
    forall u | u in s.users ensures u.id < s.nextUserId {
      var i :| 0 <= i < |s.users| && s.users[i] == u;
    }
  }

  lemma {:induction false} FindByIdAppend(users: seq<User>, u: User)
    requires forall v :: v in users ==> v.id != u.id
    ensures FindById(users + [u], u.id) == Some(u)
  {
    if |users| == 0 {
    } else {
      assert (users + [u])[1..] == users[1..] + [u];
      FindByIdAppend(users[1..], u);
    }
  }

  /** After an edit, the edited id is found with the new name. */
  lemma EditThenGetById(s: Store, username: string, existing: User)
    requires Valid(s) && existing in s.users
    ensures var w := EditUser(s, None, 0, username, existing);
      GetUserById(w.store, None, 0, existing.id) == Returned(Some(User(existing.id, username)))
  {
    var w := EditUser(s, None, 0, username, existing);
    var k :| 0 <= k < |s.users| && s.users[k] == existing;
    FindByIdUnique(w.store.users, k);
  }

  /** With unique ids, looking up the id of row `k` finds row `k`. */
  lemma {:induction false} FindByIdUnique(users: seq<User>, k: int)
    requires 0 <= k < |users|
    requires forall i, j :: 0 <= i < j < |users| ==> users[i].id != users[j].id
    ensures FindById(users, users[k].id) == Some(users[k])
  {
    if k > 0 {
      assert users[0].id != users[k].id;
      assert users[1..][k - 1] == users[k];
      FindByIdUnique(users[1..], k - 1);
    }
  }

  /** A user nothing refers to is deleted, and is no longer found by id. */
  lemma DeleteThenGetById(s: Store, user: User)
    requires UserExists(s, user.id) && !Referenced(s, user.id)
    ensures var w := DeleteUser(s, None, 0, user);
      w.result.success && GetUserById(w.store, None, 0, user.id) == Returned(None)
  {
  }

  /** Deleting a user that is not stored is reported as a failure. */
  lemma DeleteMissingUserFails(s: Store, user: User)
    requires !UserExists(s, user.id)
    ensures DeleteUser(s, None, 0, user) == Written(OperationResult(false, Some(NoRowAffected)), s)
  {
  }
}
