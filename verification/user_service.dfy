/** The user directory rules: usernames are checked on create, existence
    and a changed name on edit, existence on delete. Repository calls are
    numbered in the order the service makes them. */
module UserService {
  import opened Wrappers
  import opened Database
  import opened Results
  import UserRepository

  const UserAlreadyExists := "User already exists"
  const UserMissing := "User doesn't exist"
  const SameUsername := "User already has this username"

  /** The current name of the user the id lookup finds. */
  function CurrentName(s: Store, userId: int): string
    requires UserExists(s, userId)
  {
    UserRepository.FindById(s.users, userId).value.username
  }

  /** No two users share a username. */
  predicate UniqueNames(s: Store) {
    forall i, j :: 0 <= i < j < |s.users| ==> s.users[i].username != s.users[j].username
  }

  /** Every user as (id, username), in the repository's order. Nothing is
      caught: an exception reaches the caller. */
  function GetUsers(s: Store, fault: Option<Fault>): (r: Call<seq<UserModel>>)
    ensures r.Thrown? <==> Fails(fault, 0)
    ensures r.Returned? ==> |r.value| == |s.users|
    ensures r.Returned? ==> forall i :: 0 <= i < |s.users| ==>
      r.value[i].id == s.users[i].id && r.value[i].username == s.users[i].username
  {
    var users :- UserRepository.GetUsers(s, fault, 0);
    Returned(ToUserModels(users))
  }

  /** The user with id `userId` as (id, username), or None. Nothing is caught. */
  function GetUser(s: Store, fault: Option<Fault>, userId: int): (r: Call<Option<UserModel>>)
    ensures r.Thrown? <==> Fails(fault, 0)
    ensures r.Returned? ==> (r.value.None? <==> !UserExists(s, userId))
    ensures r.Returned? && r.value.Some? ==>
      r.value.value.id == userId && User(userId, r.value.value.username) in s.users
  {
    var user :- UserRepository.GetUserById(s, fault, 0, userId);
    Returned(if user.None? then None else Some(ToUserModel(user.value)))
  }

  /** The user named `username` as (id, username), or None. Nothing is caught. */
  function GetUserByName(s: Store, fault: Option<Fault>, username: string): (r: Call<Option<UserModel>>)
    ensures r.Thrown? <==> Fails(fault, 0)
    ensures r.Returned? ==> (r.value.None? <==> !NameTaken(s, username))
    ensures r.Returned? && r.value.Some? ==>
      r.value.value.username == username && User(r.value.value.id, username) in s.users
  {
    var user :- UserRepository.GetUserByName(s, fault, 0, username);
    Returned(if user.None? then None else Some(ToUserModel(user.value)))
  }

  /** Creates a user unless the name is taken (call 0 looks the name up,
      call 1 inserts). The new id is returned with no status code. */
  function CreateUser(s: Store, fault: Option<Fault>, username: string): (o: Outcome<int>)
    ensures Clear(fault, 1) && NameTaken(s, username) ==> o == Outcome(Rejected(UserAlreadyExists, 400), s)
    ensures Clear(fault, 2) && !NameTaken(s, username) ==>
      o.result == ServiceResult(true, None, None, Some(s.nextUserId))
    ensures Fails(fault, 0) ==> o == Outcome(Internal(fault.value.message), s)
    ensures Fails(fault, 1) && !NameTaken(s, username) ==> o == Outcome(Internal(fault.value.message), s)
    ensures o.result.success ==> !NameTaken(s, username) && o.result.data.Some?
    ensures o.result.success ==>
      && o.store.users == s.users + [User(o.result.data.value, username)]
      && o.store.follows == s.follows && o.store.messages == s.messages
    ensures o.result.success ==> o.result.data.value == s.nextUserId < o.store.nextUserId
    ensures CountersKept(s, o.store)
    ensures !o.result.success ==> o.store == s
  {
    Catch(
      var existing :- UserRepository.GetUserByName(s, fault, 0, username);
      if existing.Some? then Returned(Outcome(Rejected(UserAlreadyExists, 400), s))
      else
        var created :- UserRepository.CreateUser(s, fault, 1, username);
        Returned(Outcome(ServiceResult(true, None, None, Some(created.id)), created.store)),
      s)
  }

  /** Renames a user (call 0 looks the id up, call 1 writes). A missing user
      is 404, an unchanged name 400, a failed save 500 with the repository's
      message. */
  function EditUser(s: Store, fault: Option<Fault>, username: string, userId: int): (o: Outcome<()>)
    ensures Clear(fault, 1) && !UserExists(s, userId) ==> o == Outcome(Rejected(UserMissing, 404), s)
    ensures Clear(fault, 1) && UserExists(s, userId) && CurrentName(s, userId) == username ==>
      o == Outcome(Rejected(SameUsername, 400), s)
    ensures Clear(fault, 2) && UserExists(s, userId) && CurrentName(s, userId) != username ==>
      o.result == ServiceResult(true, None, None, None)
    ensures Fails(fault, 0) ==> o == Outcome(Internal(fault.value.message), s)
    ensures Fails(fault, 1) && UserExists(s, userId) && CurrentName(s, userId) != username ==>
      o == Outcome(Rejected(fault.value.message, 500), s)
    // success renames exactly the users with that id and nothing else
    ensures o.result.success ==> UserExists(s, userId) && CurrentName(s, userId) != username
    ensures o.result.success ==>
      && |o.store.users| == |s.users|
      && o.store.follows == s.follows && o.store.messages == s.messages
      && forall i :: 0 <= i < |s.users| ==>
           && o.store.users[i].id == s.users[i].id
           && o.store.users[i].username == (if s.users[i].id == userId then username else s.users[i].username)
    ensures CountersKept(s, o.store)
    ensures !o.result.success ==> o.store == s
  {
    Catch(
      var existing :- UserRepository.GetUserById(s, fault, 0, userId);
      if existing.None? then Returned(Outcome(Rejected(UserMissing, 404), s))
      else if existing.value.username == username then Returned(Outcome(Rejected(SameUsername, 400), s))
      else
        var w := UserRepository.EditUser(s, fault, 1, username, existing.value);
        if !w.result.success then
          Returned(Outcome(ServiceResult(false, w.result.errorMessage, Some(500), None), w.store))
        else Returned(Outcome(ServiceResult(true, None, None, None), w.store)),
      s)
  }

  /** Deletes a user (call 0 looks the id up, call 1 deletes). A user with
      edges or messages cannot be deleted: the save fails and the answer is
      500. Unlike the other operations, its `catch` sets no status code. */
  function DeleteUser(s: Store, fault: Option<Fault>, userId: int): (o: Outcome<()>)
    ensures Clear(fault, 1) && !UserExists(s, userId) ==> o == Outcome(Rejected(UserMissing, 404), s)
    ensures Clear(fault, 2) && UserExists(s, userId) && !Referenced(s, userId) ==>
      o.result == ServiceResult(true, None, None, None)
    ensures Clear(fault, 2) && UserExists(s, userId) && Referenced(s, userId) ==>
      o == Outcome(Rejected(SaveRejected, 500), s)
    ensures Fails(fault, 0) ==> o == Outcome(ServiceResult(false, Some(fault.value.message), None, None), s)
    ensures Fails(fault, 1) && UserExists(s, userId) ==> o == Outcome(Rejected(fault.value.message, 500), s)
    ensures o.result.success ==> UserExists(s, userId) && !Referenced(s, userId)
    ensures o.result.success ==>
      && (forall u :: u in o.store.users <==> u in s.users && u.id != userId)
      && o.store.follows == s.follows && o.store.messages == s.messages
    ensures o.result.success ==> o.store.users == UserRepository.WithoutUser(s.users, userId)
    ensures CountersKept(s, o.store)
    ensures !o.result.success ==> o.store == s
  {
    var body :=
      var user :- UserRepository.GetUserById(s, fault, 0, userId);
      if user.None? then Returned(Outcome(Rejected(UserMissing, 404), s))
      else
        var w := UserRepository.DeleteUser(s, fault, 1, user.value);
        if !w.result.success then
          Returned(Outcome(ServiceResult(false, w.result.errorMessage, Some(500), None), w.store))
        else Returned(Outcome(ServiceResult(true, None, None, None), w.store));
    match body
    case Returned(o) => o
    case Thrown(m) => Outcome(ServiceResult(false, Some(m), None, None), s)
  }

  /** A created user is found by its new id and by its name. */
  lemma CreateThenGetUser(s: Store, username: string)
    requires Valid(s) && !NameTaken(s, username)
    ensures var o := CreateUser(s, None, username);
      && o.result.success
      && GetUser(o.store, None, o.result.data.value) == Returned(Some(UserModel(o.result.data.value, username)))
      && GetUserByName(o.store, None, username) == Returned(Some(UserModel(o.result.data.value, username)))
  {
    var o := CreateUser(s, None, username);
    UserRepository.CreateThenGetById(s, username);
    FindByNameAppend(s.users, User(s.nextUserId, username));
  }

  lemma {:induction false} FindByNameAppend(users: seq<User>, u: User)
    requires forall v :: v in users ==> v.username != u.username
    ensures UserRepository.FindByName(users + [u], u.username) == Some(u)
  {
    if |users| > 0 {
      assert (users + [u])[1..] == users[1..] + [u];
      FindByNameAppend(users[1..], u);
    }
  }

  /** Creating a user never introduces a second user of the same name. */
  lemma CreateUserKeepsNamesUnique(s: Store, fault: Option<Fault>, username: string)
    requires UniqueNames(s)
    ensures UniqueNames(CreateUser(s, fault, username).store)
  {
    var o := CreateUser(s, fault, username);
    if o.result.success {
      var us := o.store.users;
      forall i, j | 0 <= i < j < |us| ensures us[i].username != us[j].username {
        if j == |s.users| {
          assert us[i] in s.users;
        }
      }
    }
  }

  /** Editing does not look at the other users' names: renaming a user to a
      name another user has succeeds and leaves two users with that name. */
  lemma EditUserCanDuplicateNames()
    ensures var s := Store([User(1, "Alfonso"), User(2, "Ivan")], [], [], 3, 1, 1);
      var o := EditUser(s, None, "Alfonso", 2);
      UniqueNames(s) && o.result.success && !UniqueNames(o.store)
  {
    var s := Store([User(1, "Alfonso"), User(2, "Ivan")], [], [], 3, 1, 1);
    assert User(2, "Ivan") in s.users;
    assert "Ivan" != "Alfonso";
    var o := EditUser(s, None, "Alfonso", 2);
    assert o.store.users[0].username == o.store.users[1].username;
  }

  /** A user with no edges and no messages is deleted, and is gone after. */
  lemma DeleteThenGetUser(s: Store, userId: int)
    requires UserExists(s, userId) && !Referenced(s, userId)
    ensures var o := DeleteUser(s, None, userId);
      o.result.success && GetUser(o.store, None, userId) == Returned(None)
  {
  }
}
