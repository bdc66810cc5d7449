/** The follow rules: both users exist, then not the same user, then the edge
    is absent (follow) or present (unfollow). Repository calls are numbered in
    the order the service makes them: 0 and 1 look up the two users, 2 looks
    up the edge, 3 writes. */
module FollowService {
  import opened Wrappers
  import opened Database
  import opened Results
  import opened Text
  import UserRepository
  import FollowRepository
  import UserService

  const CantFollowItself := "User can't follow itself"
  const CantUnfollowItself := "User can't unfollow itself"
  const AlreadyFollowing := "Already following user"
  const NotFollowing := "Not following user"

  /** The existence report. FollowUser writes a space before the second
      boolean; UnFollowUser and IsFollowing do not (`spaced` is false). */
  function ExistenceMessage(a: int, aExists: bool, b: int, bExists: bool, spaced: bool): string {
    ReportHead(a) + (BoolToString(aExists) + (ReportMiddle(b, spaced) + BoolToString(bExists)))
  }

  function ReportHead(a: int): string {
    "User with id " + IntToString(a) + " exists: "
  }

  function ReportMiddle(b: int, spaced: bool): string {
    ", User with id " + IntToString(b) + (if spaced then " exists: " else " exists:")
  }

  /** Both users exist and are distinct. */
  predicate DistinctUsers(s: Store, a: int, b: int) {
    UserExists(s, a) && UserExists(s, b) && a != b
  }

  /** The checks the three pair operations share (calls 0 and 1): the 400
      message when a user is missing or the two are the same, else None. */
  function PairCheck(s: Store, fault: Option<Fault>, a: int, b: int, spaced: bool, selfMessage: string)
    : (r: Call<Option<string>>)
    ensures r.Thrown? <==> Fails(fault, 0) || Fails(fault, 1)
    ensures r.Thrown? ==> r.message == fault.value.message
    ensures r.Returned? && !(UserExists(s, a) && UserExists(s, b)) ==>
      r.value == Some(ExistenceMessage(a, UserExists(s, a), b, UserExists(s, b), spaced))
    ensures r.Returned? && UserExists(s, a) && UserExists(s, b) ==> r.value == if a == b then Some(selfMessage) else None
  {
    var follower :- UserRepository.GetUserById(s, fault, 0, a);
    var followee :- UserRepository.GetUserById(s, fault, 1, b);
    if follower.None? || followee.None? then
      Returned(Some(ExistenceMessage(a, follower.Some?, b, followee.Some?, spaced)))
    else if a == b then Returned(Some(selfMessage))
    else Returned(None)
  }

  /** The body of FollowUser's `try`. With `checkWrite` false the repository's
      report of the insert is ignored, as the code does; with it true a failed
      insert becomes status 500. */
  function FollowUserTry(s: Store, fault: Option<Fault>, followerId: int, followeeId: int, checkWrite: bool)
    : Call<Outcome<()>>
  {
    var rejection :- PairCheck(s, fault, followerId, followeeId, true, CantFollowItself);
    if rejection.Some? then Returned(Outcome(Rejected(rejection.value, 400), s))
    else
      var follow :- FollowRepository.IsFollowing(s, fault, 2, followerId, followeeId);
      if follow.Some? then Returned(Outcome(Rejected(AlreadyFollowing, 400), s))
      else
        var w := FollowRepository.FollowUser(s, fault, 3, followerId, followeeId);
        if checkWrite && !w.result.success then
          Returned(Outcome(ServiceResult(false, w.result.errorMessage, Some(500), None), w.store))
        else Returned(Outcome(ServiceResult(true, None, Some(200), None), w.store))
  }

  /** FollowUser as the code is written: the insert's report is dropped, so a
      failed save still answers 200. */
  function FollowUserAsWritten(s: Store, fault: Option<Fault>, followerId: int, followeeId: int): (o: Outcome<()>)
    ensures !o.result.success ==> o.store == s
    ensures o.result.success ==> o.result == ServiceResult(true, None, Some(200), None)
    ensures o.result.success ==> DistinctUsers(s, followerId, followeeId) && !HasEdge(s.follows, followerId, followeeId)
    // the store is the corrected operation's; only the answer to a failed insert differs
    ensures o.store == FollowUser(s, fault, followerId, followeeId).store
    ensures !Fails(fault, 3) ==> o == FollowUser(s, fault, followerId, followeeId)
    ensures o.result.success ==>
      || o.store == s
      || o.store == s.(follows := s.follows + [Follow(s.nextFollowId, followerId, followeeId)],
                       nextFollowId := o.store.nextFollowId)
  {
    Catch(FollowUserTry(s, fault, followerId, followeeId, false), s)
  }

  /** FollowUser with the insert's failure reported as status 500. */
  function FollowUser(s: Store, fault: Option<Fault>, followerId: int, followeeId: int): (o: Outcome<()>)
    // the checks, in order, and what each failed check answers
    ensures Clear(fault, 2) && !(UserExists(s, followerId) && UserExists(s, followeeId)) ==>
      o == Outcome(Rejected(ExistenceMessage(followerId, UserExists(s, followerId),
                                             followeeId, UserExists(s, followeeId), true), 400), s)
    ensures Clear(fault, 2) && UserExists(s, followerId) && followerId == followeeId ==>
      o == Outcome(Rejected(CantFollowItself, 400), s)
    ensures Clear(fault, 3) && DistinctUsers(s, followerId, followeeId) && HasEdge(s.follows, followerId, followeeId) ==>
      o == Outcome(Rejected(AlreadyFollowing, 400), s)
    ensures Clear(fault, 4) && DistinctUsers(s, followerId, followeeId) && !HasEdge(s.follows, followerId, followeeId) ==>
      o.result == ServiceResult(true, None, Some(200), None)
    // an exception on any call the operation reaches is status 500 with its message
    ensures Fails(fault, 0) || Fails(fault, 1) ==> o == Outcome(Internal(fault.value.message), s)
    ensures Fails(fault, 2) && DistinctUsers(s, followerId, followeeId) ==> o == Outcome(Internal(fault.value.message), s)
    ensures Fails(fault, 3) && DistinctUsers(s, followerId, followeeId) && !HasEdge(s.follows, followerId, followeeId) ==>
      o == Outcome(Internal(fault.value.message), s)
    // success is exactly the insertion of the one new edge; anything else leaves the store alone
    ensures o.result.success ==> DistinctUsers(s, followerId, followeeId) && !HasEdge(s.follows, followerId, followeeId)
    ensures o.result.success ==>
      o.store == s.(follows := s.follows + [Follow(s.nextFollowId, followerId, followeeId)],
                    nextFollowId := o.store.nextFollowId)
    ensures o.result.success ==> s.nextFollowId < o.store.nextFollowId
    ensures CountersKept(s, o.store)
    ensures !o.result.success ==> o.store == s
  {
    Catch(FollowUserTry(s, fault, followerId, followeeId, true), s)
  }

  /** The body of UnFollowUser's `try`; `checkWrite` as for FollowUserTry. */
  function UnFollowUserTry(s: Store, fault: Option<Fault>, followerId: int, followeeId: int, checkWrite: bool)
    : Call<Outcome<()>>
  {
    var rejection :- PairCheck(s, fault, followerId, followeeId, false, CantUnfollowItself);
    if rejection.Some? then Returned(Outcome(Rejected(rejection.value, 400), s))
    else
      var follow :- FollowRepository.IsFollowing(s, fault, 2, followerId, followeeId);
      if follow.None? then Returned(Outcome(Rejected(NotFollowing, 400), s))
      else
        var w := FollowRepository.UnFollowUser(s, fault, 3, follow.value);
        if checkWrite && !w.result.success then
          Returned(Outcome(ServiceResult(false, w.result.errorMessage, Some(500), None), w.store))
        else Returned(Outcome(ServiceResult(true, None, Some(200), None), w.store))
  }

  /** UnFollowUser as the code is written: the delete's report is dropped. */
  function UnFollowUserAsWritten(s: Store, fault: Option<Fault>, followerId: int, followeeId: int): (o: Outcome<()>)
    ensures !o.result.success ==> o.store == s
    ensures o.result.success ==> o.result == ServiceResult(true, None, Some(200), None)
    ensures o.result.success ==> DistinctUsers(s, followerId, followeeId) && HasEdge(s.follows, followerId, followeeId)
    // the store is the corrected operation's; only the answer to a failed delete differs
    ensures o.store == UnFollowUser(s, fault, followerId, followeeId).store
    ensures !Fails(fault, 3) ==> o == UnFollowUser(s, fault, followerId, followeeId)
    ensures o.result.success ==>
      || o.store == s
      || (&& o.store.users == s.users && o.store.messages == s.messages
          && forall e :: e in o.store.follows <==> e in s.follows && e.id != EdgeToRemove(s, followerId, followeeId).id)
  {
    Catch(UnFollowUserTry(s, fault, followerId, followeeId, false), s)
  }

  /** The edge UnFollowUser removes: the one the lookup finds. */
  function EdgeToRemove(s: Store, followerId: int, followeeId: int): (e: Follow)
    requires HasEdge(s.follows, followerId, followeeId)
    ensures e in s.follows && e.followerId == followerId && e.followedId == followeeId
  {
    FollowRepository.FindEdge(s.follows, followerId, followeeId).value
  }

  /** UnFollowUser with the delete's failure reported as status 500. */
  function UnFollowUser(s: Store, fault: Option<Fault>, followerId: int, followeeId: int): (o: Outcome<()>)
    ensures Clear(fault, 2) && !(UserExists(s, followerId) && UserExists(s, followeeId)) ==>
      o == Outcome(Rejected(ExistenceMessage(followerId, UserExists(s, followerId),
                                             followeeId, UserExists(s, followeeId), false), 400), s)
    ensures Clear(fault, 2) && UserExists(s, followerId) && followerId == followeeId ==>
      o == Outcome(Rejected(CantUnfollowItself, 400), s)
    ensures Clear(fault, 3) && DistinctUsers(s, followerId, followeeId) && !HasEdge(s.follows, followerId, followeeId) ==>
      o == Outcome(Rejected(NotFollowing, 400), s)
    ensures Clear(fault, 4) && DistinctUsers(s, followerId, followeeId) && HasEdge(s.follows, followerId, followeeId) ==>
      o.result == ServiceResult(true, None, Some(200), None)
    ensures Fails(fault, 0) || Fails(fault, 1) ==> o == Outcome(Internal(fault.value.message), s)
    ensures Fails(fault, 2) && DistinctUsers(s, followerId, followeeId) ==> o == Outcome(Internal(fault.value.message), s)
    ensures Fails(fault, 3) && DistinctUsers(s, followerId, followeeId) && HasEdge(s.follows, followerId, followeeId) ==>
      o == Outcome(Internal(fault.value.message), s)
    // success is exactly the removal of the edge found; anything else leaves the store alone
    ensures o.result.success ==> DistinctUsers(s, followerId, followeeId) && HasEdge(s.follows, followerId, followeeId)
    ensures o.result.success ==> o.store.users == s.users && o.store.messages == s.messages
    ensures o.result.success ==> forall e :: e in o.store.follows <==>
      e in s.follows && e.id != EdgeToRemove(s, followerId, followeeId).id
    ensures o.result.success ==>
      o.store.follows == FollowRepository.WithoutEdge(s.follows, EdgeToRemove(s, followerId, followeeId).id)
    ensures CountersKept(s, o.store)
    ensures !o.result.success ==> o.store == s
  {
    Catch(UnFollowUserTry(s, fault, followerId, followeeId, true), s)
  }

  /** Whether `followerId` follows `followeeId`; an absent edge is a
      successful false. Reads only. */
  function IsFollowing(s: Store, fault: Option<Fault>, followerId: int, followeeId: int): (r: ServiceResult<bool>)
    ensures Clear(fault, 2) && !(UserExists(s, followerId) && UserExists(s, followeeId)) ==>
      r == Rejected(ExistenceMessage(followerId, UserExists(s, followerId), followeeId, UserExists(s, followeeId), false), 400)
    ensures Clear(fault, 2) && UserExists(s, followerId) && followerId == followeeId ==> r == Rejected(CantFollowItself, 400)
    ensures Clear(fault, 3) && DistinctUsers(s, followerId, followeeId) ==>
      r == ServiceResult(true, None, None, Some(HasEdge(s.follows, followerId, followeeId)))
    ensures Fails(fault, 0) || Fails(fault, 1) ==> r == Internal(fault.value.message)
    ensures Fails(fault, 2) && DistinctUsers(s, followerId, followeeId) ==> r == Internal(fault.value.message)
  {
    CatchRead(
      var rejection :- PairCheck(s, fault, followerId, followeeId, false, CantFollowItself);
      if rejection.Some? then Returned(Rejected(rejection.value, 400))
      else
        var follow :- FollowRepository.IsFollowing(s, fault, 2, followerId, followeeId);
        Returned(ServiceResult(true, None, None, Some(follow.Some?))))
  }

  /** The users following `userId`, one per incoming edge, in the repository's order. */
  function GetFollowers(s: Store, fault: Option<Fault>, userId: int): (r: ServiceResult<seq<UserModel>>)
    ensures Clear(fault, 1) && !UserExists(s, userId) ==> r == Rejected(UserService.UserMissing, 404)
    ensures Clear(fault, 2) && UserExists(s, userId) ==>
      r == ServiceResult(true, None, Some(200), Some(ToUserModels(FollowRepository.FollowersOf(s.users, s.follows, userId))))
    ensures Fails(fault, 0) ==> r == Internal(fault.value.message)
    ensures Fails(fault, 1) && UserExists(s, userId) ==> r == Internal(fault.value.message)
    ensures r.success ==> r.data.Some? && forall m :: m in r.data.value ==> HasEdge(s.follows, m.id, userId)
  {
    CatchRead(
      var user :- UserRepository.GetUserById(s, fault, 0, userId);
      if user.None? then Returned(Rejected(UserService.UserMissing, 404))
      else
        var followers :- FollowRepository.GetFollowers(s, fault, 1, userId);
        Returned(ServiceResult(true, None, Some(200), Some(ToUserModels(followers)))))
  }

  /** The users `userId` follows, one per outgoing edge, in the repository's order. */
  function GetFollowing(s: Store, fault: Option<Fault>, userId: int): (r: ServiceResult<seq<UserModel>>)
    ensures Clear(fault, 1) && !UserExists(s, userId) ==> r == Rejected(UserService.UserMissing, 404)
    ensures Clear(fault, 2) && UserExists(s, userId) ==>
      r == ServiceResult(true, None, Some(200), Some(ToUserModels(FollowRepository.FollowingOf(s.users, s.follows, userId))))
    ensures Fails(fault, 0) ==> r == Internal(fault.value.message)
    ensures Fails(fault, 1) && UserExists(s, userId) ==> r == Internal(fault.value.message)
    ensures r.success ==> r.data.Some? && forall m :: m in r.data.value ==> HasEdge(s.follows, userId, m.id)
  {
    CatchRead(
      var user :- UserRepository.GetUserById(s, fault, 0, userId);
      if user.None? then Returned(Rejected(UserService.UserMissing, 404))
      else
        var following :- FollowRepository.GetFollowing(s, fault, 1, userId);
        Returned(ServiceResult(true, None, Some(200), Some(ToUserModels(following)))))
  }

  /** The existence report names both ids and both booleans: equal reports
      come from equal ids and equal existence flags. */
  lemma ExistenceMessageReportsBoth(a: int, x: bool, b: int, y: bool, a': int, x': bool, b': int, y': bool, spaced: bool)
    requires ExistenceMessage(a, x, b, y, spaced) == ExistenceMessage(a', x', b', y', spaced)
    ensures a == a' && x == x' && b == b' && y == y'
  {
    var rest, rest' := ReportMiddle(b, spaced) + BoolToString(y), ReportMiddle(b', spaced) + BoolToString(y');
    HeadNamesFirst(a, x, rest, a', x', rest');
    MiddleNamesSecond(b, y, b', y', spaced);
  }

  /** The part up to the first boolean fixes the first id and boolean. */
  lemma HeadNamesFirst(a: int, x: bool, rest: string, a': int, x': bool, rest': string)
    requires |rest| > 0 && rest[0] == ',' && |rest'| > 0 && rest'[0] == ','
    requires ReportHead(a) + (BoolToString(x) + rest) == ReportHead(a') + (BoolToString(x') + rest')
    ensures a == a' && x == x' && rest == rest'
  {
    var afterA, afterA' := " exists: " + (BoolToString(x) + rest), " exists: " + (BoolToString(x') + rest');
    Regroup("User with id ", IntToString(a), " exists: ", BoolToString(x) + rest);
    Regroup("User with id ", IntToString(a'), " exists: ", BoolToString(x') + rest');
    StripPrefix("User with id ", IntToString(a) + afterA, IntToString(a') + afterA');
    SplitBefore(' ', IntToString(a), afterA, IntToString(a'), afterA');
    IntToStringInjective(a, a');
    StripPrefix(" exists: ", BoolToString(x) + rest, BoolToString(x') + rest');
    SplitBefore(',', BoolToString(x), rest, BoolToString(x'), rest');
    assert BoolToString(x)[0] == BoolToString(x')[0];
  }

  /** The part after the first boolean fixes the second id and boolean. */
  lemma MiddleNamesSecond(b: int, y: bool, b': int, y': bool, spaced: bool)
    requires ReportMiddle(b, spaced) + BoolToString(y) == ReportMiddle(b', spaced) + BoolToString(y')
    ensures b == b' && y == y'
  {
    var t := if spaced then " exists: " else " exists:";
    Regroup(", User with id ", IntToString(b), t, BoolToString(y));
    Regroup(", User with id ", IntToString(b'), t, BoolToString(y'));
    StripPrefix(", User with id ", IntToString(b) + (t + BoolToString(y)), IntToString(b') + (t + BoolToString(y')));
    SplitBefore(' ', IntToString(b), t + BoolToString(y), IntToString(b'), t + BoolToString(y'));
    IntToStringInjective(b, b');
    StripPrefix(t, BoolToString(y), BoolToString(y'));
    assert BoolToString(y)[0] == BoolToString(y')[0];
  }

  lemma Regroup(p: string, q: string, r: string, w: string)
    ensures p + q + r + w == p + (q + (r + w))
  {
  }

  lemma StripPrefix(p: string, w: string, w': string)
    requires p + w == p + w'
    ensures w == w'
  {
    assert w == (p + w)[|p|..];
    assert w' == (p + w')[|p|..];
  }

  /** Two ways of writing one string as a `c`-free part followed by a part
      starting with `c` are the same way. */
  lemma SplitBefore(c: char, u: string, v: string, u': string, v': string)
    requires forall k :: 0 <= k < |u| ==> u[k] != c
    requires forall k :: 0 <= k < |u'| ==> u'[k] != c
    requires |v| > 0 && v[0] == c && |v'| > 0 && v'[0] == c
    requires u + v == u' + v'
    ensures u == u' && v == v'
  {
    assert u == (u + v)[..|u|];
    assert u' == (u' + v')[..|u'|];
    assert v == (u + v)[|u|..];
    assert v' == (u' + v')[|u'|..];
  }

  /** Users 1 and 2 both missing: FollowUser's report has a space before the
      second boolean, UnFollowUser's and IsFollowing's have none. */
  lemma MissingUsersReports(s: Store)
    requires s.users == []
    ensures FollowUser(s, None, 1, 2).result.errorMessage
      == Some("User with id 1 exists: " + ("False" + (", User with id 2 exists: " + "False")))
    ensures UnFollowUser(s, None, 1, 2).result.errorMessage
      == Some("User with id 1 exists: " + ("False" + (", User with id 2 exists:" + "False")))
    ensures IsFollowing(s, None, 1, 2).errorMessage
      == Some("User with id 1 exists: " + ("False" + (", User with id 2 exists:" + "False")))
  {
    assert !UserExists(s, 1) && !UserExists(s, 2);
    ReportsForOneAndTwo();
  }

  lemma ReportsForOneAndTwo()
    ensures ReportHead(1) == "User with id 1 exists: "
    ensures ReportMiddle(2, true) == ", User with id 2 exists: "
    ensures ReportMiddle(2, false) == ", User with id 2 exists:"
  {
    assert IntToString(1) == "1" && IntToString(2) == "2";
  }

  /** After a successful follow the pair is followed, and following it again
      is rejected. */
  lemma FollowThenIsFollowing(s: Store, a: int, b: int)
    requires DistinctUsers(s, a, b) && !HasEdge(s.follows, a, b)
    ensures var o := FollowUser(s, None, a, b);
      && o.result.success
      && IsFollowing(o.store, None, a, b) == ServiceResult(true, None, None, Some(true))
      && FollowUser(o.store, None, a, b) == Outcome(Rejected(AlreadyFollowing, 400), o.store)
  {
    var o := FollowUser(s, None, a, b);
    var e := Follow(s.nextFollowId, a, b);
    assert o.store.follows[|s.follows|] == e;
    assert HasEdge(o.store.follows, a, b);
    assert forall u :: u in s.users ==> u in o.store.users;
  }

  /** A user with no edges has no followers and follows nobody: both lists
      are empty successes, not errors. */
  lemma NoEdgesEmptyLists(s: Store, userId: int)
    requires UserExists(s, userId)
    requires forall e :: e in s.follows ==> e.followerId != userId && e.followedId != userId
    ensures GetFollowers(s, None, userId) == ServiceResult(true, None, Some(200), Some([]))
    ensures GetFollowing(s, None, userId) == ServiceResult(true, None, Some(200), Some([]))
  {
    FollowRepository.NoEdgesNoNeighbours(s.users, s.follows, userId);
  }

  /** The code as written answers 200 when the insert's save fails, and the
      pair is then not followed; the corrected FollowUser answers 500. */
  lemma FollowUserAsWrittenMasksFailedSave(s: Store, a: int, b: int, message: string)
    requires DistinctUsers(s, a, b) && !HasEdge(s.follows, a, b)
    ensures var o := FollowUserAsWritten(s, Some(Fault(3, message)), a, b);
      o.result == ServiceResult(true, None, Some(200), None) && !HasEdge(o.store.follows, a, b)
    ensures FollowUser(s, Some(Fault(3, message)), a, b) == Outcome(Internal(message), s)
  {
  }

  /** The same for UnFollowUser: 200 although the edge is still there. */
  lemma UnFollowUserAsWrittenMasksFailedSave(s: Store, a: int, b: int, message: string)
    requires DistinctUsers(s, a, b) && HasEdge(s.follows, a, b)
    ensures var o := UnFollowUserAsWritten(s, Some(Fault(3, message)), a, b);
      o.result == ServiceResult(true, None, Some(200), None) && HasEdge(o.store.follows, a, b)
    ensures UnFollowUser(s, Some(Fault(3, message)), a, b) == Outcome(Internal(message), s)
  {
  }
}
