/** The Follows table: edge lookup, insert, delete, and the two
    neighbourhood queries. It checks neither self-edges nor duplicates. */
module FollowRepository {
  import opened Wrappers
  import opened Database
  import opened Results
  import UserRepository

  /** The first edge from `followerId` to `followedId`. */
  function FindEdge(follows: seq<Follow>, followerId: int, followedId: int): (r: Option<Follow>)
    ensures r.Some? <==> HasEdge(follows, followerId, followedId)
    ensures r.Some? ==> r.value in follows && r.value.followerId == followerId && r.value.followedId == followedId
  {
    if |follows| == 0 then None
    else if follows[0].followerId == followerId && follows[0].followedId == followedId then Some(follows[0])
    else FindEdge(follows[1..], followerId, followedId)
  }

  /** The edges whose id is not `id`, in stored order. */
  function WithoutEdge(follows: seq<Follow>, id: int): (r: seq<Follow>)
    ensures forall e :: e in r <==> e in follows && e.id != id
    ensures |r| <= |follows|
  {
    if |follows| == 0 then []
    else if follows[0].id == id then WithoutEdge(follows[1..], id)
    else [follows[0]] + WithoutEdge(follows[1..], id)
  }

  /** For each edge into `userId`, in stored order, its follower's row; an
      edge whose follower row is missing contributes nothing (an inner join). */
  function FollowersOf(users: seq<User>, follows: seq<Follow>, userId: int): (r: seq<User>)
    ensures |r| <= |follows|
    ensures forall u :: u in r ==> u in users && HasEdge(follows, u.id, userId)
    ensures forall e :: e in follows && e.followedId == userId && UserRepository.FindById(users, e.followerId).Some? ==>
                          UserRepository.FindById(users, e.followerId).value in r
  {
    if |follows| == 0 then []
    else
      var rest := FollowersOf(users, follows[1..], userId);
      var e := follows[0];
      var found := UserRepository.FindById(users, e.followerId);
      if e.followedId == userId && found.Some? then [found.value] + rest else rest
  }

  /** For each edge out of `userId`, in stored order, its followed user's row. */
  function FollowingOf(users: seq<User>, follows: seq<Follow>, userId: int): (r: seq<User>)
    ensures |r| <= |follows|
    ensures forall u :: u in r ==> u in users && HasEdge(follows, userId, u.id)
    ensures forall e :: e in follows && e.followerId == userId && UserRepository.FindById(users, e.followedId).Some? ==>
                          UserRepository.FindById(users, e.followedId).value in r
  {
    if |follows| == 0 then []
    else
      var rest := FollowingOf(users, follows[1..], userId);
      var e := follows[0];
      var found := UserRepository.FindById(users, e.followedId);
      if e.followerId == userId && found.Some? then [found.value] + rest else rest
  }

  function IsFollowing(s: Store, fault: Option<Fault>, call: nat, followerId: int, followedId: int): (r: Call<Option<Follow>>)
    ensures r.Thrown? <==> Fails(fault, call)
    ensures r.Thrown? ==> r.message == fault.value.message
    ensures r.Returned? ==> (r.value.Some? <==> HasEdge(s.follows, followerId, followedId))
    ensures r.Returned? && r.value.Some? ==>
      r.value.value in s.follows && r.value.value.followerId == followerId && r.value.value.followedId == followedId
  {
    if Fails(fault, call) then Thrown(fault.value.message)
    else Returned(FindEdge(s.follows, followerId, followedId))
  }

  /** Inserts the edge under the next identity value, whatever edges already
      exist; a failed save is caught and reported. */
  function FollowUser(s: Store, fault: Option<Fault>, call: nat, followerId: int, followedId: int): (w: Written)
    ensures w.result.success <==> !Fails(fault, call)
    ensures !w.result.success ==> w.result.errorMessage == Some(fault.value.message) && w.store == s
    ensures w.result.success ==>
      && w.store.follows == s.follows + [Follow(s.nextFollowId, followerId, followedId)]
      && s.nextFollowId < w.store.nextFollowId
    ensures w.store.users == s.users && w.store.messages == s.messages
  {
    if Fails(fault, call) then Written(OperationResult(false, Some(fault.value.message)), s)
    else
      var id := s.nextFollowId;
      Written(OperationResult(true, None),
              s.(follows := s.follows + [Follow(id, followerId, followedId)], nextFollowId := id + 1))
  }

  /** Deletes the row of `follow` (by its key); a failed save is caught and
      reported. The save fails when no row has that key. */
  function UnFollowUser(s: Store, fault: Option<Fault>, call: nat, follow: Follow): (w: Written)
    ensures w.result.success <==> !Fails(fault, call) && FollowExists(s, follow.id)
    ensures Fails(fault, call) ==> w.result.errorMessage == Some(fault.value.message)
    ensures !Fails(fault, call) && !FollowExists(s, follow.id) ==> w.result.errorMessage == Some(NoRowAffected)
    ensures !w.result.success ==> w.store == s
    ensures w.result.success ==> forall e :: e in w.store.follows <==> e in s.follows && e.id != follow.id
    ensures w.result.success ==> w.store == s.(follows := WithoutEdge(s.follows, follow.id))
    ensures w.store.users == s.users && w.store.messages == s.messages
  {
    if Fails(fault, call) then Written(OperationResult(false, Some(fault.value.message)), s)
    else if !FollowExists(s, follow.id) then Written(OperationResult(false, Some(NoRowAffected)), s)
    else Written(OperationResult(true, None), s.(follows := WithoutEdge(s.follows, follow.id)))
  }

  /** Deleting an edge that is not stored is reported as a failure. */
  lemma UnFollowMissingEdgeFails(s: Store, follow: Follow)
    requires !FollowExists(s, follow.id)
    ensures UnFollowUser(s, None, 0, follow) == Written(OperationResult(false, Some(NoRowAffected)), s)
  {
  }

  /** Removing edges keeps the edge ids pairwise distinct. */
  lemma {:induction false} WithoutEdgeKeepsKeys(follows: seq<Follow>, id: int)
    requires UniqueFollowIds(follows)
    ensures UniqueFollowIds(WithoutEdge(follows, id))
  {
    if |follows| > 0 {
      var tail := follows[1..];
      assert UniqueFollowIds(tail) by {
        forall i, j | 0 <= i < j < |tail| ensures tail[i].id != tail[j].id {
          assert tail[i] == follows[i + 1] && tail[j] == follows[j + 1];
        }
      }
      WithoutEdgeKeepsKeys(tail, id);
      if follows[0].id != id {
        var rest := WithoutEdge(tail, id);
        forall v | v in rest ensures v.id != follows[0].id {
          var k :| 0 <= k < |tail| && tail[k] == v;
          assert follows[k + 1] == v;
        }
        ConsFollowKeys(follows[0], rest);
      }
    }
  }

  /** A edge whose id no other edge has may go in front. */
  lemma ConsFollowKeys(x: Follow, rest: seq<Follow>)
    requires UniqueFollowIds(rest)
    requires forall v :: v in rest ==> v.id != x.id
    ensures UniqueFollowIds([x] + rest)
  {
    var r := [x] + rest;
    forall i, j | 0 <= i < j < |r| ensures r[i].id != r[j].id {
      assert r[j] == rest[j - 1];
      if i > 0 {
        assert r[i] == rest[i - 1];
      }
    }
  }

  function GetFollowers(s: Store, fault: Option<Fault>, call: nat, userId: int): (r: Call<seq<User>>)
    ensures r.Thrown? <==> Fails(fault, call)
    ensures r.Thrown? ==> r.message == fault.value.message
    ensures r.Returned? ==> r.value == FollowersOf(s.users, s.follows, userId)
  {
    if Fails(fault, call) then Thrown(fault.value.message) else Returned(FollowersOf(s.users, s.follows, userId))
  }

  function GetFollowing(s: Store, fault: Option<Fault>, call: nat, userId: int): (r: Call<seq<User>>)
    ensures r.Thrown? <==> Fails(fault, call)
    ensures r.Thrown? ==> r.message == fault.value.message
    ensures r.Returned? ==> r.value == FollowingOf(s.users, s.follows, userId)
  {
    if Fails(fault, call) then Thrown(fault.value.message) else Returned(FollowingOf(s.users, s.follows, userId))
  }

  /** A user with no incoming edge has no followers, and one with no outgoing
      edge follows nobody. */
  lemma {:induction false} NoEdgesNoNeighbours(users: seq<User>, follows: seq<Follow>, userId: int)
    ensures (forall e :: e in follows ==> e.followedId != userId) ==> FollowersOf(users, follows, userId) == []
    ensures (forall e :: e in follows ==> e.followerId != userId) ==> FollowingOf(users, follows, userId) == []
  {
    if |follows| > 0 {
      assert forall e :: e in follows[1..] ==> e in follows;
      NoEdgesNoNeighbours(users, follows[1..], userId);
    }
  }

  /** The repository itself admits duplicate pairs and self-edges: inserting
      the same pair twice, or a pair (u, u), succeeds. */
  lemma RepositoryAdmitsDuplicatesAndSelfEdges(s: Store, a: int, b: int)
    ensures var w1 := FollowUser(s, None, 0, a, b);
      var w2 := FollowUser(w1.store, None, 0, a, b);
      w2.result.success && |w2.store.follows| == |s.follows| + 2
      && w2.store.follows[|s.follows|].followerId == w2.store.follows[|s.follows| + 1].followerId
      && w2.store.follows[|s.follows|].followedId == w2.store.follows[|s.follows| + 1].followedId
    ensures var w := FollowUser(s, None, 0, a, a); w.result.success && HasEdge(w.store.follows, a, a)
  {
    var w := FollowUser(s, None, 0, a, a);
    assert w.store.follows[|s.follows|] in w.store.follows;
  }
}
