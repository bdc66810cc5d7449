/** The invariant the follow rules keep although the Follows table does not
    enforce it: no user follows itself and no ordered pair occurs twice. */
module FollowGraph {
  import opened Wrappers
  import opened Database
  import opened Results
  import FollowRepository
  import FollowService

  predicate NoSelfFollows(follows: seq<Follow>) {
    forall e :: e in follows ==> e.followerId != e.followedId
  }

  predicate SamePair(e: Follow, f: Follow) {
    e.followerId == f.followerId && e.followedId == f.followedId
  }

  predicate DistinctPairs(follows: seq<Follow>) {
    forall i, j :: 0 <= i < j < |follows| ==> !SamePair(follows[i], follows[j])
  }

  predicate SoundEdges(follows: seq<Follow>) {
    NoSelfFollows(follows) && DistinctPairs(follows)
  }

  /** A new edge between two different users whose pair is absent keeps the
      edges sound. */
  lemma AppendKeepsSound(follows: seq<Follow>, e: Follow)
    requires SoundEdges(follows)
    requires e.followerId != e.followedId && !HasEdge(follows, e.followerId, e.followedId)
    ensures SoundEdges(follows + [e])
  {
    var fs := follows + [e];
    forall i, j | 0 <= i < j < |fs| ensures !SamePair(fs[i], fs[j]) {
      if j == |follows| {
        assert fs[i] in follows;
      }
    }
  }

  /** Sound edges stay sound after an edge is put in front of them, when its
      pair is not among them. */
  lemma ConsKeepsSound(e: Follow, follows: seq<Follow>)
    requires SoundEdges(follows)
    requires e.followerId != e.followedId && !HasEdge(follows, e.followerId, e.followedId)
    ensures SoundEdges([e] + follows)
  {
    var fs := [e] + follows;
    forall i, j | 0 <= i < j < |fs| ensures !SamePair(fs[i], fs[j]) {
      assert fs[j] == follows[j - 1];
      if i == 0 {
        assert follows[j - 1] in follows;
      } else {
        assert fs[i] == follows[i - 1];
      }
    }
  }

  /** Removing the edges with one id keeps the rest sound. */
  lemma {:induction false} WithoutEdgeKeepsSound(follows: seq<Follow>, id: int)
    requires SoundEdges(follows)
    ensures SoundEdges(FollowRepository.WithoutEdge(follows, id))
  {
    if |follows| > 0 {
      var tail := follows[1..];
      assert SoundEdges(tail) by {
        forall i, j | 0 <= i < j < |tail| ensures !SamePair(tail[i], tail[j]) {
          assert tail[i] == follows[i + 1] && tail[j] == follows[j + 1];
        }
      }
      WithoutEdgeKeepsSound(tail, id);
      if follows[0].id != id {
        var rest := FollowRepository.WithoutEdge(tail, id);
        var e := follows[0];
        ConsKeepsSound(e, rest);
      }
    }
  }

  /** Every outcome of FollowUser keeps the edges sound. */
  lemma FollowUserKeepsSound(s: Store, fault: Option<Fault>, followerId: int, followeeId: int)
    requires SoundEdges(s.follows)
    ensures SoundEdges(FollowService.FollowUser(s, fault, followerId, followeeId).store.follows)
  {
    var o := FollowService.FollowUser(s, fault, followerId, followeeId);
    if o.result.success {
      AppendKeepsSound(s.follows, Follow(s.nextFollowId, followerId, followeeId));
    }
  }

  /** Every outcome of UnFollowUser keeps the edges sound. */
  lemma UnFollowUserKeepsSound(s: Store, fault: Option<Fault>, followerId: int, followeeId: int)
    requires SoundEdges(s.follows)
    ensures SoundEdges(FollowService.UnFollowUser(s, fault, followerId, followeeId).store.follows)
  {
    var o := FollowService.UnFollowUser(s, fault, followerId, followeeId);
    if o.result.success {
      WithoutEdgeKeepsSound(s.follows, FollowService.EdgeToRemove(s, followerId, followeeId).id);
    }
  }

  /** With sound edges and unique edge ids, a successful unfollow removes the
      pair and keeps every edge of any other pair. */
  lemma UnfollowRemovesExactlyThePair(s: Store, followerId: int, followeeId: int)
    requires SoundEdges(s.follows) && Valid(s)
    ensures var o := FollowService.UnFollowUser(s, None, followerId, followeeId);
      o.result.success ==>
        && !HasEdge(o.store.follows, followerId, followeeId)
        && forall f :: f in s.follows && !(f.followerId == followerId && f.followedId == followeeId) ==>
             f in o.store.follows
  {
    var o := FollowService.UnFollowUser(s, None, followerId, followeeId);
    if o.result.success {
      var gone := FollowService.EdgeToRemove(s, followerId, followeeId);
      var g :| 0 <= g < |s.follows| && s.follows[g] == gone;
      forall f | f in s.follows && f.id == gone.id ensures f == gone {
        var k :| 0 <= k < |s.follows| && s.follows[k] == f;
        assert k == g;
      }
      forall f | f in s.follows && SamePair(f, gone) ensures f == gone {
        var k :| 0 <= k < |s.follows| && s.follows[k] == f;
        assert k == g;
      }
    }
  }

  /** The code as written leaves the same store as the corrected operation,
      so it keeps the edges sound too. */
  lemma FollowUserAsWrittenKeepsSound(s: Store, fault: Option<Fault>, followerId: int, followeeId: int)
    requires SoundEdges(s.follows)
    ensures SoundEdges(FollowService.FollowUserAsWritten(s, fault, followerId, followeeId).store.follows)
  {
    FollowUserKeepsSound(s, fault, followerId, followeeId);
  }

  lemma UnFollowUserAsWrittenKeepsSound(s: Store, fault: Option<Fault>, followerId: int, followeeId: int)
    requires SoundEdges(s.follows)
    ensures SoundEdges(FollowService.UnFollowUserAsWritten(s, fault, followerId, followeeId).store.follows)
  {
    UnFollowUserKeepsSound(s, fault, followerId, followeeId);
  }

  /** Following and then unfollowing a pair succeeds both times, and the pair
      is not followed afterwards, as long as no pair was recorded twice. */
  lemma FollowThenUnfollow(s: Store, a: int, b: int)
    requires FollowService.DistinctUsers(s, a, b) && !HasEdge(s.follows, a, b)
    requires DistinctPairs(s.follows)
    ensures var o1 := FollowService.FollowUser(s, None, a, b);
      var o2 := FollowService.UnFollowUser(o1.store, None, a, b);
      && o2.result.success
      && FollowService.IsFollowing(o2.store, None, a, b) == ServiceResult(true, None, None, Some(false))
  {
    var o1 := FollowService.FollowUser(s, None, a, b);
    FollowService.FollowThenIsFollowing(s, a, b);
    var fs := o1.store.follows;
    assert forall u :: u in s.users ==> u in o1.store.users;
    var o2 := FollowService.UnFollowUser(o1.store, None, a, b);
    var gone := FollowService.EdgeToRemove(o1.store, a, b);
    assert gone == fs[|s.follows|];
    assert !HasEdge(o2.store.follows, a, b);
    assert forall u :: u in o1.store.users ==> u in o2.store.users;
  }
}
