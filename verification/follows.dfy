/**
 * `server/routes/follows.js`: the follow toggle over the `follows` pair
 * table (follower, followed) and its status query.
 */
module Follows {
  import opened Schema

  /**
   * `GET /following/:id`: `SELECT 1 FROM follows WHERE follower_id = me AND
   * following_id = target` and the answer `rowCount > 0`.
   */
  function IsFollowing(db: Tables, me: int, target: int): (following: bool)
    ensures following <==> (me, target) in db.follows
  {
    var rows := set p | p in db.follows && p.0 == me && p.1 == target;
    assert rows == if (me, target) in db.follows then {(me, target)} else {};
    |rows| > 0
  }

  /** The relation is directed: `a` may follow `b` while `b` does not follow `a`. */
  lemma FollowingIsDirected()
    ensures var db := Tables(map[], map[], map[], {}, {}, {(1, 2)}, 1, 1, 1);
      IsFollowing(db, 1, 2) && !IsFollowing(db, 2, 1)
  {
  }

  /**
   * `POST /follow/:id`.  Following yourself is refused before the store is
   * touched; otherwise the pair is inserted unless it is already there.
   */
  method Follow(db: Store, me: int, target: int) returns (r: Response<bool>)
    modifies db`follows
    ensures me == target ==> r == BadRequest("You can't follow yourself") && db.follows == old(db.follows)
    ensures me != target ==> r == Ok(true) && IsFollowing(db.View(), me, target)
    ensures forall p :: p != (me, target) ==> (p in db.follows <==> p in old(db.follows))
    ensures db.follows == old(db.follows) <==> me == target || (me, target) in old(db.follows)
    ensures IsFollowing(db.View(), target, me) == old(IsFollowing(db.View(), target, me))
  {
    if me == target {
      return BadRequest("You can't follow yourself");
    }
    db.follows := Insert(db.follows, (me, target));
    r := Ok(true);
  }

  /** `DELETE /unfollow/:id`: removes the pair if present and answers 200 either way. */
  method Unfollow(db: Store, me: int, target: int) returns (r: Response<bool>)
    modifies db`follows
    ensures r == Ok(true)
    ensures !IsFollowing(db.View(), me, target)
    ensures forall p :: p != (me, target) ==> (p in db.follows <==> p in old(db.follows))
    ensures (me, target) !in old(db.follows) ==> db.follows == old(db.follows)
  {
    db.follows := Delete(db.follows, (me, target));
    r := Ok(true);
  }

  /** A second follow of the same user leaves the table as the first one left it. */
  method FollowTwice(db: Store, me: int, target: int) returns (first: Response<bool>, second: Response<bool>)
    modifies db`follows
    ensures first == second
    ensures me != target ==> db.follows == old(db.follows) + {(me, target)}
  {
    first := Follow(db, me, target);
    ghost var once := db.follows;
    second := Follow(db, me, target);
    assert db.follows == once;
  }

  /** Follow then unfollow of the same user ends not following, whatever the starting state. */
  method FollowThenUnfollow(db: Store, me: int, target: int)
    modifies db`follows
    ensures !IsFollowing(db.View(), me, target)
    ensures forall p :: p != (me, target) ==> (p in db.follows <==> p in old(db.follows))
  {
    var _ := Follow(db, me, target);
    var _ := Unfollow(db, me, target);
  }
}
