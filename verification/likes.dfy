/**
 * `server/routes/likes.js`: the like toggle over the `likes` pair table
 * (user, post) and its status query.  Neither the post's existence nor its
 * author is checked, so a user may like any id, their own posts included.
 */
module Likes {
  import opened Schema

  /**
   * `GET /liked/:id`: `SELECT 1 FROM likes WHERE user_id = me AND
   * tweet_id = t` and the answer `rowCount > 0`.
   */
  function Liked(db: Tables, me: int, t: int): (liked: bool)
    ensures liked <==> (me, t) in db.likes
  {
    var rows := set p | p in db.likes && p.0 == me && p.1 == t;
    assert rows == if (me, t) in db.likes then {(me, t)} else {};
    |rows| > 0
  }

  /** `POST /like/:id`: inserts (me, t) unless it is already there. */
  method Like(db: Store, me: int, t: int) returns (r: Response<bool>)
    modifies db`likes
    ensures r == Ok(true) && Liked(db.View(), me, t)
    ensures forall p :: p != (me, t) ==> (p in db.likes <==> p in old(db.likes))
    ensures db.likes == old(db.likes) <==> (me, t) in old(db.likes)
  {
    db.likes := Insert(db.likes, (me, t));
    r := Ok(true);
  }

  /** `DELETE /unlike/:id`: removes (me, t) if present and answers 200 either way. */
  method Unlike(db: Store, me: int, t: int) returns (r: Response<bool>)
    modifies db`likes
    ensures r == Ok(true) && !Liked(db.View(), me, t)
    ensures forall p :: p != (me, t) ==> (p in db.likes <==> p in old(db.likes))
    ensures (me, t) !in old(db.likes) ==> db.likes == old(db.likes)
  {
    db.likes := Delete(db.likes, (me, t));
    r := Ok(true);
  }

  /** Liking twice leaves the table as liking once does. */
  method LikeTwice(db: Store, me: int, t: int)
    modifies db`likes
    ensures db.likes == old(db.likes) + {(me, t)}
  {
    var _ := Like(db, me, t);
    ghost var once := db.likes;
    var _ := Like(db, me, t);
    assert db.likes == once;
  }
}
