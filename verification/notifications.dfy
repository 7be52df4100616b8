/**
 * `server/routes/notifications.js`: whether anyone the requester follows
 * has posted since the client last looked.  `lastSeen` is the query
 * parameter after PostgreSQL reads it as a date; `None` is a missing or
 * empty parameter.
 */
module Notifications {
  import opened Schema
  import opened Listing

  /** The posts by authors `me` follows that are dated strictly after `lastSeen`. */
  function NewPosts(db: Tables, me: int, lastSeen: int): set<int> {
    set t | t in db.tweets && (me, db.tweets[t].author) in db.follows && db.tweets[t].date > lastSeen
  }

  /** A post the check would count. */
  predicate IsNews(db: Tables, me: int, lastSeen: int, t: int) {
    t in db.tweets && (me, db.tweets[t].author) in db.follows && db.tweets[t].date > lastSeen
  }

  /**
   * `GET /notifications/check`: 400 without a `lastSeen`; otherwise
   * `hasNew` is whether the count of new posts is positive.
   */
  function CheckNotifications(db: Tables, me: int, lastSeen: Option<int>): (r: Response<bool>)
    ensures lastSeen.None? <==> r == BadRequest("Missing lastSeen parameter")
    ensures lastSeen.Some? ==> r.Ok? && (r.body <==> exists t :: IsNews(db, me, lastSeen.value, t))
  {
    if lastSeen.None? then BadRequest("Missing lastSeen parameter")
    else
      NewsIffNonEmpty(db, me, lastSeen.value);
      Ok(|NewPosts(db, me, lastSeen.value)| > 0)
  }

  /** `COUNT(*) > 0` is an existence test. */
  lemma NewsIffNonEmpty(db: Tables, me: int, lastSeen: int)
    ensures |NewPosts(db, me, lastSeen)| > 0 <==> exists t :: IsNews(db, me, lastSeen, t)
  {
    var news := NewPosts(db, me, lastSeen);
    if exists t :: IsNews(db, me, lastSeen, t) {
      var t :| IsNews(db, me, lastSeen, t);
      assert t in news;
    } else {
      forall t ensures t !in news {
        if t in news { assert IsNews(db, me, lastSeen, t); }
      }
      assert news == {};
    }
  }

  /** Looking later can only clear the flag: a later `lastSeen` never turns "nothing new" into "something new". */
  lemma LaterLastSeenNeverAddsNews(db: Tables, me: int, earlier: int, later: int)
    requires earlier <= later
    ensures |NewPosts(db, me, later)| <= |NewPosts(db, me, earlier)|
    ensures CheckNotifications(db, me, Some(later)) == Ok(true) ==> CheckNotifications(db, me, Some(earlier)) == Ok(true)
  {
    SubsetSize(NewPosts(db, me, later), NewPosts(db, me, earlier));
  }

  /** A new post by someone `me` does not follow leaves the answer as it was. */
  lemma UnfollowedAuthorIgnored(db: Tables, me: int, lastSeen: int, t: int, post: Tweet)
    requires t !in db.tweets && (me, post.author) !in db.follows
    ensures NewPosts(db.(tweets := db.tweets[t := post]), me, lastSeen) == NewPosts(db, me, lastSeen)
    ensures CheckNotifications(db.(tweets := db.tweets[t := post]), me, Some(lastSeen))
         == CheckNotifications(db, me, Some(lastSeen))
  {
    var db' := db.(tweets := db.tweets[t := post]);
    assert forall x :: x in NewPosts(db', me, lastSeen) <==> x in NewPosts(db, me, lastSeen) by {
      forall x ensures x in NewPosts(db', me, lastSeen) <==> x in NewPosts(db, me, lastSeen) {
        if x == t { assert x !in NewPosts(db', me, lastSeen); }
      }
    }
  }

  /** A post dated exactly `lastSeen` is not new. */
  lemma PostAtLastSeenIgnored(db: Tables, me: int, lastSeen: int, t: int, post: Tweet)
    requires t !in db.tweets && post.date == lastSeen
    ensures NewPosts(db.(tweets := db.tweets[t := post]), me, lastSeen) == NewPosts(db, me, lastSeen)
  {
    var db' := db.(tweets := db.tweets[t := post]);
    forall x ensures x in NewPosts(db', me, lastSeen) <==> x in NewPosts(db, me, lastSeen) {
      if x == t { assert x !in NewPosts(db', me, lastSeen); }
    }
  }

  /** One new post by a followed author, dated after `lastSeen`, is enough to raise the flag. */
  lemma FollowedPostRaisesFlag(db: Tables, me: int, lastSeen: int, t: int, post: Tweet)
    requires (me, post.author) in db.follows && post.date > lastSeen
    ensures CheckNotifications(db.(tweets := db.tweets[t := post]), me, Some(lastSeen)) == Ok(true)
  {
    assert IsNews(db.(tweets := db.tweets[t := post]), me, lastSeen, t);
  }
}
