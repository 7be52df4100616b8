/**
 * `server/routes/bookmarks.js`: the bookmark toggle over the `bookmarks`
 * pair table (user, post) and the requester's paged bookmark list.
 */
module Bookmarks {
  import opened Schema
  import opened Listing
  import opened PostRows

  /** The posts `me` has bookmarked that survive `JOIN users`. */
  function BookmarkedPosts(db: Tables, me: int): set<int>
  {
    set id | id in db.tweets && Joined(db, id) && (me, id) in db.bookmarks
  }

  /**
   * `GET /bookmarks?page=N`: the requester's bookmarked posts, newest id
   * first, ten per page; `bookmarked_by_current_user` is the constant TRUE.
   */
  function BookmarksPage(db: Tables, me: int, page: Option<int>): (r: Response<seq<PostRow>>)
    ensures r.Ok? <==> PageNumber(page) >= 1
    ensures r.Ok? ==> |r.body| <= PageSize && IdsDecrease(r.body)
    ensures r.Ok? ==> forall row :: row in r.body ==>
      (me, row.id) in db.bookmarks && Describes(db, row, me) && row.bookmarkedByCurrentUser
  {
    PostList(db, BookmarkedPosts(db, me), me, AlwaysTrue, PageNumber(page))
  }

  /** Every bookmarked post whose author exists is on some page of the bookmark list. */
  lemma BookmarksComplete(db: Tables, me: int, id: int) returns (page: int)
    requires db.Valid() && Joined(db, id) && (me, id) in db.bookmarks
    ensures page >= 1 && BookmarksPage(db, me, Some(page)).Ok?
    ensures exists row :: row in BookmarksPage(db, me, Some(page)).body && row.id == id
  {
    var k;
    page, k := PostListComplete(db, BookmarkedPosts(db, me), me, AlwaysTrue, id);
    assert BookmarksPage(db, me, Some(page)).body[k].id == id;
  }

  /** `POST /bookmark/:id`: inserts (me, t) unless it is already there. */
  method Bookmark(db: Store, me: int, t: int) returns (r: Response<bool>)
    modifies db`bookmarks
    ensures r == Ok(true) && (me, t) in db.bookmarks
    ensures forall p :: p != (me, t) ==> (p in db.bookmarks <==> p in old(db.bookmarks))
    ensures db.bookmarks == old(db.bookmarks) <==> (me, t) in old(db.bookmarks)
  {
    db.bookmarks := Insert(db.bookmarks, (me, t));
    r := Ok(true);
  }

  /** `DELETE /unbookmark/:id`: removes (me, t) if present and answers 200 either way. */
  method Unbookmark(db: Store, me: int, t: int) returns (r: Response<bool>)
    modifies db`bookmarks
    ensures r == Ok(true) && (me, t) !in db.bookmarks
    ensures forall p :: p != (me, t) ==> (p in db.bookmarks <==> p in old(db.bookmarks))
    ensures (me, t) !in old(db.bookmarks) ==> db.bookmarks == old(db.bookmarks)
  {
    db.bookmarks := Delete(db.bookmarks, (me, t));
    r := Ok(true);
  }

  /** After an unbookmark, the post is on no page of the requester's bookmark list. */
  method UnbookmarkHidesPost(db: Store, me: int, t: int, page: Option<int>)
    modifies db`bookmarks
    ensures var r := BookmarksPage(db.View(), me, page);
      r.Ok? ==> forall row :: row in r.body ==> row.id != t
  {
    var _ := Unbookmark(db, me, t);
  }
}
