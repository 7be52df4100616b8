# Twex server routes in Dafny

Twex is a small social network. An Express server stores users, posts ("tweets"), replies, likes, bookmarks and follows in PostgreSQL. This project models the server's route handlers and its passport login configuration, and proves what they promise.

The database is one `Schema.Store` class:
- the tables `users`, `tweets` and `replies` are maps from id to row;
- the pair tables `likes`, `bookmarks` and `follows` are sets of pairs;
- each table has its own SERIAL counter.

Handlers that change the database are module-level methods that take the `Store` as a parameter `db`, and each method's `modifies` clause names only the `db` fields it writes. Read-only routes are functions over a `Tables` snapshot (`Store.View()`). Most handlers return a `Response` whose constructor is the HTTP status and whose payload is the JSON body or the error message. The routes that can only answer 200 return the body itself: the two status queries (`bool`), the reply list and the user search (sequences). The Google verify callback returns the account it found or created.

Shared pieces:
- `Listing` models `parseInt(page) || 1`, `LIMIT 10 OFFSET (page - 1) * 10` and `ORDER BY id`.
- `PostRows` models the annotated post row (live counts and per-user flags) that the feed, bookmarks and per-user lists share.

The modules follow the source files: `Follows`, `Likes`, `Bookmarks`, `Posts`, `Users`, `Notifications`, `Search`, `Profile`, `Auth` and `Passport`.

Conventions:
- Dates are day numbers.
- `parseInt`'s outcome is an `Option<int>`, where `None` stands for NaN.
- A body field that is absent or null is `None`.
- bcrypt's `hash` and `compare` are function parameters.
- The Google OAuth handshake is reduced to the profile's display name and first email.
- The clock is a `today` parameter.
- A Cloudinary upload is an optional URL.

The WHERE clauses and SELECT lists that the route contracts are written in are plain definitions, stated once and used by the contracts: `Bookmarks.BookmarkedPosts`, `Posts.FeedScope`, `Posts.ThreadReplies`, `Posts.ReplyRowOf`, `PostRows.Annotate`, `Users.Named`, `Users.PostsBy`, `Users.LikedBy`, `Users.RepliesBy`, `Users.ThreadRowOf`, `Users.FollowedUsers`, `Users.FollowingUsers`, `Users.Candidates`, `Passport.LoginMatches` and `Passport.EmailMatches`. The predicates `PostRows.Describes`, `Users.ShowsThread` and `Posts.ShowsReply` say what a returned row states about the rows it joins.

## Model

| member | source | states |
|---|---|---|
| Schema.Insert | server/routes/follows.js:29-32 | `INSERT ... ON CONFLICT DO NOTHING`: the pair is present afterwards and every other pair keeps its membership |
| Schema.Delete | server/routes/follows.js:44-47 | `DELETE ... WHERE` both columns match: the pair is absent afterwards and every other pair keeps its membership |
| Schema.CardOf | server/routes/users.js:183-188 | a user card carries exactly the user's id, username, real_name, avatar_url and bio |
| Listing.ParsedOr | server/routes/users.js:235 | `parseInt(x) \|\| fallback`: a nonzero parse is kept; NaN and 0 give the fallback |
| Listing.PageNumber | server/routes/bookmarks.js:9 | the page is never 0; a missing, non-numeric or zero page is 1; a page below 1 only comes from the client |
| Listing.Page | server/routes/bookmarks.js:9-11 | a page below 1 gives a negative OFFSET and a 500; otherwise at most 10 rows, row i of the page is row (page-1)*10+i, and a short page reaches the end |
| Listing.Limit | server/routes/users.js:245-246 | `LIMIT n`: a negative n is a 500; otherwise exactly the first min(n, rows) rows |
| Listing.Desc | server/routes/posts.js:78 | `ORDER BY id DESC` over a key set: exactly the keys below the counter, strictly decreasing |
| Listing.Asc | server/routes/posts.js:213 | `ORDER BY id ASC` over a key set: exactly the keys below the counter, strictly increasing |
| Listing.ShortPageIsLast | server/routes/bookmarks.js:9-11 | a page with fewer than 10 rows is followed only by empty pages |
| Listing.RowOnPage | server/routes/bookmarks.js:9-11 | row i of the ordered listing is on page i/10+1 at position i%10 |
| Listing.PagesTile | server/routes/bookmarks.js:9-11 | pages 1..k concatenated are exactly the first min(10k, n) rows: nothing skipped, nothing repeated |
| Listing.PagesDisjoint | server/routes/bookmarks.js:9-11 | two different pages of a duplicate-free listing share no row |
| PostRows.SortByDate | server/routes/users.js:163 | `ORDER BY t.date DESC`: dates never increase and the result is a permutation of the input |
| PostRows.InsertByDate | server/routes/users.js:163 | inserting a row into date-ordered rows keeps them date-ordered and grows them by one |
| PostRows.InsertByDateAddsRow | server/routes/users.js:163 | insertion adds exactly that row and loses none |
| PostRows.PermutationKeepsIdsDistinct | server/routes/users.js:162-163 | reordering rows with distinct post ids keeps the ids distinct |
| PostRows.PageOfRows | server/routes/users.js:163-164 | a page cut from date-ordered, duplicate-free rows is itself date-ordered and duplicate-free, and holds only those rows |
| PostRows.SortKeepsRows | server/routes/users.js:163 | sorting by date neither drops nor invents a row |
| PostRows.LikeRaisesCount | server/routes/likes.js:28-31 | a new like raises the post's `total_likes` by exactly one |
| PostRows.UnlikeLowersCount | server/routes/likes.js:44-47 | removing an existing like lowers `total_likes` by exactly one |
| PostRows.ToggleKeepsOtherCounts | server/routes/likes.js:28-47 | liking or unliking post t leaves every other post's `total_likes` unchanged |
| PostRows.PostList | server/routes/posts.js:53-79 | a paged post list holds only in-scope posts, at most 10, in strictly decreasing id, each row describing its post with the requested flags; row i is the post at position (page-1)*10+i of the id-descending scope, and a short page reaches the end of it |
| PostRows.PostListShortPageIsLast | server/routes/posts.js:8-90 | a post-list page shorter than 10 rows is followed only by empty pages |
| PostRows.PagesOverIdsDisjoint | server/routes/posts.js:48 | pages laid at two different offsets over strictly decreasing ids share no id |
| PostRows.PostListPagesDisjoint | server/routes/posts.js:48 | two different pages of one post list share no post |
| PostRows.PostListComplete | server/routes/posts.js:53-79 | every in-scope post appears on some page |
| Follows.IsFollowing | server/routes/follows.js:7-20 | `isFollowing` (`rowCount > 0` of the pair lookup) is true exactly when the directed pair (me, target) is in `follows` |
| Follows.FollowingIsDirected | server/routes/follows.js:11-15 | a store where 1 follows 2 and 2 does not follow 1: the relation is directed |
| Follows.Follow | server/routes/follows.js:22-38 | self-follow is 400 "You can't follow yourself" with `follows` unchanged; otherwise 200 and (me, target) present; no other pair changes, (target, me) included |
| Follows.Unfollow | server/routes/follows.js:40-53 | always 200; (me, target) absent afterwards; every other pair unchanged; unfollowing an absent pair changes nothing |
| Follows.FollowTwice | server/routes/follows.js:29-33 | a second follow answers the same and leaves the table as the first left it |
| Follows.FollowThenUnfollow | server/routes/follows.js:22-53 | follow then unfollow ends not following, with every other pair as before |
| Likes.Liked | server/routes/likes.js:8-21 | `liked` (`rowCount > 0` of the pair lookup) is true exactly when the pair (me, t) is in `likes` |
| Likes.Like | server/routes/likes.js:24-37 | 200; (me, t) present; nothing else changes; no existence or author check |
| Likes.Unlike | server/routes/likes.js:40-53 | 200; (me, t) absent; nothing else changes |
| Likes.LikeTwice | server/routes/likes.js:28-31 | liking twice is liking once |
| Bookmarks.BookmarksPage | server/routes/bookmarks.js:7-46 | only the requester's bookmarks, at most 10, decreasing id, counts and liked flag for the requester, bookmarked flag always true |
| Bookmarks.BookmarksComplete | server/routes/bookmarks.js:7-46 | every bookmarked post is on some page |
| Bookmarks.Bookmark | server/routes/bookmarks.js:48-61 | 200; (me, t) present; nothing else changes |
| Bookmarks.Unbookmark | server/routes/bookmarks.js:63-76 | 200; (me, t) absent; nothing else changes |
| Bookmarks.UnbookmarkHidesPost | server/routes/bookmarks.js:63-76 | after an unbookmark the post is on no page of the bookmark list |
| Posts.Feed | server/routes/posts.js:8-90 | at most 10 rows in decreasing id, each describing its post with the requester's flags; with type "following" only followed authors |
| Posts.OtherTypesMeanAll | server/routes/posts.js:13-19 | any type other than "following", or none, gives the "all" feed |
| Posts.FeedComplete | server/routes/posts.js:8-90 | every post in the feed's scope is on some page |
| Posts.FeedPagesDisjoint | server/routes/posts.js:48 | two different pages of one feed share no post |
| Posts.FeedShortPageIsLast | server/routes/posts.js:8-90 | a feed page shorter than 10 posts is followed only by empty pages |
| Posts.GetPost | server/routes/posts.js:92-120 | 404 "Post not found" exactly when no post with that id joins its author; otherwise the post's and author's columns |
| Posts.CreatePost | server/routes/posts.js:122-137 | 201 with the upload URL; exactly one new post by the requester at the next id, dated today, image = upload or none |
| Posts.EditedImage | server/routes/posts.js:153-162 | a new upload wins; otherwise `removeImage == "true"` clears; otherwise the image stays |
| Posts.EditPost | server/routes/posts.js:139-172 | 404 if absent, 403 "Unauthorized" if not the author, each with no change; otherwise only that post's content and image change |
| Posts.DeletePost | server/routes/posts.js:174-194 | 403 both for an absent post and for another's post, nothing changed; otherwise exactly that row removed |
| Posts.ListReplies | server/routes/posts.js:196-222 | only that post's replies, each with its author's columns, in strictly increasing id, all of them |
| Posts.CreateReply | server/routes/posts.js:224-238 | 201; exactly one new reply by the requester to `replyTo` (not checked to exist) at the next id |
| Posts.DeleteReply | server/routes/posts.js:240-262 | 404 "Reply not found", 403 "Forbidden: Not your reply", each with no change; otherwise exactly that reply removed |
| Users.UserProfile | server/routes/users.js:7-40 | 404 "User not found" exactly when no user has that name; otherwise the user's row with posts, followers and followees counted |
| Users.ProfileIsTheNamedUser | server/routes/users.js:10-16 | with unique usernames the profile found is that user's |
| Users.FollowerCountIsFollowers | server/routes/users.js:20-22 | `follower_count` is the number of distinct followers |
| Users.FollowingCountIsFollowed | server/routes/users.js:23-25 | `following_count` is the number of distinct followed users |
| Users.FollowRaisesCounts | server/routes/users.js:19-25 | a new follow adds one to the followed user's follower count and one to the follower's following count |
| Users.UserPosts | server/routes/users.js:42-84 | only the profile owner's posts, at most 10, decreasing id, flags for the requester |
| Users.UserPostsComplete | server/routes/users.js:42-84 | every post by the owner is on some page |
| Users.LikedById | server/routes/users.js:139-161 | the liked posts as rows, strictly decreasing id, flagged for the profile owner |
| Users.LikedRows | server/routes/users.js:150-163 | the liked posts sorted by date, a permutation of the id-ordered rows |
| Users.LikedRowsUnique | server/routes/users.js:156-162 | no post appears twice in the liked-posts listing |
| Users.UserLikes | server/routes/users.js:131-173 | at most 10 distinct liked posts, dates descending, flags for the profile owner so `liked_by_current_user` is always true; row i is row (page-1)*10+i of the date-ordered liked list, and a short page reaches its end |
| Users.UserLikesComplete | server/routes/users.js:131-173 | every joined post the owner likes is on some page |
| Users.UserLikesShortPageIsLast | server/routes/users.js:131-173 | a likes page shorter than 10 posts is followed only by empty pages |
| Users.ThreadRows | server/routes/users.js:114-120 | only the owner's replies, strictly decreasing reply id, all of them |
| Users.UserReplies | server/routes/users.js:86-129 | at most 10 of the owner's replies with their parent posts, decreasing reply id; row i is row (page-1)*10+i of the full reply list, and a short page reaches its end |
| Users.UserRepliesComplete | server/routes/users.js:86-129 | every joined reply by the owner is on some page |
| Users.UserRepliesShortPageIsLast | server/routes/users.js:86-129 | a replies page shorter than 10 rows is followed only by empty pages |
| Users.CardPage | server/routes/users.js:183-193 | at most 10 distinct cards, each of a user in scope with that user's own columns; card i is the user at position (page-1)*10+i of the id-descending scope, and a short page reaches its end |
| Users.CardPageShortPageIsLast | server/routes/users.js:183-193 | a card page shorter than 10 cards is followed only by empty pages |
| Users.CardPageComplete | server/routes/users.js:183-193 | every user in scope is on some page |
| Users.UserFollowing | server/routes/users.js:175-202 | each card is a user the owner follows |
| Users.UserFollowers | server/routes/users.js:204-231 | each card is a user who follows the owner |
| Users.FollowListsComplete | server/routes/users.js:189-221 | a follow (a, b) puts b on a's following list and a on b's followers list |
| Users.Suggestions | server/routes/users.js:233-255 | never the requester or a followed user, at most `limit` (default 5) distinct cards; a negative limit is a 500 |
| Users.SuggestionsSize | server/routes/users.js:245-246 | exactly min(limit, candidates) cards come back |
| Notifications.CheckNotifications | server/routes/notifications.js:7-29 | 400 "Missing lastSeen parameter" without lastSeen; otherwise `hasNew` holds iff some followed author has a post dated after lastSeen |
| Notifications.NewsIffNonEmpty | server/routes/notifications.js:14-24 | `COUNT(*) > 0` is the existence of a new post |
| Notifications.LaterLastSeenNeverAddsNews | server/routes/notifications.js:20-24 | a later lastSeen counts no more posts and never turns false into true |
| Notifications.UnfollowedAuthorIgnored | server/routes/notifications.js:17-19 | a new post by someone not followed changes nothing |
| Notifications.PostAtLastSeenIgnored | server/routes/notifications.js:20 | a post dated exactly lastSeen is not counted |
| Notifications.FollowedPostRaisesFlag | server/routes/notifications.js:15-24 | one post by a followed author after lastSeen makes `hasNew` true |
| Search.Lower | server/routes/search.js:14 | ASCII case folding: upper-case letters map to lower case, nothing else changes |
| Search.LowerString | server/routes/search.js:14 | case folding of a string, position by position |
| Search.SearchUsers | server/routes/search.js:7-23 | a missing or empty q gives []; otherwise at most 20 distinct cards, each of a user whose username or real_name contains q ignoring case |
| Search.SearchComplete | server/routes/search.js:14-15 | when at most 20 users match, all of them are returned |
| Search.SearchCapped | server/routes/search.js:15 | when more than 20 match, exactly 20 come back |
| Search.LowerIdempotent | server/routes/search.js:14 | folding twice is folding once |
| Search.QueryCaseIgnored | server/routes/search.js:14 | q and its lower-cased form find the same users |
| Search.UsernameSubstringMatches | server/routes/search.js:14-16 | a username containing q as written always matches |
| Search.NullRealNameMatchesByUsername | server/routes/search.js:14 | without a real_name, only the username can match |
| Profile.WithProfile | server/routes/profile.js:12-17 | the four profile columns take the given values; username, email and password stay |
| Profile.SetProfile | server/routes/profile.js:11-18 | only row :id changes, and an unknown id changes nothing |
| Profile.SetProfileIdempotent | server/routes/profile.js:11-18 | applying the same update twice equals applying it once |
| Profile.LastUpdateWins | server/routes/profile.js:11-18 | of two updates of one profile the later wins entirely |
| Profile.SetProfileKeepsAccountsUnique | server/routes/profile.js:12-17 | a profile update cannot make usernames or emails collide |
| Profile.UpdateProfile | server/routes/profile.js:7-25 | always 200 "Profile updated"; the table becomes the updated one |
| Profile.EditProfile | server/routes/profile.js:27-46 | the same update; 200 with the updated row, or with no user for an unknown id |
| Profile.StrangerEditsProfile | server/routes/profile.js:27-41 | a requester who is not the owner still rewrites the profile |
| Auth.Safe | server/routes/auth.js:37 | the sign-in answer has every column of the user except the password |
| Auth.NewAccount | server/routes/auth.js:19-23 | the inserted row has the username, email and hashed password and an empty profile |
| Auth.Signup | server/routes/auth.js:9-34 | 400 "Missing fields", then 400 "Email or username already in use", each with no change; otherwise one row inserted at the next id, 201 with id, username and email, session set; account uniqueness preserved |
| Auth.Signin | server/routes/auth.js:36-39 | 200 exactly when the local strategy accepts, with the accepted user minus the password; a rejection is 401 |
| Auth.GoogleAccountsCannotSignIn | server/config/passport.js:14-15 | an identifier that only names hash-less accounts never signs in |
| Auth.Check | server/routes/auth.js:57-59 | the session's user row as deserialised, or null |
| Auth.CheckSendsPasswordHash | server/routes/auth.js:57-59 | the check answer contains the stored password hash |
| Auth.SafeCheck | server/routes/auth.js:57-59 | the session's user without the password column, or null |
| Auth.SigninThenCheck | server/routes/auth.js:36-39 | after a sign-in, the check reports exactly the user sign-in answered with |
| Auth.SignupThenCheck | server/routes/auth.js:20-28 | after a sign-up the check reports the new user with an empty profile |
| Passport.FirstOf | server/config/passport.js:10-11 | `rows[0]`: a key in range, no larger than any other, and none exactly when no key is in range |
| Passport.LocalVerify | server/config/passport.js:8-21 | "User not found" iff no username or email matches; "Invalid password" only for a matching user whose hash rejects the password; an accepted user matches and its hash accepts; a hash-less match fails |
| Passport.GoogleUser | server/config/passport.js:40-43 | a Google account has the display name as username, the email, no password |
| Passport.GoogleLogin | server/config/passport.js:31-51 | a known email returns that account and inserts nothing; a new email inserts exactly one hash-less user at the next id |
| Passport.GoogleLoginIdempotent | server/config/passport.js:36-45 | a second Google login with the same email inserts nothing and returns the same account |
| Passport.GoogleLoginKeepsEmailsUnique | server/config/passport.js:36-45 | find-or-create by email keeps emails unique |
| Passport.GoogleLoginMayDuplicateUsername | server/config/passport.js:39-43 | a display name already used as a username is inserted again |
| Passport.GoogleVerify | server/config/passport.js:31-51 | the store and the returned account are those `GoogleLogin` gives |
| Passport.Serialize | server/config/passport.js:55 | the session keeps only the user id |
| Passport.Deserialize | server/config/passport.js:56-59 | the row with that id, or nothing when it is gone |
| Passport.SessionRoundTrip | server/config/passport.js:55-58 | a stored account survives serialise then deserialise unchanged |
| Passport.LocalLoginSession | server/config/passport.js:55-58 | the account a local login accepts is what the session gives back |

## Findings

| source | as written | input that shows it | evidently intended | confidence | as-written member | corrected member |
|---|---|---|---|---|---|---|
| server/routes/auth.js:57-59 | `/check` answers with `req.user`, which `deserializeUser` filled with `SELECT *`, so the bcrypt hash goes to the client | a session for user 1 whose stored hash is `$2b$10$h` | the same password-free user that `/signin` answers with (auth.js:37-38) | medium, not executed | Auth.CheckSendsPasswordHash | Auth.SafeCheck |

The same whole row, hash included, also goes out from `GET /:username/profile` (users.js:10-35, the `user` field of `Users.UserProfile`) and from `PUT /edit/profile/:id` (`RETURNING *`, the row `Profile.EditProfile` answers with). The model keeps both as written.

## Left out

- server/middlewares/auth.js is not part of this model. Every protected handler takes the authenticated requester's id; the uniform 401 for unauthenticated requests is not modelled.
- Database failures other than a negative OFFSET or LIMIT are not modelled, nor are the 500 answers they produce. Among them: a non-numeric `:id` reaching a query, a non-date `lastSeen`, and the foreign-key and unique constraints of a schema the source does not show. Insertion into a pair table is set insertion.
- Post deletion removes only the `tweets` row. Cascades to likes, bookmarks and replies depend on the schema, which is not shown.
- `parseInt` itself (text to number) is not modelled; the model takes its outcome.
- `TO_CHAR` date formatting in responses is not modelled; dates are day numbers.
- Cloudinary uploads, bcrypt hashing and comparison, and the Google OAuth handshake are external services. They become parameters.
- Logout, session destruction and the Google redirect routes (auth.js:41-55) only drive passport and the session cookie, so they are not modelled.
- The React client is not modelled. That includes how the client appends pages and stops fetching.
- A missing `content` in a post or reply body would be written as NULL; the model always takes a string.
- Users.UserFollowing: the source orders by `follows.created_at`, a column the model does not keep. The model orders by descending user id, so the order is not the source's.
- Users.UserFollowers: same ordering substitution as UserFollowing.
- Users.Suggestions: `ORDER BY RANDOM()` is replaced by ascending id. Only membership and size are meant. A negative limit answers 500 with PostgreSQL's message, where the route sends `{error: "Server error"}`.
- Listing.Page: the 500 for a negative page carries PostgreSQL's message ("OFFSET must not be negative"). The routes send their own body instead: `{message: "Server error"}` in posts.js and bookmarks.js, `{error: "Server error"}` in users.js, with `details` added in the replies list. The model does not distinguish these bodies; only the status is the route's.
- Listing.Limit: the 500 for a negative limit carries PostgreSQL's message ("LIMIT must not be negative") rather than the route's `{error: "Server error"}`.
- Users.UserLikes: ties in `ORDER BY t.date DESC` are unresolved in the source. The model keeps descending id among equal dates.
- Users.UserProfile: `rows[0]` of an unordered query is taken to be the lowest id.
- Passport.LocalVerify: `rows[0]` of an unordered query is taken to be the lowest id. A thrown bcrypt error is a bare `Failed`.
- Passport.GoogleLogin: `rows[0]` of an unordered query is taken to be the lowest id.
- Search.SearchUsers: case folding is ASCII only. `%`, `_` and `\` inside `q` are matched literally, although ILIKE treats them as wildcards and escape. The result order (the SQL has none) is ascending id.
- Auth.Signin: passport-local's own 400 for a missing username or password field is not modelled. The 500 for a thrown error carries a fixed message.
