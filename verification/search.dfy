/**
 * `server/routes/search.js`: `WHERE username ILIKE '%q%' OR real_name
 * ILIKE '%q%' LIMIT 20`.  ILIKE is modelled as a substring test after
 * ASCII lower-casing of both sides.
 */
module Search {
  import opened Schema
  import opened Listing

  /** The cap on search results. */
  const MaxResults: int := 20

  /** ASCII lower-casing of one character. */
  function Lower(c: char): (d: char)
    ensures 'A' <= c <= 'Z' ==> d as int == c as int + 32
    ensures !('A' <= c <= 'Z') ==> d == c
    ensures !('A' <= d <= 'Z')
  {
    if 'A' <= c <= 'Z' then (c as int + 32) as char else c
  }

  /** ASCII lower-casing of a string, character by character. */
  function LowerString(s: string): (r: string)
    ensures |r| == |s|
    ensures forall i :: 0 <= i < |s| ==> r[i] == Lower(s[i])
  {
    if s == [] then [] else [Lower(s[0])] + LowerString(s[1..])
  }

  /** `sub` occurs in `s` starting at position `i`. */
  predicate OccursAt(s: string, sub: string, i: int) {
    0 <= i && i + |sub| <= |s| && s[i .. i + |sub|] == sub
  }

  /** `sub` occurs in `s` at some position. */
  predicate Contains(s: string, sub: string) {
    exists i :: 0 <= i <= |s| - |sub| && OccursAt(s, sub, i)
  }

  /** `s ILIKE '%q%'`: `q` occurs in `s`, ignoring case. */
  predicate ILike(s: string, q: string) {
    Contains(LowerString(s), LowerString(q))
  }

  /** The WHERE clause; a NULL real_name makes its ILIKE unknown, so only the username can match. */
  predicate MatchesQuery(u: User, q: string) {
    ILike(u.username, q) || (u.realName.Some? && ILike(u.realName.value, q))
  }

  /** The users the WHERE clause keeps. */
  function Matching(users: map<int, User>, q: string): set<int> {
    set id | id in users && MatchesQuery(users[id], q)
  }

  /**
   * `GET /search/users`: an empty answer without a query; otherwise the
   * cards of matching users, at most 20.  The source has no ORDER BY; the
   * model lists them by ascending id.
   */
  function SearchUsers(db: Tables, q: Option<string>): (r: seq<UserCard>)
    ensures q.None? || q == Some("") ==> r == []
    ensures |r| <= MaxResults
    ensures forall i :: 0 <= i < |r| ==>
      r[i].id in db.users && MatchesQuery(db.users[r[i].id], q.value) && r[i] == CardOf(db.users, r[i].id)
    ensures forall i, j :: 0 <= i < j < |r| ==> r[i].id != r[j].id
  {
    if q.None? || q.value == "" then []
    else
      var ids := Asc(Matching(db.users, q.value), db.nextUserId);
      var cards := CardsOf(db.users, ids);
      if |cards| <= MaxResults then cards else cards[..MaxResults]
  }

  /** When at most 20 users match, every one of them is returned. */
  lemma SearchComplete(db: Tables, q: string, id: int)
    requires db.Valid() && q != ""
    requires id in db.users && MatchesQuery(db.users[id], q)
    requires |Matching(db.users, q)| <= MaxResults
    ensures exists i :: 0 <= i < |SearchUsers(db, Some(q))| && SearchUsers(db, Some(q))[i].id == id
  {
    var ids := Asc(Matching(db.users, q), db.nextUserId);
    assert Distinct(ids);
    DistinctSize(ids);
    assert (set x | x in ids) <= Matching(db.users, q);
    SubsetSize((set x | x in ids), Matching(db.users, q));
    assert id in ids;
    var i :| 0 <= i < |ids| && ids[i] == id;
    assert SearchUsers(db, Some(q))[i] == CardOf(db.users, id);
  }

  /** When more than 20 users match, exactly 20 come back. */
  lemma SearchCapped(db: Tables, q: string)
    requires db.Valid() && q != ""
    requires |Matching(db.users, q)| > MaxResults
    ensures |SearchUsers(db, Some(q))| == MaxResults
  {
    var keys := Matching(db.users, q);
    var ids := Asc(keys, db.nextUserId);
    assert Distinct(ids);
    DistinctSize(ids);
    assert keys <= (set x | x in ids);
    SubsetSize(keys, (set x | x in ids));
  }

  /** Lower-casing twice is lower-casing once. */
  lemma LowerIdempotent(s: string)
    ensures LowerString(LowerString(s)) == LowerString(s)
  {
    assert forall i :: 0 <= i < |s| ==> Lower(Lower(s[i])) == Lower(s[i]);
  }

  /** The search ignores the case of the query: `q` and its lower-cased form find the same users. */
  lemma QueryCaseIgnored(db: Tables, q: string)
    ensures SearchUsers(db, Some(LowerString(q))) == SearchUsers(db, Some(q))
  {
    LowerIdempotent(q);
    forall id | id in db.users
      ensures MatchesQuery(db.users[id], LowerString(q)) == MatchesQuery(db.users[id], q)
    {
    }
    assert Matching(db.users, LowerString(q)) == Matching(db.users, q);
  }

  /** Lower-casing commutes with taking a slice. */
  lemma LowerSlice(s: string, i: int, j: int)
    requires 0 <= i <= j <= |s|
    ensures LowerString(s[i..j]) == LowerString(s)[i..j]
  {
    var a, b := LowerString(s[i..j]), LowerString(s)[i..j];
    assert |a| == |b|;
    forall k | 0 <= k < |a|
      ensures a[k] == b[k]
    {
      assert s[i..j][k] == s[i + k];
    }
  }

  /** A user whose username contains `q` as written is always found by it. */
  lemma UsernameSubstringMatches(u: User, q: string)
    requires Contains(u.username, q)
    ensures MatchesQuery(u, q)
  {
    var i :| 0 <= i <= |u.username| - |q| && OccursAt(u.username, q, i);
    LowerSlice(u.username, i, i + |q|);
    assert OccursAt(LowerString(u.username), LowerString(q), i);
  }

  /** Without a real name, a user is found only through the username. */
  lemma NullRealNameMatchesByUsername(u: User, q: string)
    requires u.realName.None?
    ensures MatchesQuery(u, q) <==> ILike(u.username, q)
  {
  }
}
