/** Likes and dislikes: the `likes` table, the toggle logic of `handleLike`,
    and the per-post "my vote" map that `fetchMyLikes` derives from the table. */
module Votes {
  import opened Records

  /** The two kinds `handleLike` can request. */
  datatype Kind = Like | Dislike

  /** The text the `type` column holds for each kind. */
  function Name(k: Kind): (s: string)
    ensures s == "like" || s == "dislike"
    ensures k == Like <==> s == "like"
  {
    match k
    case Like => "like"
    case Dislike => "dislike"
  }

  lemma NameInjective(a: Kind, b: Kind)
    ensures Name(a) == Name(b) <==> a == b
  {
  }

  /** The `likes` table, keyed by (post_id, user_id); the value is the text
      of the `type` column. A map holds at most one row per key: this is the
      single-vote rule, enforced by the table's key. */
  type Table = map<(Id, Id), string>

  /** Every row holds one of the two kinds. */
  predicate WellTyped(rows: Table) {
    forall k :: k in rows ==> rows[k] == "like" || rows[k] == "dislike"
  }

  /** The vote `fetchMyLikes` reports for post `p` and user `u`: the row's
      type, or null when there is no row (or its type is empty). */
  function MyVote(rows: Table, p: Id, u: Id): (r: Option<string>)
    ensures r.Some? ==> (p, u) in rows && r.value == rows[(p, u)] && r.value != ""
    ensures r.None? ==> (p, u) !in rows || rows[(p, u)] == ""
  {
    if (p, u) in rows && rows[(p, u)] != "" then Some(rows[(p, u)]) else None
  }

  /** The user's vote on a post as one of the three states none, like, dislike. */
  function VoteOf(rows: Table, p: Id, u: Id): Option<Kind> {
    if (p, u) in rows && rows[(p, u)] == "like" then Some(Like)
    else if (p, u) in rows && rows[(p, u)] == "dislike" then Some(Dislike)
    else None
  }

  function Spell(v: Option<Kind>): Option<string> {
    match v
    case None => None
    case Some(k) => Some(Name(k))
  }

  /** On a well-typed table the reported vote is the three-state vote spelled out. */
  lemma MyVoteIsVoteOf(rows: Table, p: Id, u: Id)
    requires WellTyped(rows)
    ensures MyVote(rows, p, u) == Spell(VoteOf(rows, p, u))
  {
  }

  /** The intended three-state machine: requesting the kind one already has
      cancels it; any other request leaves that kind as the vote. */
  function NextVote(m: Option<Kind>, t: Kind): Option<Kind> {
    if m == Some(t) then None else Some(t)
  }

  /** `myLikes[postId]`: a post the page has no entry for reads as no vote. */
  function Mine(myLikes: map<Id, Option<string>>, p: Id): (r: Option<string>)
    ensures p in myLikes ==> r == myLikes[p]
    ensures p !in myLikes ==> r.None?
  {
    if p in myLikes then myLikes[p] else None
  }

  /** The table after `handleLike(p, t)`, decided on the page's view
      `myLikes` of the user's votes: same kind deletes the row, another
      (non-empty) kind updates it, no vote inserts one. An update or delete
      with no matching row changes nothing, and an insert that would give the
      key a second row is rejected by the key. */
  function AfterLike(rows: Table, myLikes: map<Id, Option<string>>, user: Option<Id>, p: Id, t: Kind): (r: Table)
    ensures user.None? ==> r == rows
    ensures user.Some? ==> forall k :: k in rows && k != (p, user.value) ==> k in r && r[k] == rows[k]
    ensures user.Some? ==> forall k :: k in r && k != (p, user.value) ==> k in rows
    ensures WellTyped(rows) ==> WellTyped(r)
  {
    if user.None? then rows
    else
      var key := (p, user.value);
      var myType := Mine(myLikes, p);
      if myType == Some(Name(t)) then rows - {key}
      else if myType.Some? && myType.value != "" then (if key in rows then rows[key := Name(t)] else rows)
      else if key in rows then rows
      else rows[key := Name(t)]
  }

  /** The page's view of post `p` agrees with the table. */
  predicate Current(myLikes: map<Id, Option<string>>, rows: Table, p: Id, u: Id) {
    Mine(myLikes, p) == MyVote(rows, p, u)
  }

  /** The transition table: when the page's view is current, recounting
      after `handleLike` gives the vote `NextVote` prescribes. */
  lemma VoteRoundTrip(rows: Table, myLikes: map<Id, Option<string>>, u: Id, p: Id, t: Kind)
    requires WellTyped(rows) && Current(myLikes, rows, p, u)
    ensures VoteOf(AfterLike(rows, myLikes, Some(u), p, t), p, u) == NextVote(VoteOf(rows, p, u), t)
    ensures MyVote(AfterLike(rows, myLikes, Some(u), p, t), p, u) == Spell(NextVote(VoteOf(rows, p, u), t))
  {
    var r := AfterLike(rows, myLikes, Some(u), p, t);
    MyVoteIsVoteOf(rows, p, u);
    MyVoteIsVoteOf(r, p, u);
    match VoteOf(rows, p, u)
    case None =>
    case Some(k) =>
      NameInjective(k, t);
  }

  // ---------------------------------------------------------------------------
  // Counting votes in the table

  /** The keys of the rows on post `p`, and those of kind `s`. */
  function VotersOn(rows: Table, p: Id): set<(Id, Id)> {
    set k | k in rows.Keys && k.0 == p
  }

  function RowsOfType(rows: Table, p: Id, s: string): set<(Id, Id)> {
    set k | k in rows.Keys && k.0 == p && rows[k] == s
  }

  function VoteCount(rows: Table, p: Id, s: string): nat {
    |RowsOfType(rows, p, s)|
  }

  /** Likes plus dislikes never exceed the rows on the post, and equal them
      on a well-typed table. */
  lemma VoteCountsBound(rows: Table, p: Id)
    ensures VoteCount(rows, p, "like") + VoteCount(rows, p, "dislike") <= |VotersOn(rows, p)|
    ensures WellTyped(rows) ==> VoteCount(rows, p, "like") + VoteCount(rows, p, "dislike") == |VotersOn(rows, p)|
  {
    var likes, dislikes := RowsOfType(rows, p, "like"), RowsOfType(rows, p, "dislike");
    var voters := VotersOn(rows, p);
    assert likes * dislikes == {};
    assert |likes + dislikes| == |likes| + |dislikes|;
    var rest := voters - (likes + dislikes);
    assert voters == (likes + dislikes) + rest;
    assert (likes + dislikes) * rest == {};
    assert |voters| == |likes + dislikes| + |rest|;
    if WellTyped(rows) {
      assert rest == {};
    }
  }

  /** Giving one row on post `k.0` the type `v`. */
  lemma CountAfterSet(rows: Table, k: (Id, Id), v: string, s: string)
    ensures VoteCount(rows[k := v], k.0, s)
         == VoteCount(rows, k.0, s) - (if k in rows && rows[k] == s then 1 else 0) + (if v == s then 1 else 0)
  {
    var before, after := RowsOfType(rows, k.0, s), RowsOfType(rows[k := v], k.0, s);
    var others := before - {k};
    assert |others| == |before| - (if k in before then 1 else 0);
    if v == s {
      assert after == others + {k};
      assert k !in others;
    } else {
      assert after == others;
    }
  }

  /** Removing one row from post `k.0`. */
  lemma CountAfterRemove(rows: Table, k: (Id, Id), s: string)
    ensures VoteCount(rows - {k}, k.0, s) == VoteCount(rows, k.0, s) - (if k in rows && rows[k] == s then 1 else 0)
  {
    var before := RowsOfType(rows, k.0, s);
    assert RowsOfType(rows - {k}, k.0, s) == before - {k};
    assert |before - {k}| == |before| - (if k in before then 1 else 0);
  }

  /** Recounting after `handleLike` on a current view: the old vote's
      kind loses one, the new vote's kind gains one, and nothing else moves. */
  lemma CountsFollowVote(rows: Table, myLikes: map<Id, Option<string>>, u: Id, p: Id, t: Kind, k: Kind)
    requires WellTyped(rows) && Current(myLikes, rows, p, u)
    ensures VoteCount(AfterLike(rows, myLikes, Some(u), p, t), p, Name(k))
         == VoteCount(rows, p, Name(k))
            - (if VoteOf(rows, p, u) == Some(k) then 1 else 0)
            + (if NextVote(VoteOf(rows, p, u), t) == Some(k) then 1 else 0)
  {
    var key := (p, u);
    NameInjective(k, t);
    match VoteOf(rows, p, u)
    case None =>
      assert key !in rows;
      CountAfterSet(rows, key, Name(t), Name(k));
    case Some(m) =>
      NameInjective(m, t);
      NameInjective(m, k);
      assert rows[key] == Name(m);
      if m == t {
        assert AfterLike(rows, myLikes, Some(u), p, t) == rows - {key};
        CountAfterRemove(rows, key, Name(k));
      } else {
        CountAfterSet(rows, key, Name(t), Name(k));
      }
  }

  /** A vote on one post leaves every other post's counts alone. */
  lemma OtherPostsUnchanged(rows: Table, myLikes: map<Id, Option<string>>, user: Option<Id>, p: Id, t: Kind, q: Id, s: string)
    requires q != p
    ensures VoteCount(AfterLike(rows, myLikes, user, p, t), q, s) == VoteCount(rows, q, s)
  {
    assert RowsOfType(AfterLike(rows, myLikes, user, p, t), q, s) == RowsOfType(rows, q, s);
  }

  /** From no vote, `handleLike(p, t)` inserts a row (one more vote of kind
      `t`); repeating it after the refetch deletes that row, which restores
      the table, and so every count, and leaves no vote. */
  lemma ToggleTwice(rows: Table, view1: map<Id, Option<string>>, view2: map<Id, Option<string>>, u: Id, p: Id, t: Kind)
    requires (p, u) !in rows
    requires Current(view1, rows, p, u)
    requires Current(view2, AfterLike(rows, view1, Some(u), p, t), p, u)
    ensures var once := AfterLike(rows, view1, Some(u), p, t);
      && VoteCount(once, p, Name(t)) == VoteCount(rows, p, Name(t)) + 1
      && MyVote(once, p, u) == Some(Name(t))
      && AfterLike(once, view2, Some(u), p, t) == rows
      && MyVote(AfterLike(once, view2, Some(u), p, t), p, u) == None
  {
    var once := AfterLike(rows, view1, Some(u), p, t);
    assert once == rows[(p, u) := Name(t)];
    CountAfterSet(rows, (p, u), Name(t), Name(t));
    assert once - {(p, u)} == rows;
  }

  /** Switching an existing vote to the other kind moves one vote from that
      kind to the requested one, so their sum is unchanged. */
  lemma SwitchKeepsTotal(rows: Table, myLikes: map<Id, Option<string>>, u: Id, p: Id, from: Kind, t: Kind)
    requires WellTyped(rows) && Current(myLikes, rows, p, u)
    requires VoteOf(rows, p, u) == Some(from) && from != t
    ensures var after := AfterLike(rows, myLikes, Some(u), p, t);
      && VoteCount(after, p, Name(from)) == VoteCount(rows, p, Name(from)) - 1
      && VoteCount(after, p, Name(t)) == VoteCount(rows, p, Name(t)) + 1
      && VoteCount(after, p, "like") + VoteCount(after, p, "dislike")
         == VoteCount(rows, p, "like") + VoteCount(rows, p, "dislike")
  {
    NameInjective(from, t);
    assert rows[(p, u)] == Name(from);
    assert AfterLike(rows, myLikes, Some(u), p, t) == rows[(p, u) := Name(t)];
    CountAfterSet(rows, (p, u), Name(t), Name(from));
    CountAfterSet(rows, (p, u), Name(t), Name(t));
    CountAfterSet(rows, (p, u), Name(t), "like");
    CountAfterSet(rows, (p, u), Name(t), "dislike");
  }

  // ---------------------------------------------------------------------------
  // The table and the operations on it

  /** The `likes` table as the posts page writes to it. */
  class LikesTable {
    var rows: Table

    /** `insert({post_id, user_id, type})`; the key rejects a second row. */
    method Insert(p: Id, u: Id, t: string) returns (ok: bool)
      modifies this
      ensures ok <==> (p, u) !in old(rows)
      ensures rows == if ok then old(rows)[(p, u) := t] else old(rows)
    {
      ok := (p, u) !in rows;
      if ok {
        rows := rows[(p, u) := t];
      }
    }

    /** `update({type}).eq("post_id", p).eq("user_id", u)`. */
    method Update(p: Id, u: Id, t: string)
      modifies this
      ensures rows == if (p, u) in old(rows) then old(rows)[(p, u) := t] else old(rows)
    {
      if (p, u) in rows {
        rows := rows[(p, u) := t];
      }
    }

    /** `delete().eq("post_id", p).eq("user_id", u)`. */
    method Delete(p: Id, u: Id)
      modifies this
      ensures rows == old(rows) - {(p, u)}
    {
      rows := rows - {(p, u)};
    }
  }

  /** `handleLike(postId, type)`: nothing without a user; otherwise one
      delete, update or insert, chosen on the page's view `myLikes`. */
  method HandleLike(table: LikesTable, myLikes: map<Id, Option<string>>, user: Option<Id>, postId: Id, t: Kind)
    modifies table
    ensures table.rows == AfterLike(old(table.rows), myLikes, user, postId, t)
    ensures WellTyped(old(table.rows)) ==> WellTyped(table.rows)
  {
    if user.None? {
      return;
    }
    var u := user.value;
    var myType := if postId in myLikes then myLikes[postId] else None;
    if myType == Some(Name(t)) {
      table.Delete(postId, u);
    } else if myType.Some? && myType.value != "" {
      table.Update(postId, u, Name(t));
    } else {
      var _ := table.Insert(postId, u, Name(t));
    }
  }

  /** `fetchMyLikes(posts, user)`: nothing without a user; otherwise, for
      every listed post, the user's vote on it or null. */
  method FetchMyLikes(postIds: seq<Id>, user: Option<Id>, rows: Table) returns (r: Option<map<Id, Option<string>>>)
    ensures r.None? <==> user.None?
    ensures r.Some? ==> r.value.Keys == Elements(postIds)
    ensures r.Some? ==> forall p :: p in r.value ==> r.value[p] == MyVote(rows, p, user.value)
  {
    if user.None? {
      return None;
    }
    var u := user.value;
    var likeMap: map<Id, Option<string>> := map[];
    for i := 0 to |postIds|
      invariant likeMap.Keys == Elements(postIds[..i])
      invariant forall p :: p in likeMap ==> likeMap[p] == MyVote(rows, p, u)
    {
      assert postIds[..i + 1] == postIds[..i] + [postIds[i]];
      var p := postIds[i];
      var found := if (p, u) in rows then Some(rows[(p, u)]) else None;
      likeMap := likeMap[p := if found.Some? && found.value != "" then found else None];
    }
    assert postIds[..|postIds|] == postIds;
    return Some(likeMap);
  }

  /** After `fetchMyLikes` the page's view is current for every listed post. */
  lemma FetchedViewIsCurrent(postIds: seq<Id>, u: Id, rows: Table, likeMap: map<Id, Option<string>>, p: Id)
    requires likeMap.Keys == Elements(postIds)
    requires forall q :: q in likeMap ==> likeMap[q] == MyVote(rows, q, u)
    ensures p in postIds ==> Current(likeMap, rows, p, u)
  {
  }
}
