/** The post list of `fetchPosts`: the owner filter on the query and the
    projection that attaches comment, like and dislike counts to each post. */
module PostList {
  import opened Records
  import Votes

  /** One element of the `comments(count)` join, whatever the service puts
      there: the page only takes the length of that list. */
  type JoinRow(==, !new)

  /** A row of the posts query with its joins: `comments` is the list the
      `comments(count)` join returns, and `likes` the `type` of each joined
      vote row; either is null (None) when the service omits it. */
  datatype PostRow = PostRow(
    id: Id,
    userId: Id,
    title: string,
    content: string,
    createdAt: int,
    comments: Option<seq<JoinRow>>,
    likes: Option<seq<string>>)

  /** A post as the page shows it: the row with its counts attached. */
  datatype PostView = PostView(post: PostRow, commentsCount: nat, likesCount: nat, dislikesCount: nat)

  /** `likes.filter(l => l.type === s).length`. */
  function CountType(types: seq<string>, s: string): (n: nat)
    ensures n == multiset(types)[s]
  {
    if types == [] then 0
    else
      var init := types[..|types| - 1];
      assert types == init + [types[|types| - 1]];
      CountType(init, s) + (if types[|types| - 1] == s then 1 else 0)
  }

  /** The counts of one post. */
  function Project(post: PostRow): (v: PostView)
    ensures v.post == post
    ensures post.comments.None? ==> v.commentsCount == 0
    ensures post.comments.Some? ==> v.commentsCount == |post.comments.value|
    ensures post.likes.None? ==> v.likesCount == 0 && v.dislikesCount == 0
    ensures post.likes.Some? ==> v.likesCount == multiset(post.likes.value)["like"]
    ensures post.likes.Some? ==> v.dislikesCount == multiset(post.likes.value)["dislike"]
  {
    PostView(
      post,
      if post.comments.Some? then |post.comments.value| else 0,
      if post.likes.Some? then CountType(post.likes.value, "like") else 0,
      if post.likes.Some? then CountType(post.likes.value, "dislike") else 0)
  }

  /** Two different types together are counted at most once per row. */
  lemma {:induction false} TwoTypesBounded(types: seq<string>, a: string, b: string)
    requires a != b
    ensures CountType(types, a) + CountType(types, b) <= |types|
  {
    if types != [] {
      TwoTypesBounded(types[..|types| - 1], a, b);
    }
  }

  /** Likes and dislikes together never exceed the joined vote rows. */
  lemma CountsBounded(post: PostRow)
    requires post.likes.Some?
    ensures Project(post).likesCount + Project(post).dislikesCount <= |post.likes.value|
  {
    TwoTypesBounded(post.likes.value, "like", "dislike");
  }

  /** The owner filter of the query: only when "mine only" is asked for and
      there is a user. */
  function OwnerFilter(posts: seq<PostRow>, onlyMine: bool, user: Option<Id>): (r: seq<PostRow>)
    ensures !(onlyMine && user.Some?) ==> r == posts
    ensures onlyMine && user.Some? ==> IsSubseq(r, posts)
    ensures onlyMine && user.Some? ==> forall x :: x in r <==> x in posts && x.userId == user.value
    ensures onlyMine && user.Some? ==>
      forall x :: multiset(r)[x] == if x.userId == user.value then multiset(posts)[x] else 0
  {
    if !(onlyMine && user.Some?) || posts == [] then posts
    else
      var init := OwnerFilter(posts[..|posts| - 1], onlyMine, user);
      var last := posts[|posts| - 1];
      assert posts == posts[..|posts| - 1] + [last];
      if last.userId == user.value then init + [last] else init
  }

  /** `fetchPosts`: on a failed query the page keeps its list (None);
      otherwise every row the filter keeps is projected, in query order. */
  function FetchPosts(posts: seq<PostRow>, failed: bool, onlyMine: bool, user: Option<Id>): (r: Option<seq<PostView>>)
    ensures r.None? <==> failed
    ensures r.Some? ==> |r.value| == |OwnerFilter(posts, onlyMine, user)|
    ensures r.Some? ==> forall i :: 0 <= i < |r.value| ==> r.value[i] == Project(OwnerFilter(posts, onlyMine, user)[i])
  {
    if failed then None
    else
      var kept := OwnerFilter(posts, onlyMine, user);
      Some(seq(|kept|, i requires 0 <= i < |kept| => Project(kept[i])))
  }

  // ---------------------------------------------------------------------------
  // The joined vote rows against the likes table

  /** The `type` of each listed row of the table. */
  function TypesOf(rows: Votes.Table, ks: seq<(Id, Id)>): (r: seq<string>)
    requires forall k :: k in ks ==> k in rows
    ensures |r| == |ks|
  {
    if ks == [] then [] else TypesOf(rows, ks[..|ks| - 1]) + [rows[ks[|ks| - 1]]]
  }

  function KeysOfType(rows: Votes.Table, ks: seq<(Id, Id)>, s: string): set<(Id, Id)>
    requires forall k :: k in ks ==> k in rows
  {
    set k | k in ks && rows[k] == s
  }

  lemma KeysOfTypeStep(rows: Votes.Table, ks: seq<(Id, Id)>, s: string)
    requires forall k :: k in ks ==> k in rows
    requires ks != [] && ks[|ks| - 1] !in ks[..|ks| - 1]
    ensures |KeysOfType(rows, ks, s)|
         == |KeysOfType(rows, ks[..|ks| - 1], s)| + (if rows[ks[|ks| - 1]] == s then 1 else 0)
  {
    var init, last := ks[..|ks| - 1], ks[|ks| - 1];
    assert ks == init + [last];
    var before := KeysOfType(rows, init, s);
    if rows[last] == s {
      assert KeysOfType(rows, ks, s) == before + {last};
    } else {
      assert KeysOfType(rows, ks, s) == before;
    }
  }

  /** Over distinct keys, counting the listed types counts the keys of that type. */
  lemma {:induction false} CountTypesOf(rows: Votes.Table, ks: seq<(Id, Id)>, s: string)
    requires forall k :: k in ks ==> k in rows
    requires Distinct(ks)
    ensures CountType(TypesOf(rows, ks), s) == |KeysOfType(rows, ks, s)|
  {
    if ks != [] {
      var init := ks[..|ks| - 1];
      assert Distinct(init);
      CountTypesOf(rows, init, s);
      KeysOfTypeStep(rows, ks, s);
      var t := TypesOf(rows, ks);
      assert t[..|t| - 1] == TypesOf(rows, init);
    }
  }

  /** When the join lists each of the table's rows on the post once, the
      projected counts are the table's counts. */
  lemma JoinedCountsAreTableCounts(post: PostRow, rows: Votes.Table, ks: seq<(Id, Id)>)
    requires forall k :: k in ks ==> k in rows
    requires Distinct(ks) && Elements(ks) == Votes.VotersOn(rows, post.id)
    requires post.likes == Some(TypesOf(rows, ks))
    ensures Project(post).likesCount == Votes.VoteCount(rows, post.id, "like")
    ensures Project(post).dislikesCount == Votes.VoteCount(rows, post.id, "dislike")
  {
    CountTypesOf(rows, ks, "like");
    CountTypesOf(rows, ks, "dislike");
    forall t: string | t == "like" || t == "dislike"
      ensures KeysOfType(rows, ks, t) == Votes.RowsOfType(rows, post.id, t)
    {
      forall k ensures k in KeysOfType(rows, ks, t) <==> k in Votes.RowsOfType(rows, post.id, t) {
        var listed := Elements(ks);
        if k in ks {
          assert k in listed;
          assert k in Votes.VotersOn(rows, post.id);
        }
        if k in Votes.RowsOfType(rows, post.id, t) {
          assert k in Votes.VotersOn(rows, post.id);
          assert k in listed;
        }
      }
    }
  }
}
