# Community board posts page — a Dafny model

This project models the data logic of the posts page of a small community
board (`src/app/posts/page.tsx`). Posts, comments and likes are stored in a
hosted database. The page fetches a post list with comment, like and dislike
counts. It fetches each post's comments and turns each post's flat comment
list into reply threads. It also toggles a user's like or dislike on a post.

The model has five modules:

- `Records` (`records.dfy`): the comment record, `Option`, and the sequence
  predicates the comment lemmas share: unique ids, creation order, and
  "sublist in order" (`IsSubseq`).
- `CommentTree` (`comment_tree.dfy`): `buildCommentTree`. The index pass
  and the placing pass are imperative methods. Each is proved against the
  declarative forest `CommentForest`. The properties of the tree are lemmas
  about that function.
- `CommentBuckets` (`comment_buckets.dfy`): the per-post bucketing of the
  fetched comments in `fetchComments`.
- `Votes` (`votes.dfy`): the `likes` table as a class whose rows a map
  holds. `handleLike` is a method over that table. `fetchMyLikes` is a loop
  building the page's "my vote" map. This module also holds the vote
  transition table and the count lemmas.
- `PostList` (`post_list.dfy`): the owner filter and the count projection
  of `fetchPosts`. It also shows that the projected counts are the table's
  counts.

## How the source's behaviour is modelled

- **The comment tree.** The builder's result is a graph of node objects.
  `Forest` models that graph by id:
  - `nodes` maps each indexed id to its comment;
  - `roots` lists root ids;
  - `children[id]` lists the ids pushed into that node's `children` array.
  Two comments with the same id share one node. That node holds the later
  comment, because the index assignment overwrites. The model reproduces
  this aliasing exactly.
- **The attach test.** `c.parent_id && map[c.parent_id]` becomes
  `Attached`. The parent id must be present, non-empty, and indexed.
- **Creation times.** `createdAt` is an abstract integer ordered the way the
  database orders `created_at`.
- **The likes table.** It is a map from `(post_id, user_id)` to the `type`
  text, so there is at most one row per key.
  - Delete and update of a missing row change nothing.
  - An insert on an existing key is rejected. This is the key constraint
    that enforces one vote per user and post.
- **Truthiness.** `myType` truthiness means "present and not the empty
  string".
- **`fetchMyLikes`.** `found?.type || null` reports null for a missing row
  and for an empty type.
- **Queries.** Database queries become parameters: the rows they return, or
  the table the query reads.

## Model

| member | source | states |
|---|---|---|
| CommentTree.IndexById | src/app/posts/page.tsx:175-177 | The first pass indexes every comment under its id, and the later of two comments with the same id wins (`NodesOf`). Every indexed id starts with an empty child list. |
| CommentTree.Attached | src/app/posts/page.tsx:179 | The guard `c.parent_id && map[c.parent_id]`: it holds only for a present parent id that is indexed, and never for a null or empty one. |
| CommentTree.BuildCommentTree | src/app/posts/page.tsx:174-186 | The two passes build exactly `CommentForest(list)`: the index, the root list and every child list. An empty input gives no roots and no nodes. |
| CommentTree.IndexStep | src/app/posts/page.tsx:177 | Indexing one more comment sets its id's entry to it, replacing any earlier comment with that id, and adds its id to the indexed ids. |
| CommentTree.PlaceStep | src/app/posts/page.tsx:178-184 | Placing one more comment pushes its id onto its parent's child list when the parent is attached, and onto `roots` otherwise. No other list changes. |
| CommentTree.LastWithId | src/app/posts/page.tsx:177 | The node under an id holds a comment of the list that carries that id. |
| CommentTree.IdSet | src/app/posts/page.tsx:177 | Every comment's id is indexed. |
| CommentTree.NotInIdSet | src/app/posts/page.tsx:177 | An id that no comment carries is not indexed. |
| CommentTree.PlacedFromList | src/app/posts/page.tsx:178-184 | Only ids of the input are ever placed. |
| CommentTree.PlacedExactlyOnce | src/app/posts/page.tsx:178-184 | With unique ids, each comment's id occurs once in the slot its parent test chooses, and in no other slot. |
| CommentTree.PlacedContains | src/app/posts/page.tsx:178-184 | Each comment's id is in the slot its parent test chooses. |
| CommentTree.ChildTotalStep | src/app/posts/page.tsx:179-180 | One more comment adds one child reference exactly when it attaches to a listed parent. |
| CommentTree.NoChildrenOfEmpty | src/app/posts/page.tsx:177 | Before any placing, no node has children. |
| CommentTree.PlacementTotal | src/app/posts/page.tsx:178-184 | Each iteration pushes exactly once: roots plus all child references equal the input length. |
| CommentTree.ChildCountIsTotal | src/app/posts/page.tsx:178-184 | The forest's child count over indexed ids is the declarative child total. |
| CommentTree.ForestPlacementTotal | src/app/posts/page.tsx:174-186 | The built forest holds as many references (roots plus children over all nodes) as there are input comments, duplicates included. |
| CommentTree.ForestExactlyOnce | src/app/posts/page.tsx:174-186 | With unique ids every comment is referenced exactly once: from `roots` if unattached, otherwise from its parent's children only. |
| CommentTree.DanglingIsRoot | src/app/posts/page.tsx:179-182 | A comment with no parent, an empty parent id, or a parent absent from the list becomes a root. |
| CommentTree.AttachedIsChild | src/app/posts/page.tsx:179-180 | A comment whose parent is in the list is among that parent's children. |
| CommentTree.SelfParentedIsNoRoot | src/app/posts/page.tsx:179-180 | There is no cycle check: a comment that names itself as parent becomes its own child and is not a root. |
| CommentTree.PlacedInOrder | src/app/posts/page.tsx:178-184 | Every slot lists its ids in input order. |
| CommentTree.ForestInOrder | src/app/posts/page.tsx:174-186 | The roots and every child list are sublists, in order, of the input's ids. |
| CommentTree.PlacedBounded | src/app/posts/page.tsx:178-184 | Placed ids name indexed nodes within the input's creation-time bound. |
| CommentTree.PlacedSorted | src/app/posts/page.tsx:178-184 | Placement keeps the ascending creation order of the input. |
| CommentTree.NodeOfUnique | src/app/posts/page.tsx:177 | With unique ids the node under a comment's id is that comment. |
| CommentTree.ForestSiblingsSorted | src/app/posts/page.tsx:174-186 | For input with unique ids in ascending creation order, the roots and every child list are in non-decreasing creation order. |
| CommentTree.ReachableMonotone | src/app/posts/page.tsx:174-186 | Reachability within j steps implies reachability within any k ≥ j steps. |
| CommentTree.EveryCommentReachable | src/app/posts/page.tsx:174-186 | When every attached parent occurs earlier in the list (a sufficient condition, stronger than acyclicity), every comment is reachable from a root. |
| CommentTree.ScenarioReplyToRoot | src/app/posts/page.tsx:174-186 | Roots A and B with C replying to A give roots [A, B], A's children [C], and no children for B or C. |
| CommentTree.ScenarioGhostParent | src/app/posts/page.tsx:179-182 | A reply to a parent missing from the list is kept as a root. |
| Records.Ids | src/app/posts/page.tsx:174-186 | The id list matches the comment list position by position. |
| Records.SubseqMembers | src/app/posts/page.tsx:174-186 | Every element of an in-order sublist is in the list. |
| Records.SubseqOfSorted | src/app/posts/page.tsx:96 | A sublist of a list in ascending creation order is in ascending creation order. |
| Records.SubseqOfUnique | src/app/posts/page.tsx:97-101 | A sublist of a list with unique ids has unique ids. |
| CommentBuckets.FetchComments | src/app/posts/page.tsx:90-103 | No post ids: returns without touching the comment state. Otherwise every requested post gets a bucket and no other key does, and each bucket holds exactly that post's fetched comments in fetch order. |
| CommentBuckets.OfPost | src/app/posts/page.tsx:97-101 | A bucket's contents: only comments of the data that belong to the post, and no more of them than the data holds. |
| CommentBuckets.OfPostStep | src/app/posts/page.tsx:99-101 | One more fetched comment is appended to its own post's bucket and to no other. |
| CommentBuckets.BucketCounts | src/app/posts/page.tsx:97-101 | Each fetched comment occurs in its own post's bucket as often as in the data, and in no other bucket. |
| CommentBuckets.BucketInOrder | src/app/posts/page.tsx:96-101 | A bucket is an in-order sublist of the fetched data. |
| CommentBuckets.ThreadsSorted | src/app/posts/page.tsx:96-101 | Bucketing the ascending query result and building each post's tree gives sibling lists in non-decreasing creation order. |
| Votes.Name | src/app/posts/page.tsx:189 | Like is spelled "like" and Dislike "dislike". |
| Votes.NameInjective | src/app/posts/page.tsx:189 | Distinct kinds have distinct spellings. |
| Votes.MyVote | src/app/posts/page.tsx:60-61 | The reported vote is the row's type when a row with a non-empty type exists, and null otherwise. |
| Votes.MyVoteIsVoteOf | src/app/posts/page.tsx:60-61 | On a well-typed table the reported vote is the three-state vote (none, like, dislike) spelled out. |
| Votes.Mine | src/app/posts/page.tsx:192 | `myLikes[postId]`: the page's entry for the post, and null for a post the page has no entry for. |
| Votes.AfterLike | src/app/posts/page.tsx:189-199 | No user: the table is unchanged. Otherwise only the row of (post, user) can change, in both directions, and a well-typed table stays well-typed. |
| Votes.VoteRoundTrip | src/app/posts/page.tsx:192-199 | The transition table when the page's view is current: a vote of the same kind is cancelled, and otherwise the requested kind becomes the vote. |
| Votes.VoteCountsBound | src/app/posts/page.tsx:81-82 | Likes plus dislikes on a post never exceed its rows, with equality on a well-typed table. |
| Votes.CountAfterSet | src/app/posts/page.tsx:196-198 | Writing one row changes each count of its post by the old row's contribution and the new row's. |
| Votes.CountAfterRemove | src/app/posts/page.tsx:194 | Deleting one row lowers only the count of that row's type, by one. |
| Votes.CountsFollowVote | src/app/posts/page.tsx:192-199 | After the toggle, each kind's count is the old count minus the old vote's contribution plus the new vote's. |
| Votes.OtherPostsUnchanged | src/app/posts/page.tsx:194-198 | A vote on one post leaves every other post's counts alone. |
| Votes.ToggleTwice | src/app/posts/page.tsx:192-201 | From no vote, the first toggle adds one vote of the kind. The second, after the refetch, restores the table exactly and leaves no vote. |
| Votes.SwitchKeepsTotal | src/app/posts/page.tsx:195-196 | Switching to the other kind moves one vote from the old kind to the new one, so likes plus dislikes stay the same. |
| Votes.LikesTable.Insert | src/app/posts/page.tsx:198 | Adds the row when the key is free, and is rejected (changing nothing) when it is taken. |
| Votes.LikesTable.Update | src/app/posts/page.tsx:196 | Sets the type of the row on (post, user) if there is one, and changes nothing otherwise. |
| Votes.LikesTable.Delete | src/app/posts/page.tsx:194 | Removes the row on (post, user), if any, and nothing else. |
| Votes.HandleLike | src/app/posts/page.tsx:189-202 | The table afterwards is `AfterLike` of the table before: one delete, update or insert, chosen on the page's view. A well-typed table stays well-typed. |
| Votes.FetchMyLikes | src/app/posts/page.tsx:51-64 | No user: returns without a map. Otherwise the map has exactly the listed posts as keys, and each value is the user's vote on that post or null. |
| Votes.FetchedViewIsCurrent | src/app/posts/page.tsx:58-63 | After the fetch, the page's view agrees with the table for every listed post. |
| PostList.CountType | src/app/posts/page.tsx:81-82 | Filtering by a type and taking the length gives that type's multiplicity. |
| PostList.Project | src/app/posts/page.tsx:78-83 | The row is kept. The comment count is the joined list's length, or 0 if missing. Like and dislike counts are the multiplicities of "like" and "dislike" among the joined types, or 0 if missing. |
| PostList.TwoTypesBounded | src/app/posts/page.tsx:81-82 | Two different types together are counted at most once per joined row. |
| PostList.CountsBounded | src/app/posts/page.tsx:81-82 | Likes plus dislikes never exceed the joined vote rows. |
| PostList.OwnerFilter | src/app/posts/page.tsx:72-74 | Without "mine only" or without a user, the list is unfiltered. Otherwise it is an in-order sublist holding exactly the posts owned by the user, each as often as in the query result. |
| PostList.FetchPosts | src/app/posts/page.tsx:67-87 | A failed query gives nothing. Otherwise it gives, in query order, the projection of every post the owner filter keeps. |
| PostList.TypesOf | src/app/posts/page.tsx:70 | The joined `likes(type)` list has one entry per joined row. |
| PostList.KeysOfTypeStep | src/app/posts/page.tsx:81-82 | One more distinct joined row adds one key of its type. |
| PostList.CountTypesOf | src/app/posts/page.tsx:81-82 | Over distinct rows, counting joined types counts rows of that type. |
| PostList.JoinedCountsAreTableCounts | src/app/posts/page.tsx:70-82 | When the join lists each of the post's table rows once, the projected like and dislike counts equal the table's counts. |

## Left out

- Database round trips, authentication and React state are not modelled. Query results are parameters. The state setters `setPosts`, `setComments` and `setMyLikes` become the values `FetchPosts`, `FetchComments` and `FetchMyLikes` return. The loading flags (`setLoading`, `setLikeLoading`) are UI state and are dropped.
- Asynchronous interleavings are not modelled: concurrent toggles, a refetch racing with a write, and the stale `user` closure read in `fetchPosts` (line 85).
- Server-side ordering is not modelled. The model takes the query result in the order it arrives; ascending creation order is a precondition of the sortedness lemmas.
- The `profiles(username)` joins, and all rendering, including the recursive comment component, are not modelled.
- `handleCreate`, `handleDelete`, `handleComment` and `handleDeleteComment` are not modelled: each is one database write followed by the refetches modelled here.
- The auth, login, signup, profile and layout pages are not part of this model, and neither is `src/app/posts/[id]/page.tsx`.
- CommentTree.BuildCommentTree: there is no cycle detection, as in the source, so a reply cycle is neither detected nor broken. The model proves reachability of every comment under a sufficient condition, `ParentsPrecede` (every parent is listed before its replies, as the creation-ordered query gives them); this is stronger than acyclicity, and reachability under acyclicity alone is not proved.
- CommentTree.BuildCommentTree: keys that a plain object inherits from its prototype (such as `constructor`) are not modelled; the index is modelled as a map holding exactly the assigned keys.
- PostList.Project: comments_count equals the post's comment count only if the join lists the comments. The query asks for `comments(count)` (line 70), which the hosted service returns as a single count row, so the page plausibly shows 1 for every post whatever its comments. The model leaves the join's elements opaque (`JoinRow`) and counts the list's length, as the code at line 80 does.
- Votes.FetchMyLikes: a failed likes query (null `data`) is not modelled. It would report null for every post; the model reads the table instead.
- Votes.HandleLike: the refetch at line 201 is not modelled inside the method. It corresponds to the `Current` view that `ToggleTwice` takes for the second call.
- Votes.HandleLike: a failed write is not modelled; each write is taken to succeed, except the rejected duplicate-key insert. The source ignores the error these writes return (lines 194-198).
- Votes.LikesTable.Insert: the rejection of a second row for the same (post, user) key stands for the table's uniqueness constraint, whose schema is not part of this model.
