/** The per-post bucketing of `fetchComments`: the fetched comments, in the
    order the query returns them, are split into one list per requested post. */
module CommentBuckets {
  import opened Records
  import CommentTree

  /** The comments of `data` that belong to post `p`, in fetch order. */
  function OfPost(data: seq<Comment>, p: Id): (r: seq<Comment>)
    ensures |r| <= |data|
    ensures forall c :: c in r ==> c in data && c.postId == p
  {
    if data == [] then []
    else
      var c := data[|data| - 1];
      OfPost(data[..|data| - 1], p) + (if c.postId == p then [c] else [])
  }

  lemma OfPostStep(data: seq<Comment>, j: int, p: Id)
    requires 0 <= j < |data|
    ensures OfPost(data[..j + 1], p) == OfPost(data[..j], p) + (if data[j].postId == p then [data[j]] else [])
  {
    assert data[..j + 1][..j] == data[..j];
  }

  /** `fetchComments` on the query result `data`. With no post ids it returns
      early and leaves the page's comment state alone (None); otherwise every
      requested post gets a bucket, and the bucket holds that post's comments
      in fetch order. */
  method FetchComments(postIds: seq<Id>, data: seq<Comment>) returns (r: Option<map<Id, seq<Comment>>>)
    ensures r.None? <==> postIds == []
    ensures r.Some? ==> r.value.Keys == Elements(postIds)
    ensures r.Some? ==> forall p :: p in r.value ==> r.value[p] == OfPost(data, p)
  {
    if |postIds| == 0 {
      return None;
    }
    var buckets: map<Id, seq<Comment>> := map[];
    for i := 0 to |postIds|
      invariant buckets.Keys == Elements(postIds[..i])
      invariant forall p :: p in buckets ==> buckets[p] == []
    {
      assert postIds[..i + 1] == postIds[..i] + [postIds[i]];
      buckets := buckets[postIds[i] := []];
    }
    assert postIds[..|postIds|] == postIds;
    for j := 0 to |data|
      invariant buckets.Keys == Elements(postIds)
      invariant forall p :: p in buckets ==> buckets[p] == OfPost(data[..j], p)
    {
      var c := data[j];
      forall p | p in buckets
        ensures OfPost(data[..j + 1], p) == OfPost(data[..j], p) + (if c.postId == p then [c] else [])
      {
        OfPostStep(data, j, p);
      }
      if c.postId in buckets {
        buckets := buckets[c.postId := buckets[c.postId] + [c]];
      }
    }
    assert data[..|data|] == data;
    return Some(buckets);
  }

  /** Each fetched comment lands in the bucket of its own post, every copy
      of it, and in no other bucket; a comment of an unrequested post is in
      no bucket at all. */
  lemma {:induction false} BucketCounts(data: seq<Comment>, p: Id, c: Comment)
    ensures multiset(OfPost(data, p))[c] == if c.postId == p then multiset(data)[c] else 0
  {
    if data != [] {
      var init := data[..|data| - 1];
      BucketCounts(init, p, c);
      assert data == init + [data[|data| - 1]];
    }
  }

  /** A bucket lists its comments in fetch order. */
  lemma {:induction false} BucketInOrder(data: seq<Comment>, p: Id)
    ensures IsSubseq(OfPost(data, p), data)
  {
    if data != [] {
      var init := data[..|data| - 1];
      BucketInOrder(init, p);
      var a := OfPost(data, p);
      if data[|data| - 1].postId == p {
        assert a[..|a| - 1] == OfPost(init, p);
      } else {
        assert a == OfPost(init, p);
      }
    }
  }

  /** Bucketing the ascending query result and building each post's tree
      gives sibling groups in non-decreasing creation order. */
  lemma ThreadsSorted(data: seq<Comment>, p: Id)
    requires UniqueIds(data) && SortedByCreation(data)
    ensures var f := CommentTree.CommentForest(OfPost(data, p));
      && CommentTree.SortedIds(f.nodes, f.roots)
      && forall q :: q in f.children ==> CommentTree.SortedIds(f.nodes, f.children[q])
  {
    BucketInOrder(data, p);
    SubseqOfSorted(OfPost(data, p), data);
    SubseqOfUnique(OfPost(data, p), data);
    CommentTree.ForestSiblingsSorted(OfPost(data, p));
  }
}
