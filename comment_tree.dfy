/** The comment tree builder of the posts page (`buildCommentTree`): a flat
    list of one post's comments becomes a forest of reply trees.

    The builder's result is a graph of node objects: the index maps each id to
    a node (a copy of the comment plus a `children` array), and `roots` and the
    `children` arrays hold references to indexed nodes. `Forest` models that
    graph by id: `nodes[id]` is the comment of the node indexed under `id`,
    `roots` lists the ids of the root nodes, and `children[id]` lists the ids of
    that node's children. Two comments with the same id share one node, the
    later one, exactly as the index does. */
module CommentTree {
  import opened Records

  datatype Forest = Forest(
    nodes: map<Id, Comment>,
    roots: seq<Id>,
    children: map<Id, seq<Id>>)
  {
    /** The total number of child references held by the nodes listed in `ps`. */
    function ChildCount(ps: seq<Id>): nat {
      if ps == [] then 0
      else (if ps[0] in children then |children[ps[0]]| else 0) + ChildCount(ps[1..])
    }
  }

  /** Where the second pass puts a comment: into `roots`, or into the
      `children` of the node indexed under `parent`. */
  datatype Slot = Root | ChildOf(parent: Id)

  /** The ids the first pass indexes. */
  function IdSet(l: seq<Comment>): (r: set<Id>)
    ensures forall i :: 0 <= i < |l| ==> l[i].id in r
  {
    if l == [] then {} else IdSet(l[..|l| - 1]) + {l[|l| - 1].id}
  }

  /** The guard `c.parent_id && map[c.parent_id]`: the parent id is present,
      not empty, and names an indexed comment. */
  predicate Attached(c: Comment, index: set<Id>): (r: bool)
    ensures r ==> c.parentId.Some? && c.parentId.value in index
    ensures c.parentId.None? || c.parentId == Some("") ==> !r
  {
    c.parentId.Some? && c.parentId.value != "" && c.parentId.value in index
  }

  function SlotOf(c: Comment, index: set<Id>): Slot {
    if Attached(c, index) then ChildOf(c.parentId.value) else Root
  }

  /** The ids of the comments of `l` whose slot is `s`, in list order: the
      declarative description of what the second pass pushes into `s`. */
  function Placed(l: seq<Comment>, index: set<Id>, s: Slot): seq<Id> {
    if l == [] then []
    else
      var c := l[|l| - 1];
      Placed(l[..|l| - 1], index, s) + (if SlotOf(c, index) == s then [c.id] else [])
  }

  /** The comment the first pass leaves indexed under `id`: the last one with
      that id, since each assignment to `map[c.id]` replaces the previous. */
  function LastWithId(l: seq<Comment>, id: Id): (r: Comment)
    requires id in IdSet(l)
    ensures r.id == id && r in l
  {
    var c := l[|l| - 1];
    if c.id == id then c else LastWithId(l[..|l| - 1], id)
  }

  /** The index the first pass builds: each id with its last comment. */
  function NodesOf(l: seq<Comment>): map<Id, Comment> {
    map id | id in IdSet(l) :: LastWithId(l, id)
  }

  /** The child lists the second pass builds over the index `index`. */
  function ChildrenOf(l: seq<Comment>, index: set<Id>): map<Id, seq<Id>> {
    map id | id in index :: Placed(l, index, ChildOf(id))
  }

  /** The forest described declaratively: every indexed id gets a node, and
      every comment is referenced from the slot `SlotOf` gives it. */
  function CommentForest(l: seq<Comment>): Forest {
    Forest(NodesOf(l), Placed(l, IdSet(l), Root), ChildrenOf(l, IdSet(l)))
  }

  /** How the index grows by one comment: its entry is set, replacing any
      earlier comment with the same id. */
  lemma IndexStep(l: seq<Comment>, i: int)
    requires 0 <= i < |l|
    ensures IdSet(l[..i + 1]) == IdSet(l[..i]) + {l[i].id}
    ensures NodesOf(l[..i + 1]) == NodesOf(l[..i])[l[i].id := l[i]]
  {
    var l' := l[..i + 1];
    assert l'[..i] == l[..i];
    assert l'[|l'| - 1] == l[i];
    forall id | id in IdSet(l')
      ensures LastWithId(l', id) == if id == l[i].id then l[i] else LastWithId(l[..i], id)
    {
    }
  }

  /** How the placement grows by one comment: one push, into `roots` or into
      the parent's children. */
  lemma PlaceStep(l: seq<Comment>, i: int, index: set<Id>)
    requires 0 <= i < |l|
    ensures Placed(l[..i + 1], index, Root)
         == Placed(l[..i], index, Root) + (if Attached(l[i], index) then [] else [l[i].id])
    ensures ChildrenOf(l[..i + 1], index)
         == if Attached(l[i], index)
            then ChildrenOf(l[..i], index)[l[i].parentId.value := ChildrenOf(l[..i], index)[l[i].parentId.value] + [l[i].id]]
            else ChildrenOf(l[..i], index)
  {
    var l' := l[..i + 1];
    assert l'[..i] == l[..i];
    assert l'[|l'| - 1] == l[i];
    var before, after := ChildrenOf(l[..i], index), ChildrenOf(l', index);
    forall id | id in index
      ensures after[id] == before[id] + (if SlotOf(l[i], index) == ChildOf(id) then [l[i].id] else [])
    {
    }
    assert after.Keys == index == before.Keys;
    if Attached(l[i], index) {
      var p := l[i].parentId.value;
      var pushed := before[p := before[p] + [l[i].id]];
      forall id | id in index ensures after[id] == pushed[id] {
        assert SlotOf(l[i], index) == ChildOf(p);
      }
      assert after == pushed;
    } else {
      forall id | id in index ensures after[id] == before[id] {
        assert SlotOf(l[i], index) == Root;
      }
      assert after == before;
    }
  }

  /** The first pass of `buildCommentTree`: index every comment by id, each
      with an empty child list. */
  method IndexById(list: seq<Comment>) returns (nodes: map<Id, Comment>, children: map<Id, seq<Id>>)
    ensures nodes == NodesOf(list)
    ensures children == ChildrenOf([], IdSet(list))
  {
    nodes, children := map[], map[];
    var i := 0;
    assert list[..0] == [];
    while i < |list|
      invariant 0 <= i <= |list|
      invariant nodes == NodesOf(list[..i])
      invariant children == map id | id in IdSet(list[..i]) :: []
    {
      IndexStep(list, i);
      nodes := nodes[list[i].id := list[i]];
      children := children[list[i].id := []];
      i := i + 1;
    }
    assert list[..|list|] == list;
  }

  /** `buildCommentTree`: the indexing pass, then the placing pass, which
      attaches each comment to its parent's node or makes it a root. */
  method BuildCommentTree(list: seq<Comment>) returns (f: Forest)
    ensures f == CommentForest(list)
    ensures list == [] ==> f.roots == [] && f.nodes == map[]
  {
    var nodes, children := IndexById(list);
    ghost var index := IdSet(list);
    var roots: seq<Id> := [];
    var i := 0;
    assert list[..0] == [];
    while i < |list|
      invariant 0 <= i <= |list|
      invariant nodes.Keys == index
      invariant roots == Placed(list[..i], index, Root)
      invariant children == ChildrenOf(list[..i], index)
    {
      PlaceStep(list, i, index);
      var c := list[i];
      if c.parentId.Some? && c.parentId.value != "" && c.parentId.value in nodes {
        var p := c.parentId.value;
        children := children[p := children[p] + [c.id]];
      } else {
        roots := roots + [c.id];
      }
      i := i + 1;
    }
    assert list[..|list|] == list;
    f := Forest(nodes, roots, children);
  }

  // ---------------------------------------------------------------------------
  // Exactly-once placement

  /** An id carried by no comment of the list is not indexed. */
  lemma {:induction false} NotInIdSet(l: seq<Comment>, x: Id)
    requires forall k :: 0 <= k < |l| ==> l[k].id != x
    ensures x !in IdSet(l)
  {
    if l != [] {
      NotInIdSet(l[..|l| - 1], x);
    }
  }

  /** Only ids of the list are ever placed. */
  lemma {:induction false} PlacedFromList(l: seq<Comment>, index: set<Id>, s: Slot, x: Id)
    requires x !in IdSet(l)
    ensures multiset(Placed(l, index, s))[x] == 0
  {
    if l != [] {
      PlacedFromList(l[..|l| - 1], index, s, x);
    }
  }

  /** With unique ids, each comment's id is placed exactly once in the slot
      the comment belongs to and nowhere else. */
  lemma {:induction false} PlacedExactlyOnce(l: seq<Comment>, index: set<Id>, s: Slot, i: int)
    requires UniqueIds(l) && 0 <= i < |l|
    ensures multiset(Placed(l, index, s))[l[i].id] == if SlotOf(l[i], index) == s then 1 else 0
  {
    var init := l[..|l| - 1];
    if i == |l| - 1 {
      NotInIdSet(init, l[i].id);
      PlacedFromList(init, index, s, l[i].id);
    } else {
      assert UniqueIds(init) && init[i] == l[i];
      PlacedExactlyOnce(init, index, s, i);
    }
  }

  /** Each comment's id is referenced from the slot it belongs to. */
  lemma {:induction false} PlacedContains(l: seq<Comment>, index: set<Id>, i: int)
    requires 0 <= i < |l|
    ensures l[i].id in Placed(l, index, SlotOf(l[i], index))
  {
    if i < |l| - 1 {
      var init := l[..|l| - 1];
      assert init[i] == l[i];
      PlacedContains(init, index, i);
    }
  }

  /** The total number of child references over a duplicate-free list of keys. */
  function ChildTotal(l: seq<Comment>, index: set<Id>, ps: seq<Id>): nat {
    if ps == [] then 0 else |Placed(l, index, ChildOf(ps[0]))| + ChildTotal(l, index, ps[1..])
  }

  /** Appending one comment adds one child reference exactly when it is
      attached to a parent listed (once) in `ps`. */
  lemma {:induction false} ChildTotalStep(l: seq<Comment>, c: Comment, index: set<Id>, ps: seq<Id>)
    requires Distinct(ps)
    ensures ChildTotal(l + [c], index, ps)
         == ChildTotal(l, index, ps) + (if Attached(c, index) && c.parentId.value in ps then 1 else 0)
  {
    if ps != [] {
      assert (l + [c])[..|l + [c]| - 1] == l;
      assert Distinct(ps[1..]);
      ChildTotalStep(l, c, index, ps[1..]);
      if Attached(c, index) && c.parentId.value == ps[0] {
        assert c.parentId.value !in ps[1..];
      }
    }
  }

  lemma {:induction false} NoChildrenOfEmpty(index: set<Id>, ps: seq<Id>)
    ensures ChildTotal([], index, ps) == 0
  {
    if ps != [] {
      NoChildrenOfEmpty(index, ps[1..]);
    }
  }

  /** Every iteration of the placing pass pushes exactly once: over a
      duplicate-free listing of the indexed ids, roots plus child references
      add up to the input length. */
  lemma {:induction false} PlacementTotal(l: seq<Comment>, index: set<Id>, ps: seq<Id>)
    requires Distinct(ps) && Elements(ps) == index
    ensures |Placed(l, index, Root)| + ChildTotal(l, index, ps) == |l|
  {
    if l == [] {
      NoChildrenOfEmpty(index, ps);
    } else {
      var init := l[..|l| - 1];
      var c := l[|l| - 1];
      assert l == init + [c];
      PlacementTotal(init, index, ps);
      ChildTotalStep(init, c, index, ps);
      if Attached(c, index) {
        assert c.parentId.value in Elements(ps);
      }

    }
  }

  lemma {:induction false} ChildCountIsTotal(l: seq<Comment>, ps: seq<Id>)
    requires forall p :: p in ps ==> p in IdSet(l)
    ensures CommentForest(l).ChildCount(ps) == ChildTotal(l, IdSet(l), ps)
  {
    if ps != [] {
      ChildCountIsTotal(l, ps[1..]);
    }
  }

  /** The built forest holds exactly as many references as there are input
      comments, whatever the ids; in particular empty input gives no roots. */
  lemma ForestPlacementTotal(l: seq<Comment>, ps: seq<Id>)
    requires Distinct(ps) && Elements(ps) == IdSet(l)
    ensures |CommentForest(l).roots| + CommentForest(l).ChildCount(ps) == |l|
  {
    ChildCountIsTotal(l, ps);
    PlacementTotal(l, IdSet(l), ps);
  }

  /** With unique ids every input comment is referenced exactly once: from
      `roots` when it has no attached parent, otherwise from its parent's
      children, and from no other child list. */
  lemma ForestExactlyOnce(l: seq<Comment>, i: int)
    requires UniqueIds(l) && 0 <= i < |l|
    ensures var f := CommentForest(l);
      && multiset(f.roots)[l[i].id] == (if Attached(l[i], IdSet(l)) then 0 else 1)
      && forall p :: p in f.children ==>
           multiset(f.children[p])[l[i].id] == (if SlotOf(l[i], IdSet(l)) == ChildOf(p) then 1 else 0)
  {
    PlacedExactlyOnce(l, IdSet(l), Root, i);
    forall p | p in CommentForest(l).children
      ensures multiset(CommentForest(l).children[p])[l[i].id]
           == (if SlotOf(l[i], IdSet(l)) == ChildOf(p) then 1 else 0)
    {
      PlacedExactlyOnce(l, IdSet(l), ChildOf(p), i);
    }
  }

  /** A comment with no parent id, an empty one, or one naming an id absent
      from the input is a root: it is never dropped. */
  lemma DanglingIsRoot(l: seq<Comment>, i: int)
    requires 0 <= i < |l|
    requires l[i].parentId.None? || l[i].parentId.value == "" || l[i].parentId.value !in IdSet(l)
    ensures l[i].id in CommentForest(l).roots
  {
    PlacedContains(l, IdSet(l), i);
  }

  /** A comment whose parent is in the input is among that parent's children. */
  lemma AttachedIsChild(l: seq<Comment>, i: int)
    requires 0 <= i < |l| && Attached(l[i], IdSet(l))
    ensures l[i].parentId.value in CommentForest(l).children
    ensures l[i].id in CommentForest(l).children[l[i].parentId.value]
  {
    PlacedContains(l, IdSet(l), i);
  }

  /** No cycle detection: a comment naming itself as parent is put among its
      own children and, with unique ids, is not a root. */
  lemma SelfParentedIsNoRoot(l: seq<Comment>, i: int)
    requires UniqueIds(l) && 0 <= i < |l|
    requires l[i].parentId == Some(l[i].id) && l[i].id != ""
    ensures l[i].id in CommentForest(l).children[l[i].id]
    ensures l[i].id !in CommentForest(l).roots
  {
    PlacedContains(l, IdSet(l), i);
    PlacedExactlyOnce(l, IdSet(l), Root, i);
  }

  // ---------------------------------------------------------------------------
  // Order

  /** Every slot lists its comments in input order. */
  lemma {:induction false} PlacedInOrder(l: seq<Comment>, index: set<Id>, s: Slot)
    ensures IsSubseq(Placed(l, index, s), Ids(l))
  {
    if l != [] {
      var init := l[..|l| - 1];
      PlacedInOrder(init, index, s);
      var a := Placed(l, index, s);
      var b := Ids(l);
      assert b[..|b| - 1] == Ids(init);
      if SlotOf(l[|l| - 1], index) == s {
        assert a[..|a| - 1] == Placed(init, index, s);
      } else {
        assert a == Placed(init, index, s);
      }
    }
  }

  /** Roots and every child list are ordered as the input list is. */
  lemma ForestInOrder(l: seq<Comment>)
    ensures IsSubseq(CommentForest(l).roots, Ids(l))
    ensures forall p :: p in CommentForest(l).children ==> IsSubseq(CommentForest(l).children[p], Ids(l))
  {
    PlacedInOrder(l, IdSet(l), Root);
    forall p | p in CommentForest(l).children
      ensures IsSubseq(CommentForest(l).children[p], Ids(l))
    {
      PlacedInOrder(l, IdSet(l), ChildOf(p));
    }
  }

  /** The nodes named by `ids` all exist and are in non-decreasing creation order. */
  predicate SortedIds(nodes: map<Id, Comment>, ids: seq<Id>) {
    && (forall k :: 0 <= k < |ids| ==> ids[k] in nodes)
    && (forall i, j :: 0 <= i < j < |ids| ==> nodes[ids[i]].createdAt <= nodes[ids[j]].createdAt)
  }

  lemma {:induction false} PlacedBounded(l: seq<Comment>, index: set<Id>, s: Slot, nodes: map<Id, Comment>, bound: int)
    requires forall k :: 0 <= k < |l| ==> l[k].id in nodes && nodes[l[k].id].createdAt <= bound
    ensures forall x :: x in Placed(l, index, s) ==> x in nodes && nodes[x].createdAt <= bound
  {
    if l != [] {
      var init := l[..|l| - 1];
      assert forall k :: 0 <= k < |init| ==> init[k] == l[k];
      PlacedBounded(init, index, s, nodes, bound);
    }
  }

  lemma {:induction false} PlacedSorted(l: seq<Comment>, index: set<Id>, s: Slot, nodes: map<Id, Comment>)
    requires SortedByCreation(l)
    requires forall k :: 0 <= k < |l| ==> l[k].id in nodes && nodes[l[k].id].createdAt == l[k].createdAt
    ensures SortedIds(nodes, Placed(l, index, s))
  {
    if l != [] {
      var init := l[..|l| - 1];
      var c := l[|l| - 1];
      assert forall k :: 0 <= k < |init| ==> init[k] == l[k];
      PlacedSorted(init, index, s, nodes);
      PlacedBounded(init, index, s, nodes, c.createdAt);
      var a := Placed(init, index, s);
      if SlotOf(c, index) == s {
        forall i, j | 0 <= i < j < |a| + 1
          ensures nodes[(a + [c.id])[i]].createdAt <= nodes[(a + [c.id])[j]].createdAt
        {
          if j == |a| {
            assert a[i] in a;
          }
        }
      }
    }
  }

  /** With unique ids, the node indexed under a comment's id is that comment. */
  lemma {:induction false} NodeOfUnique(l: seq<Comment>, i: int)
    requires UniqueIds(l) && 0 <= i < |l|
    ensures LastWithId(l, l[i].id) == l[i]
  {
    var c := LastWithId(l, l[i].id);
    var k :| 0 <= k < |l| && l[k] == c;
    assert l[k].id == l[i].id;
  }

  /** For input in ascending creation order with unique ids, the roots and
      every sibling group are in non-decreasing creation order. */
  lemma ForestSiblingsSorted(l: seq<Comment>)
    requires UniqueIds(l) && SortedByCreation(l)
    ensures SortedIds(CommentForest(l).nodes, CommentForest(l).roots)
    ensures forall p :: p in CommentForest(l).children ==>
              SortedIds(CommentForest(l).nodes, CommentForest(l).children[p])
  {
    var f := CommentForest(l);
    forall k | 0 <= k < |l|
      ensures l[k].id in f.nodes && f.nodes[l[k].id].createdAt == l[k].createdAt
    {
      NodeOfUnique(l, k);
    }
    PlacedSorted(l, IdSet(l), Root, f.nodes);
    forall p | p in f.children
      ensures SortedIds(f.nodes, f.children[p])
    {
      PlacedSorted(l, IdSet(l), ChildOf(p), f.nodes);
    }
  }

  // ---------------------------------------------------------------------------
  // Reachability

  /** `id` is a root, or a child of a node reachable in fewer than `k` steps. */
  ghost predicate ReachableWithin(f: Forest, id: Id, k: nat)
    decreases k
  {
    || id in f.roots
    || (k > 0 && exists p :: p in f.children && id in f.children[p] && ReachableWithin(f, p, k - 1))
  }

  lemma {:induction false} ReachableMonotone(f: Forest, id: Id, j: nat, k: nat)
    requires j <= k && ReachableWithin(f, id, j)
    ensures ReachableWithin(f, id, k)
    decreases j
  {
    if id !in f.roots {
      var p :| p in f.children && id in f.children[p] && ReachableWithin(f, p, j - 1);
      ReachableMonotone(f, p, j - 1, k - 1);
    }
  }

  /** A sufficient condition for every comment to be reachable, stronger
      than acyclicity: every attached comment's parent occurs earlier in the
      list (as it does when replies are created after their parents and the
      list is in creation order). */
  predicate ParentsPrecede(l: seq<Comment>) {
    forall i :: 0 <= i < |l| && Attached(l[i], IdSet(l)) ==>
      exists j :: 0 <= j < i && l[j].id == l[i].parentId.value
  }

  /** Under that condition every comment is reachable from a root, within as
      many steps as its position in the list. */
  lemma {:induction false} EveryCommentReachable(l: seq<Comment>, i: int)
    requires ParentsPrecede(l) && 0 <= i < |l|
    ensures ReachableWithin(CommentForest(l), l[i].id, i)
    decreases i
  {
    var f := CommentForest(l);
    PlacedContains(l, IdSet(l), i);
    if Attached(l[i], IdSet(l)) {
      var p := l[i].parentId.value;
      var j :| 0 <= j < i && l[j].id == p;
      EveryCommentReachable(l, j);
      ReachableMonotone(f, p, j, i - 1);
      assert p in f.children && l[i].id in f.children[p];
    }
  }

  // ---------------------------------------------------------------------------
  // Scenarios

  /** Roots A and B, and C a reply to A: roots [A, B], A's children [C]. */
  lemma ScenarioReplyToRoot()
    ensures var a := Comment("A", "u", "P", "a", 1, None);
      var b := Comment("B", "u", "P", "b", 2, None);
      var c := Comment("C", "u", "P", "c", 3, Some("A"));
      var f := CommentForest([a, b, c]);
      && f.roots == ["A", "B"]
      && f.children.Keys == {"A", "B", "C"}
      && f.children["A"] == ["C"] && f.children["B"] == [] && f.children["C"] == []
  {
    var a := Comment("A", "u", "P", "a", 1, None);
    var b := Comment("B", "u", "P", "b", 2, None);
    var c := Comment("C", "u", "P", "c", 3, Some("A"));
    var l := [a, b, c];
    assert l[..2] == [a, b] && [a, b][..1] == [a] && [a][..0] == [];
    assert IdSet([a]) == {"A"};
    assert IdSet([a, b]) == {"A", "B"};
    var ix := IdSet(l);
    assert ix == {"A", "B", "C"};
    assert Placed([a], ix, Root) == ["A"];
    assert Placed([a, b], ix, Root) == ["A", "B"];
    assert Placed(l, ix, Root) == ["A", "B"];
    forall p | p in ix
      ensures Placed(l, ix, ChildOf(p)) == if p == "A" then ["C"] else []
    {
      assert Placed([a], ix, ChildOf(p)) == [];
      assert Placed([a, b], ix, ChildOf(p)) == [];
    }
  }

  /** A reply to a parent that is not in the list is kept, as a root. */
  lemma ScenarioGhostParent()
    ensures var d := Comment("D", "u", "P", "d", 1, Some("ghost-id"));
      CommentForest([d]).roots == ["D"]
  {
    var d := Comment("D", "u", "P", "d", 1, Some("ghost-id"));
    assert [d][..0] == [];
    assert IdSet([d]) == {"D"};
  }
}
