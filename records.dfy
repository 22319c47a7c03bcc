/** The records the posts page reads from the database, and the sequence
    predicates shared by the comment operations. */
module Records {

  /** Database identities (post, comment and user ids) are opaque strings. */
  type Id = string

  datatype Option<+T> = None | Some(value: T)

  /** A row of the `comments` table: `parent_id` is nullable (None), and the
      creation timestamp is abstracted to a number that orders comments the
      way the database orders `created_at`. */
  datatype Comment = Comment(
    id: Id,
    userId: Id,
    postId: Id,
    content: string,
    createdAt: int,
    parentId: Option<Id>)

  /** The ids of a list of comments, position by position. */
  function Ids(l: seq<Comment>): (r: seq<Id>)
    ensures |r| == |l|
    ensures forall i :: 0 <= i < |l| ==> r[i] == l[i].id
  {
    if l == [] then [] else Ids(l[..|l| - 1]) + [l[|l| - 1].id]
  }

  /** No element occurs twice in the list. */
  predicate Distinct<T(==)>(s: seq<T>) {
    forall i, j :: 0 <= i < j < |s| ==> s[i] != s[j]
  }

  /** The elements of a list, as a set. */
  function Elements<T>(s: seq<T>): set<T> {
    set x | x in s
  }

  /** Every comment in the list has its own id. */
  predicate UniqueIds(l: seq<Comment>) {
    forall i, j :: 0 <= i < j < |l| ==> l[i].id != l[j].id
  }

  /** The list is in ascending creation order, as the comment query returns it. */
  predicate SortedByCreation(l: seq<Comment>) {
    forall i, j :: 0 <= i < j < |l| ==> l[i].createdAt <= l[j].createdAt
  }

  /** `a` can be obtained from `b` by deleting elements: it lists some of the
      elements of `b` in their relative order. */
  predicate IsSubseq<T(==)>(a: seq<T>, b: seq<T>)
    decreases |b|
  {
    || a == []
    || (b != []
        && ((a[|a| - 1] == b[|b| - 1] && IsSubseq(a[..|a| - 1], b[..|b| - 1]))
            || IsSubseq(a, b[..|b| - 1])))
  }

  /** Every element of a sublist is an element of the list. */
  lemma {:induction false} SubseqMembers<T>(a: seq<T>, b: seq<T>)
    requires IsSubseq(a, b)
    ensures forall x :: x in a ==> x in b
    decreases |b|
  {
    if a != [] {
      var b' := b[..|b| - 1];
      if a[|a| - 1] == b[|b| - 1] && IsSubseq(a[..|a| - 1], b') {
        SubseqMembers(a[..|a| - 1], b');
        assert a == a[..|a| - 1] + [b[|b| - 1]];
        assert b == b' + [b[|b| - 1]];
      } else {
        SubseqMembers(a, b');
      }
    }
  }

  /** A sublist of a sorted list is sorted. */
  lemma {:induction false} SubseqOfSorted(a: seq<Comment>, b: seq<Comment>)
    requires IsSubseq(a, b) && SortedByCreation(b)
    ensures SortedByCreation(a)
    decreases |b|
  {
    if a != [] {
      var b' := b[..|b| - 1];
      assert SortedByCreation(b');
      if a[|a| - 1] == b[|b| - 1] && IsSubseq(a[..|a| - 1], b') {
        var a' := a[..|a| - 1];
        SubseqOfSorted(a', b');
        SubseqMembers(a', b');
        assert a == a' + [b[|b| - 1]];
        forall i, j | 0 <= i < j < |a| ensures a[i].createdAt <= a[j].createdAt {
          if j == |a| - 1 {
            assert a[i] in a' && a[i] in b';
            var k :| 0 <= k < |b'| && b'[k] == a[i];
            assert b[k] == a[i];
          } else {
            assert a[i] == a'[i] && a[j] == a'[j];
          }
        }
      } else {
        SubseqOfSorted(a, b');
      }
    }
  }

  /** A sublist of a list with unique ids has unique ids. */
  lemma {:induction false} SubseqOfUnique(a: seq<Comment>, b: seq<Comment>)
    requires IsSubseq(a, b) && UniqueIds(b)
    ensures UniqueIds(a)
    decreases |b|
  {
    if a != [] {
      var b' := b[..|b| - 1];
      assert UniqueIds(b');
      if a[|a| - 1] == b[|b| - 1] && IsSubseq(a[..|a| - 1], b') {
        var a' := a[..|a| - 1];
        SubseqOfUnique(a', b');
        SubseqMembers(a', b');
        forall i, j | 0 <= i < j < |a| ensures a[i].id != a[j].id {
          if j == |a| - 1 {
            assert a[i] in a' && a[i] in b';
            var k :| 0 <= k < |b'| && b'[k] == a[i];
            assert b[k] == a[i];
          } else {
            assert a[i] == a'[i] && a[j] == a'[j];
          }
        }
      } else {
        SubseqOfUnique(a, b');
      }
    }
  }
}
