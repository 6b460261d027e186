/**
 Properties that relate several operations: following twice, following then
 unfollowing, the follow feed before and after a follow, a new post at the
 head of the index, and edits that leave every feed's order alone.
 */
module Properties {
  import opened Tables
  import opened Ordering
  import opened Models
  import opened Views

  /** Following twice is following once: one stored edge, whatever came before. */
  lemma FollowTwice(follows: Table<Follow>, e: Follow)
    requires follows.Valid() && FollowsUnique(follows)
    ensures GetOrCreate(GetOrCreate(follows, e), e) == GetOrCreate(follows, e)
    ensures EdgeCount(GetOrCreate(GetOrCreate(follows, e), e), e) == 1
  {
    EdgeCountAtMostOne(GetOrCreate(follows, e), e);
  }

  /** Unfollowing removes the edge and only it; a second unfollow changes nothing. */
  lemma UnfollowOnlyThatEdge(follows: Table<Follow>, e: Follow)
    requires follows.Valid() && FollowsUnique(follows)
    ensures EdgeCount(Unfollowed(follows, e), e) == 0
    ensures forall u, a :: Follow(u, a) != e ==> (IsFollowing(Unfollowed(follows, e), u, a) <==> IsFollowing(follows, u, a))
    ensures Unfollowed(Unfollowed(follows, e), e) == Unfollowed(follows, e)
  {
  }

  /** A follow followed by an unfollow leaves no edge between the two users. */
  lemma FollowThenUnfollow(follows: Table<Follow>, e: Follow)
    requires follows.Valid() && FollowsUnique(follows)
    ensures EdgeCount(Unfollowed(GetOrCreate(follows, e), e), e) == 0
  {
  }

  /**
   After `v` follows `a`, every post of `a` is in `v`'s feed, and it is in
   the feed of no user who did not already follow `a`.
   */
  lemma FollowFeedAfterFollow(posts: Table<Post>, follows: Table<Follow>, v: UserId, a: UserId, id: Id)
    requires posts.Valid() && follows.Valid() && FollowsUnique(follows)
    requires id in posts.rows && posts.rows[id].author == a
    ensures id in FollowIndex(posts, GetOrCreate(follows, Follow(v, a)), v)
    ensures forall w :: w != v && !IsFollowing(follows, w, a) ==>
      id !in FollowIndex(posts, GetOrCreate(follows, Follow(v, a)), w)
  {
  }

  /** A post published later than every stored post heads the index. */
  lemma NewPostHeadsIndex(posts: Table<Post>, p: Post)
    requires posts.Valid()
    requires forall id :: id in posts.rows ==> posts.rows[id].pubDate < p.pubDate
    ensures Index(posts.Insert(p))[0] == posts.next
  {
  }

  /** Which rows `WhereBelow` picks depends only on the filter's verdict on each row. */
  lemma {:induction false} WhereBelowSame<T>(rows1: map<Id, T>, rows2: map<Id, T>, n: nat, keep: T -> bool)
    requires rows1.Keys == rows2.Keys
    requires forall id :: id in rows1 ==> keep(rows1[id]) == keep(rows2[id])
    ensures WhereBelow(rows1, n, keep) == WhereBelow(rows2, n, keep)
  {
    if n > 0 {
      WhereBelowSame(rows1, rows2, n - 1, keep);
    }
  }

  /** Where a row is placed depends only on the keys. */
  lemma {:induction false} PlaceSame<T>(x: Id, s: seq<Id>, rows1: map<Id, T>, rows2: map<Id, T>, key: T -> nat)
    requires x in rows1 && x in rows2 && key(rows1[x]) == key(rows2[x])
    requires forall i :: 0 <= i < |s| ==> s[i] in rows1 && s[i] in rows2 && key(rows1[s[i]]) == key(rows2[s[i]])
    ensures Place(x, s, rows1, key) == Place(x, s, rows2, key)
  {
    if s != [] {
      PlaceSame(x, s[1..], rows1, rows2, key);
    }
  }

  /** The sorted order depends only on the keys. */
  lemma {:induction false} SortSame<T>(s: seq<Id>, rows1: map<Id, T>, rows2: map<Id, T>, key: T -> nat)
    requires forall i :: 0 <= i < |s| ==> s[i] in rows1 && s[i] in rows2 && key(rows1[s[i]]) == key(rows2[s[i]])
    ensures SortNewestFirst(s, rows1, key) == SortNewestFirst(s, rows2, key)
  {
    if s != [] {
      SortSame(s[1..], rows1, rows2, key);
      var rest := SortNewestFirst(s[1..], rows1, key);
      forall i | 0 <= i < |rest| ensures rest[i] in rows1 && rest[i] in rows2 && key(rows1[rest[i]]) == key(rows2[rest[i]]) {
        assert rest[i] in multiset(rest);
      }
      PlaceSame(s[0], rest, rows1, rows2, key);
    }
  }

  /** A filtered, sorted query gives the same list on two tables that agree on the filter and the key. */
  lemma FilterSame<T>(t1: Table<T>, t2: Table<T>, keep: T -> bool, key: T -> nat)
    requires t1.Valid() && t2.Valid() && t1.next == t2.next && t1.rows.Keys == t2.rows.Keys
    requires forall id :: id in t1.rows ==> keep(t1.rows[id]) == keep(t2.rows[id]) && key(t1.rows[id]) == key(t2.rows[id])
    ensures FilterNewestFirst(t1, keep, key) == FilterNewestFirst(t2, keep, key)
  {
    WhereBelowSame(t1.rows, t2.rows, t1.next, keep);
    SortSame(Where(t1, keep), t1.rows, t2.rows, key);
  }

  /** Editing a post moves no post in the index. */
  lemma EditKeepsIndex(posts: Table<Post>, id: Id, text: string, group: Option<Id>, image: Option<ImageRef>)
    requires posts.Valid() && id in posts.rows
    ensures Index(EditPost(posts, id, text, group, image)) == Index(posts)
  {
    FilterSame(EditPost(posts, id, text, group, image), posts, (p: Post) => true, PubDate);
  }

  /** Editing a post moves no post in any author's profile. */
  lemma EditKeepsAuthorFeed(posts: Table<Post>, id: Id, text: string, group: Option<Id>, image: Option<ImageRef>, u: UserId)
    requires posts.Valid() && id in posts.rows
    ensures AuthorFeed(EditPost(posts, id, text, group, image), u) == AuthorFeed(posts, u)
  {
    FilterSame(EditPost(posts, id, text, group, image), posts, WrittenBy(u), PubDate);
  }

  /** Editing a post moves no post in any follow feed. */
  lemma EditKeepsFollowFeed(posts: Table<Post>, follows: Table<Follow>, id: Id,
                            text: string, group: Option<Id>, image: Option<ImageRef>, v: UserId)
    requires posts.Valid() && FollowsUnique(follows) && id in posts.rows
    ensures FollowIndex(EditPost(posts, id, text, group, image), follows, v) == FollowIndex(posts, follows, v)
  {
    FilterSame(EditPost(posts, id, text, group, image), posts, WrittenByAnyOf(Followed(follows, v)), PubDate);
  }
}
