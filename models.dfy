/**
 The blog's entity store: groups, posts, comments and follow edges, each an
 auto-incrementing table, plus the set of registered users (kept by the
 authentication system; a user is known by their unique, non-empty username).
 The foreign keys and their on-delete rules are the store's delete methods;
 the uniqueness constraints are part of its invariant.
 */
module Models {
  import opened Tables

  /** A registered user, by username. */
  type UserId = string

  /** Where an uploaded image is stored; the model never looks inside it. */
  type ImageRef = string

  /** Upper bound on a comment's text, from the comment's text field. */
  const CommentMaxLength: nat := 500

  datatype Group = Group(title: string, slug: string, description: string)

  datatype Post = Post(text: string, pubDate: nat, author: UserId,
                       group: Option<Id>, image: Option<ImageRef>)

  /** The post reference is nullable in the schema. */
  datatype Comment = Comment(post: Option<Id>, author: UserId, text: string, created: nat)

  /** `user` follows `author`. */
  datatype Follow = Follow(user: UserId, author: UserId)

  /** The slug field is unique. */
  ghost predicate SlugsUnique(groups: Table<Group>)
  {
    forall i, j :: i in groups.rows && j in groups.rows && groups.rows[i].slug == groups.rows[j].slug ==> i == j
  }

  /** `unique_together = (("user", "author"),)`. */
  ghost predicate FollowsUnique(follows: Table<Follow>)
  {
    forall i, j :: i in follows.rows && j in follows.rows && follows.rows[i] == follows.rows[j] ==> i == j
  }

  ghost predicate PostLinked(p: Post, users: set<UserId>, groups: Table<Group>)
  {
    p.author in users && (p.group.Some? ==> p.group.value in groups.rows)
  }

  ghost predicate CommentLinked(c: Comment, users: set<UserId>, posts: Table<Post>)
  {
    c.author in users && (c.post.Some? ==> c.post.value in posts.rows)
  }

  /** Uniqueness constraints and referential integrity of the whole store. */
  ghost predicate Consistent(users: set<UserId>, groups: Table<Group>, posts: Table<Post>,
                             comments: Table<Comment>, follows: Table<Follow>)
  {
    && "" !in users
    && groups.Valid() && posts.Valid() && comments.Valid() && follows.Valid()
    && SlugsUnique(groups)
    && FollowsUnique(follows)
    && (forall id :: id in posts.rows ==> PostLinked(posts.rows[id], users, groups))
    && (forall id :: id in comments.rows ==> CommentLinked(comments.rows[id], users, posts))
    && (forall id :: id in follows.rows ==> follows.rows[id].user in users && follows.rows[id].author in users)
  }

  /** A post's author and publication date never change once it is stored. */
  ghost predicate PostsStable(before: Table<Post>, after: Table<Post>)
  {
    forall id :: id in before.rows && id in after.rows ==>
      after.rows[id].author == before.rows[id].author && after.rows[id].pubDate == before.rows[id].pubDate
  }

  /** Saving an edited post writes only the fields the post form has. */
  function EditPost(posts: Table<Post>, id: Id, text: string, group: Option<Id>, image: Option<ImageRef>): (t: Table<Post>)
    requires posts.Valid() && id in posts.rows
    ensures t.Valid() && t.next == posts.next && t.rows.Keys == posts.rows.Keys
    ensures t.rows[id].text == text && t.rows[id].group == group && t.rows[id].image == image
    ensures PostsStable(posts, t)
    ensures forall k :: k in t.rows && k != id ==> t.rows[k] == posts.rows[k]
  {
    Table(posts.rows[id := posts.rows[id].(text := text, group := group, image := image)], posts.next)
  }

  // ---------------------------------------------------------------------------
  // The follow graph

  /** Some Follow row links `user` to `author`. */
  predicate IsFollowing(follows: Table<Follow>, user: UserId, author: UserId)
  {
    exists id | id in follows.rows :: follows.rows[id] == Follow(user, author)
  }

  /** Number of Follow rows equal to `e`. */
  function EdgeCount(follows: Table<Follow>, e: Follow): (n: nat)
    requires follows.Valid()
    ensures n == |set id | id in follows.rows && follows.rows[id] == e|
  {
    var keep := (f: Follow) => f == e;
    assert Matching(follows, keep) == set id | id in follows.rows && follows.rows[id] == e;
    Count(follows, keep)
  }

  /** `get_or_create`: insert the edge unless a row already equals it. */
  function GetOrCreate(follows: Table<Follow>, e: Follow): (t: Table<Follow>)
    requires follows.Valid()
    ensures t.Valid()
    ensures IsFollowing(t, e.user, e.author)
    ensures IsFollowing(follows, e.user, e.author) ==> t == follows
    ensures !IsFollowing(follows, e.user, e.author) ==> t.next == follows.next + 1 && t.rows.Keys == follows.rows.Keys + {follows.next}
    ensures forall id :: id in follows.rows ==> id in t.rows && t.rows[id] == follows.rows[id]
    ensures forall id :: id in t.rows && id !in follows.rows ==> t.rows[id] == e
    ensures FollowsUnique(follows) ==> FollowsUnique(t)
  {
    if IsFollowing(follows, e.user, e.author) then follows
    else
      var t := follows.Insert(e);
      assert t.rows[follows.next] == e;
      t
  }

  /** `Follow.objects.filter(user=.., author=..).delete()`. */
  function Unfollowed(follows: Table<Follow>, e: Follow): (t: Table<Follow>)
    requires follows.Valid()
    ensures t.Valid()
    ensures !IsFollowing(t, e.user, e.author) && t.next == follows.next
    ensures forall id :: id in follows.rows && follows.rows[id] != e ==> id in t.rows && t.rows[id] == follows.rows[id]
    ensures forall id :: id in t.rows ==> id in follows.rows && t.rows[id] == follows.rows[id]
    ensures FollowsUnique(follows) ==> FollowsUnique(t)
  {
    follows.Remove((f: Follow) => f == e)
  }

  /** Under the uniqueness constraint an edge is stored at most once. */
  lemma {:induction false} EdgeCountAtMostOne(follows: Table<Follow>, e: Follow)
    requires follows.Valid() && FollowsUnique(follows)
    ensures EdgeCount(follows, e) == if IsFollowing(follows, e.user, e.author) then 1 else 0
  {
    var ids := set id | id in follows.rows && follows.rows[id] == e;
    if IsFollowing(follows, e.user, e.author) {
      var id :| id in follows.rows && follows.rows[id] == Follow(e.user, e.author);
      assert ids == {id};
    } else {
      assert ids == {};
    }
  }

  /** The filter `author=..` on Follow rows. */
  function PointsAt(author: UserId): Follow -> bool
  {
    (f: Follow) => f.author == author
  }

  /** The filter `user=..` on Follow rows. */
  function StartsAt(user: UserId): Follow -> bool
  {
    (f: Follow) => f.user == user
  }

  /** The users following `author`. */
  function Followers(follows: Table<Follow>, author: UserId): (s: set<UserId>)
    ensures forall u :: u in s <==> IsFollowing(follows, u, author)
  {
    set id | id in follows.rows && follows.rows[id].author == author :: follows.rows[id].user
  }

  /** The users `user` follows. */
  function Followed(follows: Table<Follow>, user: UserId): (s: set<UserId>)
    ensures forall a :: a in s <==> IsFollowing(follows, user, a)
  {
    set id | id in follows.rows && follows.rows[id].user == user :: follows.rows[id].author
  }

  /** Counting the Follow rows that point at `author` counts its distinct followers. */
  lemma {:induction false} FollowerCount(follows: Table<Follow>, author: UserId)
    requires follows.Valid() && FollowsUnique(follows)
    ensures Count(follows, PointsAt(author)) == |Followers(follows, author)|
  {
    var ids := Where(follows, PointsAt(author));
    var user := (id: Id) => if id in follows.rows then follows.rows[id].user else "";
    forall i, j | 0 <= i < j < |ids| ensures user(ids[i]) != user(ids[j]) {
      assert ids[i] in ids && ids[j] in ids;
    }
    InjectiveImageCard(ids, user);
    var image := Image(ids, user);
    forall v | v in Followers(follows, author) ensures v in image {
      var id :| id in follows.rows && follows.rows[id] == Follow(v, author);
      assert id in ids;
      var i :| 0 <= i < |ids| && ids[i] == id;
      assert user(ids[i]) == v;
    }
    assert image == Followers(follows, author);
  }

  /** Counting the Follow rows that start at `user` counts the distinct authors followed. */
  lemma {:induction false} FollowingCount(follows: Table<Follow>, user: UserId)
    requires follows.Valid() && FollowsUnique(follows)
    ensures Count(follows, StartsAt(user)) == |Followed(follows, user)|
  {
    var ids := Where(follows, StartsAt(user));
    var author := (id: Id) => if id in follows.rows then follows.rows[id].author else "";
    forall i, j | 0 <= i < j < |ids| ensures author(ids[i]) != author(ids[j]) {
      assert ids[i] in ids && ids[j] in ids;
    }
    InjectiveImageCard(ids, author);
    var image := Image(ids, author);
    forall a | a in Followed(follows, user) ensures a in image {
      var id :| id in follows.rows && follows.rows[id] == Follow(user, a);
      assert id in ids;
      var i :| 0 <= i < |ids| && ids[i] == id;
      assert author(ids[i]) == a;
    }
    assert image == Followed(follows, user);
  }

  // ---------------------------------------------------------------------------
  // The store

  class Store {
    var users: set<UserId>
    var groups: Table<Group>
    var posts: Table<Post>
    var comments: Table<Comment>
    var follows: Table<Follow>

    ghost predicate Valid()
      reads this
    {
      Consistent(users, groups, posts, comments, follows)
    }

    constructor ()
      ensures Valid()
      ensures users == {} && groups.rows == map[] && posts.rows == map[]
      ensures comments.rows == map[] && follows.rows == map[]
    {
      users := {};
      groups := Table(map[], 0);
      posts := Table(map[], 0);
      comments := Table(map[], 0);
      follows := Table(map[], 0);
    }

    /** Registration, done by the authentication system: usernames are non-empty and unique. */
    method AddUser(name: UserId) returns (ok: bool)
      requires Valid()
      modifies this
      ensures Valid()
      ensures ok <==> name != "" && name !in old(users)
      ensures users == if ok then old(users) + {name} else old(users)
      ensures groups == old(groups) && posts == old(posts) && comments == old(comments) && follows == old(follows)
    {
      ok := name != "" && name !in users;
      if ok {
        users := users + {name};
      }
    }

    /** Creating a group; a slug already in use is a Conflict and stores nothing. */
    method AddGroup(title: string, slug: string, description: string) returns (r: Option<Id>)
      requires Valid()
      modifies this
      ensures Valid()
      ensures r.None? <==> exists id | id in old(groups.rows) :: old(groups.rows)[id].slug == slug
      ensures r.None? ==> groups == old(groups)
      ensures r.Some? ==> r.value == old(groups.next) && r.value !in old(groups.rows)
      ensures r.Some? ==> groups == old(groups).Insert(Group(title, slug, description))
      ensures r.Some? ==> r.value in groups.rows && groups.rows[r.value] == Group(title, slug, description)
      ensures users == old(users) && posts == old(posts) && comments == old(comments) && follows == old(follows)
    {
      if exists id | id in groups.rows :: groups.rows[id].slug == slug {
        r := None;
      } else {
        r := Some(groups.next);
        groups := groups.Insert(Group(title, slug, description));
      }
    }

    /** `post.save()` of a new post: pub_date is the clock's value at insertion. */
    method CreatePost(author: UserId, text: string, group: Option<Id>, image: Option<ImageRef>, now: nat)
      returns (id: Id)
      requires Valid() && author in users && (group.Some? ==> group.value in groups.rows)
      modifies this
      ensures Valid()
      ensures PostsStable(old(posts), posts)
      ensures id == old(posts.next) && posts.next == id + 1
      ensures id !in old(posts.rows) && posts.rows.Keys == old(posts.rows.Keys) + {id}
      ensures posts.rows[id] == Post(text, now, author, group, image)
      ensures forall k :: k in old(posts.rows) ==> posts.rows[k] == old(posts.rows[k])
      ensures users == old(users) && groups == old(groups) && comments == old(comments) && follows == old(follows)
    {
      id := posts.next;
      posts := posts.Insert(Post(text, now, author, group, image));
    }

    /** `post.save()` after an edit: only group, text and image are written. */
    method SavePost(id: Id, text: string, group: Option<Id>, image: Option<ImageRef>)
      requires Valid() && id in posts.rows && (group.Some? ==> group.value in groups.rows)
      modifies this
      ensures Valid()
      ensures PostsStable(old(posts), posts)
      ensures posts.next == old(posts.next) && posts.rows.Keys == old(posts.rows.Keys)
      ensures posts.rows[id] == old(posts.rows[id]).(text := text, group := group, image := image)
      ensures forall k :: k in posts.rows && k != id ==> posts.rows[k] == old(posts.rows[k])
      ensures users == old(users) && groups == old(groups) && comments == old(comments) && follows == old(follows)
    {
      posts := EditPost(posts, id, text, group, image);
    }

    /** `comment.save()` of a new comment on an existing post. */
    method CreateComment(post: Id, author: UserId, text: string, now: nat) returns (id: Id)
      requires Valid() && post in posts.rows && author in users
      modifies this
      ensures Valid()
      ensures id == old(comments.next) && comments.next == id + 1
      ensures id !in old(comments.rows) && comments.rows.Keys == old(comments.rows.Keys) + {id}
      ensures comments.rows[id] == Comment(Some(post), author, text, now)
      ensures forall k :: k in old(comments.rows) ==> comments.rows[k] == old(comments.rows[k])
      ensures users == old(users) && groups == old(groups) && posts == old(posts) && follows == old(follows)
    {
      id := comments.next;
      comments := comments.Insert(Comment(Some(post), author, text, now));
    }

    /** `Follow.objects.get_or_create(user=.., author=..)`. */
    method GetOrCreateFollow(user: UserId, author: UserId) returns (created: bool)
      requires Valid() && user in users && author in users
      modifies this
      ensures Valid()
      ensures created <==> !IsFollowing(old(follows), user, author)
      ensures follows == GetOrCreate(old(follows), Follow(user, author))
      ensures users == old(users) && groups == old(groups) && posts == old(posts) && comments == old(comments)
    {
      created := !IsFollowing(follows, user, author);
      follows := GetOrCreate(follows, Follow(user, author));
    }

    /** `Follow.objects.filter(user=.., author=..).delete()`. */
    method DeleteFollow(user: UserId, author: UserId)
      requires Valid()
      modifies this
      ensures Valid()
      ensures follows == Unfollowed(old(follows), Follow(user, author))
      ensures users == old(users) && groups == old(groups) && posts == old(posts) && comments == old(comments)
    {
      follows := Unfollowed(follows, Follow(user, author));
    }

    /** Deleting a post cascades to exactly the comments whose post it is. */
    method DeletePost(id: Id)
      requires Valid() && id in posts.rows
      modifies this
      ensures Valid()
      ensures PostsStable(old(posts), posts)
      ensures posts.next == old(posts.next) && comments.next == old(comments.next)
      ensures posts.rows.Keys == old(posts.rows.Keys) - {id}
      ensures forall k :: k in posts.rows ==> posts.rows[k] == old(posts.rows[k])
      ensures forall k :: k in comments.rows <==> k in old(comments.rows) && old(comments.rows[k]).post != Some(id)
      ensures forall k :: k in comments.rows ==> comments.rows[k] == old(comments.rows[k])
      ensures users == old(users) && groups == old(groups) && follows == old(follows)
    {
      posts := posts.Without(id);
      comments := comments.Remove((c: Comment) => c.post == Some(id));
    }

    /** Deleting a group keeps its posts, with their group set to none (SET_NULL). */
    method DeleteGroup(id: Id)
      requires Valid() && id in groups.rows
      modifies this
      ensures Valid()
      ensures PostsStable(old(posts), posts)
      ensures groups.next == old(groups.next) && posts.next == old(posts.next)
      ensures groups.rows.Keys == old(groups.rows.Keys) - {id}
      ensures forall k :: k in groups.rows ==> groups.rows[k] == old(groups.rows[k])
      ensures posts.rows.Keys == old(posts.rows.Keys)
      ensures forall k :: k in posts.rows ==>
        posts.rows[k] == if old(posts.rows[k]).group == Some(id) then old(posts.rows[k]).(group := None) else old(posts.rows[k])
      ensures users == old(users) && comments == old(comments) && follows == old(follows)
    {
      groups := groups.Without(id);
      posts := posts.Update((p: Post) => if p.group == Some(id) then p.(group := None) else p);
    }

    /**
     Deleting a user cascades to their posts, their comments, the comments on
     their posts, and every Follow edge they are either end of.
     */
    method DeleteUser(u: UserId)
      requires Valid() && u in users
      modifies this
      ensures Valid()
      ensures PostsStable(old(posts), posts)
      ensures users == old(users) - {u} && groups == old(groups)
      ensures posts.next == old(posts.next) && comments.next == old(comments.next) && follows.next == old(follows.next)
      ensures forall k :: k in posts.rows <==> k in old(posts.rows) && old(posts.rows[k]).author != u
      ensures forall k :: k in posts.rows ==> posts.rows[k] == old(posts.rows[k])
      ensures forall k :: k in comments.rows <==>
        && k in old(comments.rows)
        && old(comments.rows[k]).author != u
        && (old(comments.rows[k]).post.Some? ==> old(comments.rows[k]).post.value in posts.rows)
      ensures forall k :: k in comments.rows ==> comments.rows[k] == old(comments.rows[k])
      ensures forall k :: k in follows.rows <==> k in old(follows.rows) && old(follows.rows[k]).user != u && old(follows.rows[k]).author != u
      ensures forall k :: k in follows.rows ==> follows.rows[k] == old(follows.rows[k])
    {
      var before := posts;
      posts := posts.Remove((p: Post) => p.author == u);
      comments := comments.Remove((c: Comment) => c.author == u || (c.post.Some? && c.post.value in before.rows && before.rows[c.post.value].author == u));
      follows := follows.Remove((f: Follow) => f.user == u || f.author == u);
      users := users - {u};
    }
  }
}
