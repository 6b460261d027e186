/**
 The blog's request handlers, without HTTP: each query view is a function of
 the tables it reads, each mutating view a method on the store. A missing
 object (`get_object_or_404`) is the NotFound outcome; a redirect or a
 re-displayed form is a Response value.
 */
module Views {
  import opened Tables
  import opened Ordering
  import opened Models

  /** Items per page on the index, group and profile pages. */
  const PageSize: nat := 10
  /** Items per page on the follow feed. */
  const FollowPageSize: nat := 5
  /** The group page shows at most this many of the group's newest posts. */
  const GroupFeedCap: nat := 12

  datatype Outcome<T> = Found(value: T) | NotFound

  /** Where a handler redirects to. */
  datatype Target = IndexPage | PostPage(username: UserId, postId: Id) | ProfilePage(username: UserId)

  /** What a mutating handler answers: a redirect, the form again, or not found. */
  datatype Response = Redirect(to: Target) | ShowForm | Missing

  /** The fields a post form may set. */
  datatype PostForm = PostForm(group: Option<Id>, text: string, image: Option<ImageRef>)

  /** The one field a comment form may set. */
  datatype CommentForm = CommentForm(text: string)

  datatype GroupView = GroupView(group: Id, posts: seq<Id>)

  datatype ProfileView = ProfileView(author: UserId, posts: seq<Id>, count: nat,
                                     following: Option<bool>, followers: nat, followingAuthors: nat)

  datatype PostDetail = PostDetail(author: UserId, count: nat, post: Post, comments: seq<Id>,
                                   followers: nat, followingAuthors: nat)

  // ---------------------------------------------------------------------------
  // Filters and sort keys

  function PubDate(p: Post): nat { p.pubDate }

  function Created(c: Comment): nat { c.created }

  function WrittenBy(u: UserId): Post -> bool
  {
    (p: Post) => p.author == u
  }

  function InGroup(g: Id): Post -> bool
  {
    (p: Post) => p.group == Some(g)
  }

  function WrittenByAnyOf(authors: set<UserId>): Post -> bool
  {
    (p: Post) => p.author in authors
  }

  function OnPost(id: Id): Comment -> bool
  {
    (c: Comment) => c.post == Some(id)
  }

  function HasSlug(slug: string): Group -> bool
  {
    (g: Group) => g.slug == slug
  }

  /** The ids of the posts `u` wrote. */
  ghost function PostsBy(posts: Table<Post>, u: UserId): set<Id>
  {
    set id | id in posts.rows && posts.rows[id].author == u
  }

  // ---------------------------------------------------------------------------
  // Queries

  /** `index`: every post, newest first. */
  function Index(posts: Table<Post>): (r: seq<Id>)
    requires posts.Valid()
    ensures Distinct(r) && NewestFirst(r, posts.rows, PubDate)
    ensures forall id :: id in r <==> id in posts.rows
  {
    FilterNewestFirst(posts, (p: Post) => true, PubDate)
  }

  /**
   `get_object_or_404(Group, slug=..)`. The lookup relies on slugs being
   unique: `get` fails when two groups share one, so the store's uniqueness
   constraint is a precondition and the group found is the only one.
   */
  function FindGroup(groups: Table<Group>, slug: string): (r: Option<Id>)
    requires groups.Valid() && SlugsUnique(groups)
    ensures r.Some? ==> r.value in groups.rows && groups.rows[r.value].slug == slug
    ensures forall id :: id in groups.rows && groups.rows[id].slug == slug ==> r == Some(id)
    ensures r.None? <==> forall id :: id in groups.rows ==> groups.rows[id].slug != slug
  {
    var ids := Where(groups, HasSlug(slug));
    if ids == [] then None
    else
      assert ids[0] in ids;
      Some(ids[0])
  }

  /** The group's newest posts, at most GroupFeedCap of them, newest first. */
  function GroupFeed(posts: Table<Post>, g: Id): (s: seq<Id>)
    requires posts.Valid()
    ensures |s| <= GroupFeedCap
    ensures |s| == (if Count(posts, InGroup(g)) < GroupFeedCap then Count(posts, InGroup(g)) else GroupFeedCap)
    ensures Distinct(s) && NewestFirst(s, posts.rows, PubDate)
    ensures forall id :: id in s ==> id in posts.rows && posts.rows[id].group == Some(g)
    ensures forall id, i :: id in posts.rows && posts.rows[id].group == Some(g) && id !in s && 0 <= i < |s| ==>
      PubDate(posts.rows[s[i]]) >= PubDate(posts.rows[id])
  {
    var all := FilterNewestFirst(posts, InGroup(g), PubDate);
    assert forall id :: id in all <==> id in posts.rows && posts.rows[id].group == Some(g) by {
      forall id ensures id in all <==> id in posts.rows && posts.rows[id].group == Some(g) {
        assert id in posts.rows ==> (InGroup(g)(posts.rows[id]) <==> posts.rows[id].group == Some(g));
      }
    }
    Newest(all, GroupFeedCap, posts.rows, PubDate)
  }

  /**
   `group_posts`: the group named by the slug, and its newest posts, cut to
   GroupFeedCap before any paging.
   */
  function GroupPosts(groups: Table<Group>, posts: Table<Post>, slug: string): (r: Outcome<GroupView>)
    requires groups.Valid() && SlugsUnique(groups) && posts.Valid()
    ensures r.NotFound? <==> forall id :: id in groups.rows ==> groups.rows[id].slug != slug
    ensures r.Found? ==> r.value.group in groups.rows && groups.rows[r.value.group].slug == slug
    ensures r.Found? ==> r.value.posts == GroupFeed(posts, r.value.group)
  {
    match FindGroup(groups, slug)
    case None => NotFound
    case Some(g) => Found(GroupView(g, GroupFeed(posts, g)))
  }

  /** The author's posts, newest first. */
  function AuthorFeed(posts: Table<Post>, u: UserId): (s: seq<Id>)
    requires posts.Valid()
    ensures Distinct(s) && NewestFirst(s, posts.rows, PubDate)
    ensures forall id :: id in s <==> id in posts.rows && posts.rows[id].author == u
    ensures |s| == |PostsBy(posts, u)|
  {
    assert Matching(posts, WrittenBy(u)) == PostsBy(posts, u);
    FilterNewestFirst(posts, WrittenBy(u), PubDate)
  }

  /** `profile`: the author's posts, their number, the viewer's follow status and the follow counts. */
  function Profile(users: set<UserId>, posts: Table<Post>, follows: Table<Follow>,
                   username: UserId, viewer: Option<UserId>): (r: Outcome<ProfileView>)
    requires "" !in users && (viewer.Some? ==> viewer.value in users)
    requires posts.Valid() && follows.Valid() && FollowsUnique(follows)
    ensures r.NotFound? <==> username !in users
    ensures r.Found? ==>
      var v := r.value;
      && v.author == username
      && v.posts == AuthorFeed(posts, username)
      && v.count == |PostsBy(posts, username)|
      && v.following == (if viewer.None? then None else Some(IsFollowing(follows, viewer.value, username)))
      && v.followers == |Followers(follows, username)|
      && v.followingAuthors == |Followed(follows, username)|
  {
    if username !in users then NotFound
    else
      var s := AuthorFeed(posts, username);
      var following := if viewer.Some? && viewer.value != "" then Some(IsFollowing(follows, viewer.value, username)) else None;
      FollowerCount(follows, username);
      FollowingCount(follows, username);
      Found(ProfileView(username, s, |s|, following,
                        Count(follows, PointsAt(username)), Count(follows, StartsAt(username))))
  }

  /**
   `post_view`: the post with that id (whoever wrote it), its comments newest
   first, and the named author's post count and follow counts.
   */
  function PostView(users: set<UserId>, posts: Table<Post>, comments: Table<Comment>, follows: Table<Follow>,
                    username: UserId, postId: Id): (r: Outcome<PostDetail>)
    requires posts.Valid() && comments.Valid() && follows.Valid() && FollowsUnique(follows)
    ensures r.NotFound? <==> username !in users || postId !in posts.rows
    ensures r.Found? ==>
      var d := r.value;
      && d.author == username
      && d.post == posts.rows[postId]
      && d.count == |PostsBy(posts, username)|
      && Distinct(d.comments) && NewestFirst(d.comments, comments.rows, Created)
      && (forall id :: id in d.comments <==> id in comments.rows && comments.rows[id].post == Some(postId))
      && d.followers == |Followers(follows, username)|
      && d.followingAuthors == |Followed(follows, username)|
  {
    if username !in users || postId !in posts.rows then NotFound
    else
      var count := Count(posts, WrittenBy(username));
      assert Matching(posts, WrittenBy(username)) == PostsBy(posts, username);
      FollowerCount(follows, username);
      FollowingCount(follows, username);
      Found(PostDetail(username, count, posts.rows[postId],
                       FilterNewestFirst(comments, OnPost(postId), Created),
                       Count(follows, PointsAt(username)), Count(follows, StartsAt(username))))
  }

  /**
   `follow_index`: the posts of every author the viewer follows, newest first.
   The query joins posts with Follow rows, so a post is listed once only
   because each (user, author) edge is stored once: the uniqueness
   constraint is a precondition.
   */
  function FollowIndex(posts: Table<Post>, follows: Table<Follow>, viewer: UserId): (r: seq<Id>)
    requires posts.Valid() && FollowsUnique(follows)
    ensures Distinct(r) && NewestFirst(r, posts.rows, PubDate)
    ensures forall id :: id in r <==> id in posts.rows && IsFollowing(follows, viewer, posts.rows[id].author)
  {
    FilterNewestFirst(posts, WrittenByAnyOf(Followed(follows, viewer)), PubDate)
  }

  // ---------------------------------------------------------------------------
  // Paging

  /** Page `number` (from 1) of `size` items: the slice the paginator shows. */
  function PageOf(s: seq<Id>, size: nat, number: nat): (r: seq<Id>)
    requires size > 0 && number >= 1
    ensures |r| <= size
    ensures (number - 1) * size <= |s| ==> |r| == if number * size <= |s| then size else |s| - (number - 1) * size
    ensures forall i :: 0 <= i < |r| ==> (number - 1) * size + i < |s| && r[i] == s[(number - 1) * size + i]
  {
    var lo := if (number - 1) * size <= |s| then (number - 1) * size else |s|;
    var hi := if number * size <= |s| then number * size else |s|;
    s[lo..hi]
  }

  /** A page of a newest-first list of distinct ids is itself one, drawn from the list. */
  lemma {:induction false} PageKeepsOrder<T>(s: seq<Id>, size: nat, number: nat, rows: map<Id, T>, key: T -> nat)
    requires size > 0 && number >= 1
    requires Distinct(s) && NewestFirst(s, rows, key)
    ensures forall id :: id in PageOf(s, size, number) ==> id in s
    ensures Distinct(PageOf(s, size, number)) && NewestFirst(PageOf(s, size, number), rows, key)
  {
    var lo := if (number - 1) * size <= |s| then (number - 1) * size else |s|;
    var hi := if number * size <= |s| then number * size else |s|;
    var page := PageOf(s, size, number);
    assert page == s[lo..hi];
    forall i, j | 0 <= i < j < |page| ensures page[i] != page[j] && key(rows[page[i]]) >= key(rows[page[j]]) {
      assert page[i] == s[lo + i] && page[j] == s[lo + j];
    }
  }

  /** Pages 1 to k, one after the other. */
  function FirstPages(s: seq<Id>, size: nat, k: nat): seq<Id>
    requires size > 0
  {
    if k == 0 then [] else FirstPages(s, size, k - 1) + PageOf(s, size, k)
  }

  /** Reading the pages in order gives the list back: nothing skipped, nothing twice. */
  lemma {:induction false} PagesConcatenate(s: seq<Id>, size: nat, k: nat)
    requires size > 0
    ensures FirstPages(s, size, k) == s[..if k * size <= |s| then k * size else |s|]
  {
    if k > 0 {
      PagesConcatenate(s, size, k - 1);
      var lo := if (k - 1) * size <= |s| then (k - 1) * size else |s|;
      var hi := if k * size <= |s| then k * size else |s|;
      assert (k - 1) * size <= k * size;
      assert PageOf(s, size, k) == s[lo..hi];
      assert s[..lo] + s[lo..hi] == s[..hi];
    }
  }

  /** The second page of a group, ten to a page, holds at most two posts. */
  lemma GroupSecondPage(groups: Table<Group>, posts: Table<Post>, slug: string)
    requires groups.Valid() && SlugsUnique(groups) && posts.Valid()
    requires GroupPosts(groups, posts, slug).Found?
    ensures |PageOf(GroupPosts(groups, posts, slug).value.posts, PageSize, 2)| <= GroupFeedCap - PageSize
  {
  }

  /**
   One page of the follow feed, FollowPageSize posts to a page: each post on
   it is by an author the viewer follows, once, newest first.
   */
  function FollowPage(posts: Table<Post>, follows: Table<Follow>, viewer: UserId, number: nat): (page: seq<Id>)
    requires posts.Valid() && FollowsUnique(follows) && number >= 1
    ensures |page| <= FollowPageSize
    ensures forall id :: id in page ==> id in posts.rows && IsFollowing(follows, viewer, posts.rows[id].author)
    ensures Distinct(page) && NewestFirst(page, posts.rows, PubDate)
  {
    var feed := FollowIndex(posts, follows, viewer);
    PageKeepsOrder(feed, FollowPageSize, number, posts.rows, PubDate);
    PageOf(feed, FollowPageSize, number)
  }

  // ---------------------------------------------------------------------------
  // Mutating handlers (login required: the viewer is a registered user)

  /** The post form accepts non-empty text and, if given, an existing group. */
  predicate PostFormValid(groups: Table<Group>, form: PostForm)
  {
    form.text != "" && (form.group.Some? ==> form.group.value in groups.rows)
  }

  /** The comment form accepts non-empty text of at most 500 characters. */
  predicate CommentFormValid(form: CommentForm)
  {
    form.text != "" && |form.text| <= CommentMaxLength
  }

  /**
   `new_post`: a valid submission becomes a post by the viewer, published now;
   otherwise (no submission, or an invalid one) the form is shown again.
   */
  method NewPost(db: Store, viewer: UserId, form: Option<PostForm>, now: nat) returns (r: Response)
    requires db.Valid() && viewer in db.users
    modifies db
    ensures db.Valid()
    ensures form.Some? && PostFormValid(old(db.groups), form.value) ==>
      && r == Redirect(IndexPage)
      && db.posts.next == old(db.posts.next) + 1
      && db.posts.rows.Keys == old(db.posts.rows.Keys) + {old(db.posts.next)}
      && old(db.posts.next) !in old(db.posts.rows)
      && db.posts.rows[old(db.posts.next)] == Post(form.value.text, now, viewer, form.value.group, form.value.image)
      && (forall k :: k in old(db.posts.rows) ==> db.posts.rows[k] == old(db.posts.rows[k]))
      && db.users == old(db.users) && db.groups == old(db.groups)
      && db.comments == old(db.comments) && db.follows == old(db.follows)
    ensures !(form.Some? && PostFormValid(old(db.groups), form.value)) ==> r == ShowForm && unchanged(db)
  {
    if form.Some? && PostFormValid(db.groups, form.value) {
      var _ := db.CreatePost(viewer, form.value.text, form.value.group, form.value.image, now);
      r := Redirect(IndexPage);
    } else {
      r := ShowForm;
    }
  }

  /**
   `post_edit`: only the post's author may edit it, and a valid edit changes
   only its group, text and image.
   */
  method PostEdit(db: Store, viewer: UserId, username: UserId, postId: Id, form: Option<PostForm>)
    returns (r: Response)
    requires db.Valid() && viewer in db.users
    modifies db
    ensures db.Valid()
    ensures postId !in old(db.posts.rows) ==> r == Missing && unchanged(db)
    ensures postId in old(db.posts.rows) && old(db.posts.rows[postId]).author != viewer ==>
      r == Redirect(PostPage(username, postId)) && unchanged(db)
    ensures postId in old(db.posts.rows) && old(db.posts.rows[postId]).author == viewer ==>
      if form.Some? && PostFormValid(old(db.groups), form.value) then
        && r == Redirect(PostPage(username, postId))
        && db.posts.next == old(db.posts.next)
        && db.posts.rows.Keys == old(db.posts.rows.Keys)
        && db.posts.rows[postId] == old(db.posts.rows[postId]).(group := form.value.group, text := form.value.text, image := form.value.image)
        && (forall k :: k in db.posts.rows && k != postId ==> db.posts.rows[k] == old(db.posts.rows[k]))
        && db.users == old(db.users) && db.groups == old(db.groups)
        && db.comments == old(db.comments) && db.follows == old(db.follows)
      else
        r == ShowForm && unchanged(db)
    ensures PostsStable(old(db.posts), db.posts)
  {
    if postId !in db.posts.rows {
      return Missing;
    }
    if db.posts.rows[postId].author != viewer {
      return Redirect(PostPage(username, postId));
    }
    if form.Some? && PostFormValid(db.groups, form.value) {
      db.SavePost(postId, form.value.text, form.value.group, form.value.image);
      r := Redirect(PostPage(username, postId));
    } else {
      r := ShowForm;
    }
  }

  /**
   `add_comment`: a valid comment on an existing post is stored with the
   viewer as author; either way the handler redirects to the post.
   */
  method AddComment(db: Store, viewer: UserId, username: UserId, postId: Id, form: Option<CommentForm>, now: nat)
    returns (r: Response)
    requires db.Valid() && viewer in db.users
    modifies db
    ensures db.Valid()
    ensures postId !in old(db.posts.rows) ==> r == Missing && unchanged(db)
    ensures postId in old(db.posts.rows) ==> r == Redirect(PostPage(username, postId))
    ensures postId in old(db.posts.rows) && form.Some? && CommentFormValid(form.value) ==>
      && db.comments.next == old(db.comments.next) + 1
      && db.comments.rows.Keys == old(db.comments.rows.Keys) + {old(db.comments.next)}
      && old(db.comments.next) !in old(db.comments.rows)
      && db.comments.rows[old(db.comments.next)] == Comment(Some(postId), viewer, form.value.text, now)
      && |db.comments.rows[old(db.comments.next)].text| <= CommentMaxLength
      && (forall k :: k in old(db.comments.rows) ==> db.comments.rows[k] == old(db.comments.rows[k]))
      && db.users == old(db.users) && db.groups == old(db.groups)
      && db.posts == old(db.posts) && db.follows == old(db.follows)
    ensures !(form.Some? && CommentFormValid(form.value)) ==> unchanged(db)
  {
    if postId !in db.posts.rows {
      return Missing;
    }
    if form.Some? && CommentFormValid(form.value) {
      var _ := db.CreateComment(postId, viewer, form.value.text, now);
    }
    r := Redirect(PostPage(username, postId));
  }

  /** `profile_follow`: follow an existing author other than oneself; repeating it adds nothing. */
  method ProfileFollow(db: Store, viewer: UserId, username: UserId) returns (r: Response)
    requires db.Valid() && viewer in db.users
    modifies db
    ensures db.Valid()
    ensures username !in old(db.users) ==> r == Missing && unchanged(db)
    ensures username in old(db.users) ==> r == Redirect(ProfilePage(username))
    ensures username in old(db.users) && viewer != username ==>
      && db.follows == GetOrCreate(old(db.follows), Follow(viewer, username))
      && EdgeCount(db.follows, Follow(viewer, username)) == 1
      && db.users == old(db.users) && db.groups == old(db.groups)
      && db.posts == old(db.posts) && db.comments == old(db.comments)
    ensures viewer == username ==> unchanged(db)
  {
    if username !in db.users {
      return Missing;
    }
    if viewer != username {
      var _ := db.GetOrCreateFollow(viewer, username);
      EdgeCountAtMostOne(db.follows, Follow(viewer, username));
    }
    r := Redirect(ProfilePage(username));
  }

  /** `profile_unfollow`: drop the viewer's edge to an existing author; unfollowing oneself changes nothing. */
  method ProfileUnfollow(db: Store, viewer: UserId, username: UserId) returns (r: Response)
    requires db.Valid() && viewer in db.users
    modifies db
    ensures db.Valid()
    ensures username !in old(db.users) ==> r == Missing && unchanged(db)
    ensures username in old(db.users) ==> r == Redirect(ProfilePage(username))
    ensures username in old(db.users) && viewer != username ==>
      && db.follows == Unfollowed(old(db.follows), Follow(viewer, username))
      && !IsFollowing(db.follows, viewer, username)
      && db.users == old(db.users) && db.groups == old(db.groups)
      && db.posts == old(db.posts) && db.comments == old(db.comments)
    ensures viewer == username ==> unchanged(db)
  {
    if username !in db.users {
      return Missing;
    }
    if viewer == username {
      return Redirect(ProfilePage(username));
    }
    db.DeleteFollow(viewer, username);
    r := Redirect(ProfilePage(username));
  }
}
