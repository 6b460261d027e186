# Yatube follow graph and feeds, in Dafny

This project models the core of Yatube, a small blogging site. Users publish posts. A post may carry a group and an image. Users comment on posts and follow other authors. The site shows four feeds: all posts, a group's posts, an author's profile and the follow feed.

The model has two parts, one per core file.

- **The entity store** (`posts/models.py`, modules `Tables` and `Models`).
  - Every table is an auto-incrementing `Table<T>`: a map from primary key to row, plus the next key to hand out.
  - The class `Models.Store` holds the group, post, comment and follow tables and the set of registered users.
  - Its invariant `Models.Consistent` states both uniqueness constraints and referential integrity. The two constraints are the unique slug and the unique (user, author) pair of a Follow row.
  - Its delete methods carry out the on-delete rules. CASCADE applies to a post's author, a comment's post and author, and both ends of a Follow row. SET_NULL applies to a post's group.
- **The request handlers** (`posts/views.py`, modules `Ordering`, `Views` and `Properties`).
  - The query views are pure functions of the tables: `index`, `group_posts`, `profile`, `post_view` and `follow_index`.
  - Each one is a filter, an `order_by("-pub_date")`, a `[:12]` cut, or a count.
  - The mutating views are methods on the store: `new_post`, `post_edit`, `add_comment`, `profile_follow` and `profile_unfollow`.
  - `get_object_or_404` becomes the `NotFound` / `Missing` outcome. A redirect or a re-displayed form becomes a `Response` value.

Conventions:

- Users are opaque and identified by their username, which is unique and non-empty.
- Timestamps (`pub_date`, `created`) are naturals. The clock reading is a parameter (`now`).
- An image is an opaque optional path.
- The ORM gives no order to posts with equal `pub_date`. So every ordering contract promises only that timestamps never increase along a feed. The insertion sort that computes a feed does pick some order for equal timestamps. No ordering contract promises that order, but the list equalities in `Properties.FilterSame` and the `Properties.EditKeeps*` lemmas depend on it (see "## Left out").

Some behaviours of the code are easy to assume otherwise. The model does what the code does:

- Self-follow is silently ignored. `profile_follow` redirects and stores nothing. It is not rejected as an error.
- Re-following is an idempotent `get_or_create`. It is not a Conflict.
- Equal timestamps have no tie-break.
- The follow feed pages 5 posts at a time, where the other feeds page 10.
- The group feed is cut to 12 posts before paging.
- `post_view` looks the post up by id alone and does not check that it belongs to the username in the URL.

## Model

| member | source | states |
|---|---|---|
| Models.Store.AddUser | posts/models.py:1-3 | stands in for the authentication system's `create_user`, which lies outside these files: a non-empty username not yet taken is added and nothing else changes; any other name changes nothing |
| Models.Store.AddGroup | posts/models.py:7-10 | a slug already in use stores nothing (Conflict); otherwise the returned id is the table's next id and names exactly the new group; slugs stay unique; no counter moves back |
| Models.Store.CreatePost | posts/models.py:16-30 | a new post gets a fresh id, the given author, group, image and text, and `pub_date` = the clock at insertion; no other row changes |
| Models.EditPost | posts/forms.py:10 | saving an edit writes text, group and image of that one post; its author and `pub_date` and every other post are unchanged |
| Models.Store.SavePost | posts/views.py:126-128 | the stored post becomes the edited one (only the form's fields differ), the id counter stays, and the integrity invariant is kept |
| Models.Store.CreateComment | posts/models.py:33-44 | a new comment gets a fresh id and refers to the given existing post and author; no other row changes |
| Models.GetOrCreate | posts/views.py:194-196 | afterwards the edge exists; if it already existed the table is unchanged; otherwise only that edge is added; uniqueness of (user, author) is preserved |
| Models.Store.GetOrCreateFollow | posts/views.py:195-196 | the Follow table becomes `GetOrCreate` of the old one; `created` is true iff the edge was absent |
| Models.Unfollowed | posts/views.py:208-209 | afterwards no (user, author) edge exists; every other row is kept unchanged; uniqueness is preserved |
| Models.Store.DeleteFollow | posts/views.py:208-209 | the Follow table becomes `Unfollowed` of the old one; nothing else changes |
| Models.EdgeCount | posts/models.py:58-59 | the number of Follow rows equal to an edge |
| Models.EdgeCountAtMostOne | posts/models.py:58-59 | under `unique_together` an edge is stored exactly once if followed and zero times otherwise |
| Models.Followers | posts/views.py:68 | a user is in the set iff they follow the author |
| Models.Followed | posts/views.py:69 | an author is in the set iff the user follows them |
| Models.FollowerCount | posts/views.py:68 | counting Follow rows whose author is `u` gives the number of distinct followers of `u` |
| Models.FollowingCount | posts/views.py:69 | counting Follow rows whose user is `u` gives the number of distinct authors `u` follows |
| Models.Store.DeletePost | posts/models.py:34-38 | the post goes, and exactly the comments whose post it is go with it; other comments, posts and tables are untouched; no id counter moves, so a deleted id is never handed out again |
| Models.Store.DeleteGroup | posts/models.py:24-27 | the group goes; every post stays, and those of that group now have no group; the id counters stay; nothing else changes |
| Models.Store.DeleteUser | posts/models.py:21-56 | removes the user's posts, their comments, comments on their posts, and every Follow row where they are user or author; everything else stays, the id counters included |
| Tables.Count | posts/views.py:58 | `count()` equals the number of rows satisfying the filter |
| Ordering.SortNewestFirst | posts/views.py:11 | the result is a permutation of the input and its keys are non-increasing |
| Ordering.FilterNewestFirst | posts/views.py:177-179 | exactly the matching rows, each once, keys non-increasing, length = count of matches |
| Ordering.Newest | posts/views.py:24 | `[:n]` of a newest-first list has min(n, length) items, is still newest first, and no item left out is newer than one kept |
| Views.Index | posts/views.py:11 | every post exactly once, `pub_date` non-increasing |
| Views.FindGroup | posts/views.py:23 | under unique slugs, returns the one group with that slug, and none iff no group has it |
| Views.GroupFeed | posts/views.py:24 | only posts of that group, each once, newest first, min(12, group size) of them, and no post of the group left out is newer than one shown |
| Views.GroupPosts | posts/views.py:22-25 | NotFound iff no group has the slug; otherwise the group with that slug and its capped feed |
| Views.AuthorFeed | posts/views.py:57-58 | exactly the author's posts, each once, newest first; its length is their number |
| Views.Profile | posts/views.py:54-69 | NotFound iff the username is unknown; otherwise the author's feed; `count` is the number of posts they wrote; `following` is none for an anonymous viewer and otherwise true iff the viewer follows the author; `followers` and `following_authors` count the distinct users on each side |
| Views.PostView | posts/views.py:85-95 | NotFound iff the username or the post id is unknown; otherwise that post (whatever its author), exactly its comments newest first, the named author's post count and follow counts |
| Views.FollowIndex | posts/views.py:177-179 | under unique Follow rows, a post is in the feed iff its author is followed by the viewer; each once, newest first |
| Views.FollowPage | posts/views.py:177-182 | a page of the follow feed holds at most 5 posts, each by a followed author, once, newest first |
| Views.PageKeepsOrder | posts/views.py:180-182 | a page of a newest-first list of distinct posts is drawn from it and is itself distinct and newest first |
| Views.PageOf | posts/views.py:12-14 | page k of size n holds at most n items, namely items (k-1)n onward of the list, and exactly min(n, rest) of them when the page starts inside the list |
| Views.PagesConcatenate | posts/views.py:12-14 | reading pages 1..k in order gives the first k·n items: nothing skipped, nothing repeated |
| Views.GroupSecondPage | posts/views.py:24-25 | the second page of a group feed, ten per page, holds at most two posts |
| Views.NewPost | posts/views.py:38-51 | a valid form adds one post by the viewer dated now and redirects to the index; otherwise the form is shown again and nothing changes |
| Views.PostEdit | posts/views.py:112-138 | unknown post: NotFound; not the author: redirect and nothing changes; valid form: only group, text and image of that post change; invalid: form again, nothing changes |
| Views.AddComment | posts/views.py:157-171 | unknown post: NotFound; a valid comment (non-empty, at most 500 characters) is stored on that post by the viewer; always redirects to the post |
| Views.ProfileFollow | posts/views.py:191-198 | unknown author: NotFound; viewer ≠ author: the edge exists exactly once afterwards; self-follow changes nothing |
| Views.ProfileUnfollow | posts/views.py:202-210 | unknown author: NotFound; viewer ≠ author: the edge is gone and other rows stay; self-unfollow changes nothing |
| Properties.FollowTwice | posts/views.py:194-196 | following a second time changes nothing and leaves exactly one edge |
| Properties.UnfollowOnlyThatEdge | posts/views.py:205-209 | unfollowing leaves zero such edges, keeps every other follow relation, and is idempotent |
| Properties.FollowThenUnfollow | posts/tests.py:335-381 | follow then unfollow leaves no edge between the two users |
| Properties.FollowFeedAfterFollow | posts/tests.py:383-407 | after v follows a, every post of a is in v's feed and in the feed of no user who did not already follow a |
| Properties.NewPostHeadsIndex | posts/models.py:18-20 | a post dated later than every stored post comes first in the index |
| Properties.FilterSame | posts/views.py:177-179 | the model's filtered, sorted query gives the same list on two tables that agree on the filter's verdict and the key |
| Properties.EditKeepsIndex | posts/views.py:126-128 | an edit leaves the model's index list as it was (same posts, same dates at every position) |
| Properties.EditKeepsAuthorFeed | posts/views.py:126-128 | an edit leaves the model's list for every profile as it was |
| Properties.EditKeepsFollowFeed | posts/views.py:126-128 | an edit leaves the model's follow feed of every viewer as it was |

## Left out

- HTTP: rendering, templates, redirect URLs and status codes, `page_not_found` and `server_error` (posts/views.py:141-154). Outcomes are result values.
- `@login_required` and authentication. Each mutating view takes a viewer who is a registered user. The login redirect for anonymous users is not modelled.
- Views.PageOf: models a page only as a slice of the ordered list. `Paginator.get_page` parsing of the `page` parameter and its clamping of out-of-range pages are library behaviour and are not modelled.
- Form validation beyond the fields the forms expose. A post form is valid when its text is non-empty and its group, if given, exists. A comment form is valid when its text is non-empty and at most 500 characters. Whitespace stripping and other field cleaning are not modelled.
- Image upload and validation. An image is an opaque optional value, and an edit's form supplies the image to store.
- The page cache, URL routing (posts/urls.py) and the admin configuration (posts/admin.py).
- Users other than by username, and their full names. Registration belongs to the authentication system; `Models.Store.AddUser` only stands in for it, so that the store has users to refer to.
- `profile` passes the follow counts as the bound `count` method, which the template then calls. The model returns the number the page shows.
- Concurrency. Two simultaneous `get_or_create` calls race in the database. The model treats each handler as atomic.
- Deleting a post, group or user is not reachable from any view. It exists only as the store's delete methods, because the on-delete rules live in the schema.
- Group title and slug format limits (`max_length=200`, slug syntax) are not modelled.
- Properties.EditKeepsIndex: the list equality relies on the order the model's insertion sort gives to posts with equal `pub_date` (see above). `order_by("-pub_date")` fixes no such order. What the source does fix is that the same posts appear, with the same date at every position, and that follows from the equality.
- Properties.EditKeepsAuthorFeed: the same tie-order caveat as `Properties.EditKeepsIndex` applies.
- Properties.EditKeepsFollowFeed: the same tie-order caveat as `Properties.EditKeepsIndex` applies.
- Properties.FilterSame: the list equality is about the model's own tie order. The database may list posts with equal dates differently on each query.
