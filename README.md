# Yatube posts: a verified model of the feed and subscription rules

Yatube is a small blogging site. Users write posts, optionally tagged with a
community group. Readers page through feeds, comment on posts, and follow
authors to get a personal feed. This project models the posts app of that
site as an in-memory store and proves the app's data rules about it:

- the records (users, groups, posts, comments, follow edges) and the schema's
  integrity rules: unique usernames, group slugs and (user, author) follow
  pairs, and references that must resolve;
- one further invariant that the schema does not declare: no user follows
  themselves. The views that write follow rows skip that edge, so every
  modelled operation keeps it;
- the table orderings: posts newest first by `pub_date`, comments oldest
  first by `created`;
- the four feeds: every post, one group's posts, one author's posts, and the
  posts of the authors a viewer follows;
- the profile page's `following` flag and the data on a post's detail page;
- fixed-size pagination;
- the mutating views: create and edit a post, add a comment, follow and
  unfollow an author;
- what deleting a group, a post or a user does to the rows that refer to it;
- the string forms of posts and groups. A group's string is its title by
  definition (`Models.GroupStr`); that is not a proved property.

Layout, one module per file:

- `Collections.dfy`: an order-preserving `Filter`, and `Pairwise` relations
  for orderings and uniqueness. The filtered feeds and every filter-delete
  are built from these.
- `Models.dfy` (`yatube/posts/models.py`): the records, the `Consistent`
  store invariant (the schema's declared constraints, the declared orderings
  and the no-self-follow invariant), `__str__`, and the on-delete rules as
  functions from tables to tables.
- `Paging.dfy` (`paginator` in `yatube/posts/views.py`): pages and the page
  actually served for a requested number.
- `Feeds.dfy` (the read-only views): lookups behind `get_object_or_404`, the
  feeds, and the profile and detail pages. Each is a function of the tables.
  `GroupView`, `ProfileView` and `FollowIndex` return the whole queryset.
  `IndexView`, `GroupPageView`, `ProfilePageView` and `FollowPageView` are
  the same views as served: their feed goes through `paginator`
  (`Paging.GetPage`).
- `Blog.dfy` (the mutating views): class `Store`, which holds the tables as
  sequence fields. Its object invariant `Valid()` is `Consistent` plus
  counters for ids and instants. Each view is a method whose `ensures` gives
  the new tables in terms of the old ones. Functions beside the class state
  the follow-table and post-table updates and are proved idempotent,
  reversible and invariant-preserving.

Modelling choices:

- Each table is stored in its declared ordering. A new post is put first and
  a new comment last. `pub_date` and `created` come from a single counter
  `clock` that strictly increases. `NewestFirstDetermined` shows that
  membership plus newest-first order fixes a feed completely. So a feed's
  contract ("exactly these posts, newest first") determines the feed.
- Users are plain ids with a username. The requester is an explicit `Viewer`:
  `Anonymous`, or `Authenticated(id)` for an existing user. `login_required`
  becomes an `AccessDenied` result. `get_object_or_404` becomes `NotFound`.
- Follow edges are a sequence, not a set, so the unique constraint is a real
  invariant that the methods must keep. The subscription feed is modelled as
  the SQL join it is (`FollowJoin`): one result row per matching follow row.
  `FollowJoinIsFilter` proves that, because of the unique constraint, the
  join equals the filter "the viewer follows the post's author".
- The profile page's `following` flag is `author.following.exists()`. The
  model computes exactly that: the flag is true when anybody follows the
  author, whoever is looking. `FollowingFlagIgnoresViewer` exhibits a viewer
  who follows nobody and still sees the flag set.
- Deleting a user cascades to their posts. Through those posts it also
  cascades to the comments on them, including comments written by other
  users. The model removes those comments too.
- A form is valid when its text is non-empty and its group, if given, is an
  existing group. `add_comment` with an invalid form redirects without
  saving anything. The model returns `ValidationFailed` and leaves the store
  unchanged.
- The page size (`MAX_POSTS`) and the truncation length (`LEN_OF_POSTS`)
  come from settings that are not part of this model, so both are
  parameters.
- Page selection. `paginator` hands the `page` parameter to the framework's
  `get_page`. The model assumes `get_page` behaves like this, kept separate
  as `Paging.ServedPage`:
  - a missing or non-integer number gives page 1;
  - any other integer outside the page range gives the last page, including
    0 and negative numbers.

  This is not "clamp to the nearest page": page 0 gives the last page, not
  the first.

## Model

| member | source | states |
|---|---|---|
| `Models.PostStr` | yatube/posts/models.py:42-44 | a post prints as a prefix of its text whose length is min(length of the text, the limit) |
| `Models.Consistent` | yatube/posts/models.py:11-66 | the store invariant: unique user ids and usernames, unique group ids and slugs (models.py:11), unique post and comment ids, posts newest first (models.py:39-40), comments oldest first (models.py:73-74), unique follow pairs (models.py:53-59), every author, group, post and follow end resolving (models.py:27-31, 48-50, 63-66), and no self-follow, which the views keep rather than the schema |
| `Models.NewestFirst` | yatube/posts/models.py:39-40 | every post is strictly newer than every later post in the sequence |
| `Models.NewestFirstIffAdjacent` | yatube/posts/models.py:39-40 | newest first holds exactly when each post is strictly newer than the next one |
| `Models.OldestFirst` | yatube/posts/models.py:73-74 | every comment is strictly older than every later comment in the sequence |
| `Models.OldestFirstIffAdjacent` | yatube/posts/models.py:73-74 | oldest first holds exactly when each comment is strictly older than the next one |
| `Models.UniqueFollows` | yatube/posts/models.py:53-59 | no two follow rows are the same (user, author) pair |
| `Models.UniqueFollowsIffOnce` | yatube/posts/models.py:53-59 | the unique constraint holds exactly when each stored edge occurs once in the table |
| `Models.NewestFirstDetermined` | yatube/posts/models.py:39-40 | two newest-first post sequences with the same members are equal, so membership and the declared ordering determine a feed |
| `Models.NullGroup` | yatube/posts/models.py:30-31 | after a group is deleted, every post is still there in the same place; posts of that group have no group and are otherwise unchanged; other posts are unchanged; no post refers to the group; ordering and ids are kept |
| `Models.DeleteGroup` | yatube/posts/models.py:30-31 | deleting a group removes exactly that group, nulls its posts' group (SET_NULL), leaves users, comments and follows alone, and keeps the store consistent |
| `Models.DeletePost` | yatube/posts/models.py:63-64 | deleting a post removes exactly that post and exactly the comments on it (CASCADE); orderings and consistency are kept |
| `Models.DeleteUser` | yatube/posts/models.py:27-66 | deleting a user removes exactly that user, their posts, every comment by them or on a removed post, and every follow edge with them at either end; in a consistent store each comment on one of their posts is gone; consistency is kept |
| `Paging.OffsetIsProduct` | yatube/posts/views.py:13-15 | page k starts at offset (k - 1) times the page size |
| `Paging.NumPages` | yatube/posts/views.py:13 | there is at least one page; an empty feed has one page; otherwise the last page starts before the end of the feed and reaches it |
| `Paging.Page` | yatube/posts/views.py:15 | every page but the last holds exactly the page size; no page is longer; a non-empty feed has no empty page; a page holds only feed items |
| `Paging.PageIsSlice` | yatube/posts/views.py:12-15 | page k is the consecutive slice of the feed from offset (k - 1) * size to k * size, cut at the end of the feed |
| `Paging.LastPageIsRemainder` | yatube/posts/views.py:12-15 | the last page holds exactly the items from its offset to the end of the feed |
| `Paging.PagesCover` | yatube/posts/views.py:12-15 | the pages read one after another are the whole feed: no item is lost or repeated, order is kept |
| `Paging.PagesArePages` | yatube/posts/views.py:12-15 | there are NumPages pages and the k-th of them is page k |
| `Paging.ThirteenItemsAtTen` | yatube/posts/tests/test_paginator.py:40-55 | 13 items at page size 10 make two pages, of 10 and of 3 items |
| `Paging.ServedPage` | yatube/posts/views.py:14-15 | the page served is a valid page: the requested one if it exists, page 1 for a missing or non-integer number, the last page for any other integer |
| `Paging.GetPage` | yatube/posts/views.py:12-18 | the served items are at most a page size, all from the feed, and are the page chosen by ServedPage |
| `Feeds.FindUser` | yatube/posts/views.py:44 | finds a user with the given username exactly when one exists |
| `Feeds.FindGroup` | yatube/posts/views.py:33 | finds a group with the given slug exactly when one exists |
| `Feeds.FindPost` | yatube/posts/views.py:58 | finds the post with the given id exactly when the id is stored |
| `Feeds.GlobalFeed` | yatube/posts/views.py:24 | the index feed holds every post, newest first |
| `Feeds.GroupPosts` | yatube/posts/views.py:34 | holds exactly the posts of the group, order preserved |
| `Feeds.AuthorPosts` | yatube/posts/views.py:45 | holds exactly the posts by the author, order preserved |
| `Feeds.PostComments` | yatube/posts/views.py:61 | holds exactly the comments on the post, oldest first |
| `Feeds.FollowJoin` | yatube/posts/views.py:121 | every row of the subscription join is a stored post whose author the user follows |
| `Feeds.FollowJoinIsFilter` | yatube/posts/views.py:121 | under the unique follow constraint the join is exactly the filter "the user follows the post's author", each post once, in store order |
| `Feeds.GroupView` | yatube/posts/views.py:32-40 | NotFound exactly when no group has the slug; otherwise the group with that slug and exactly its posts, newest first |
| `Feeds.ProfileView` | yatube/posts/views.py:43-54 | NotFound exactly when no user has the username; otherwise that user, exactly their posts newest first, and `following` true exactly when anybody follows them |
| `Feeds.FollowingFlagIgnoresViewer` | yatube/posts/views.py:46 | a viewer who follows nobody sees `following` set on the profile of an author someone else follows |
| `Feeds.FollowIndex` | yatube/posts/views.py:119-124 | AccessDenied exactly for an anonymous viewer; otherwise, under the unique constraint, exactly the posts whose author the viewer follows, newest first |
| `Feeds.ServedPageKeepsOrder` | yatube/posts/views.py:12-15 | any page served from a newest-first feed is itself newest first |
| `Feeds.IndexView` | yatube/posts/views.py:22-29 | the index serves at most a page size of stored posts, none on an empty store and at least one otherwise, newest first, namely the page of the global feed chosen by ServedPage |
| `Feeds.GroupPageView` | yatube/posts/views.py:32-40 | NotFound exactly for an unknown slug; otherwise that group and at most a page size of its posts, newest first, namely the served page of its whole feed |
| `Feeds.ProfilePageView` | yatube/posts/views.py:43-54 | NotFound exactly for an unknown username; otherwise that user, at most a page size of their posts, newest first, the served page of their whole feed, and the `following` flag |
| `Feeds.FollowPageView` | yatube/posts/views.py:119-124 | AccessDenied exactly for an anonymous viewer; otherwise at most a page size of posts by followed authors, newest first under the unique constraint, the served page of the whole subscription feed |
| `Feeds.PostDetail` | yatube/posts/views.py:57-69 | NotFound exactly when the id is not stored; otherwise that post, the number of its author's posts, and exactly its comments oldest first |
| `Feeds.DetailCountIsProfileLength` | yatube/posts/views.py:59 | in a consistent store the detail page's post count equals the length of the author's profile feed |
| `Blog.GetOrCreateFollow` | yatube/posts/views.py:132 | afterwards the edge is present, and exactly once when the table was unique; no other edge appears or disappears; an existing edge leaves the table unchanged |
| `Blog.DeleteFollow` | yatube/posts/views.py:141-144 | removes exactly the (user, author) edge; a no-op when it is absent; keeps the table unique |
| `Blog.FollowIdempotent` | yatube/posts/views.py:132 | following twice gives the same table as following once |
| `Blog.UnfollowUndoesFollow` | yatube/posts/views.py:131-144 | unfollowing right after a follow that created the edge restores the old table |
| `Blog.FollowShowsPosts` | yatube/posts/tests/test_views.py:154-161 | after a user follows an author, each of the author's posts is in the user's subscription feed |
| `Blog.UnfollowHidesPosts` | yatube/posts/views.py:141-144 | after a user unfollows an author, none of the author's posts is in the user's subscription feed |
| `Blog.PostFormValid` | yatube/posts/views.py:75 | the assumed post form check, used by both create and edit (line 96 too): the text is non-empty and a chosen group exists |
| `Blog.CommentFormValid` | yatube/posts/views.py:111 | the assumed comment form check: the text is non-empty |
| `Blog.EditPost` | yatube/posts/views.py:96-97 | the edited post gets the new text and group in place; no post moves, appears or disappears; other posts are unchanged; ids and ordering are kept |
| `Blog.NewPostHeadsFeeds` | yatube/posts/views.py:76-78 | a new post, newer than all others, keeps the table newest-first, heads the global feed, heads its author's and its group's feed, and the author's post count grows by one |
| `Blog.Store.Valid` | yatube/posts/models.py:9-66 | the store's invariant: its tables are `Consistent`, and every id and instant handed out is below the matching counter, so the next one is fresh and newest |
| `Blog.Store.AddUser` | yatube/posts/models.py:6 | a new username adds one user with a fresh id; a taken username is Duplicate and changes nothing; the invariant is kept |
| `Blog.Store.AddGroup` | yatube/posts/models.py:9-12 | a new slug adds one group with a fresh id; a taken slug is Duplicate and changes nothing; slugs stay unique |
| `Blog.Store.PostCreate` | yatube/posts/views.py:72-80 | AccessDenied for an anonymous viewer; ValidationFailed for an invalid form; otherwise exactly one post is added, authored by the viewer, first in the table; no other table changes |
| `Blog.Store.PostEdit` | yatube/posts/views.py:83-104 | AccessDenied for an anonymous viewer or a non-author, NotFound for an unknown id, ValidationFailed for an invalid form, in all of which the store is unchanged; otherwise the post is edited in place and the post count is kept |
| `Blog.Store.AddComment` | yatube/posts/views.py:107-116 | AccessDenied for an anonymous viewer, NotFound for an unknown post, ValidationFailed for an invalid form; otherwise exactly one comment is appended with the viewer as author and the post as target |
| `Blog.Store.ProfileFollow` | yatube/posts/views.py:127-133 | AccessDenied for an anonymous viewer, NotFound for an unknown username; following oneself leaves the follow table unchanged; otherwise get-or-create of the edge; the unique constraint is kept |
| `Blog.Store.ProfileUnfollow` | yatube/posts/views.py:136-145 | AccessDenied for an anonymous viewer, NotFound for an unknown username; unfollowing oneself leaves the follow table unchanged; otherwise the edge is deleted |
| `Blog.Store.DeleteGroup` | yatube/posts/models.py:30-31 | the store becomes `Models.DeleteGroup` of the old one and stays valid |
| `Blog.Store.DeletePost` | yatube/posts/models.py:63-64 | the store becomes `Models.DeletePost` of the old one and stays valid |
| `Blog.Store.DeleteUser` | yatube/posts/models.py:27-66 | the store becomes `Models.DeleteUser` of the old one and stays valid |

## Left out

- The 20-second `cache_page` on the index view: it is time-based framework caching and holds no data rule.
- Template rendering, page titles, redirect targets and HTTP statuses. Redirect-to-login becomes `AccessDenied`; `post_edit`'s redirect of a non-author becomes `AccessDenied` with the store unchanged.
- A GET to `post_create` or `post_edit` only renders an empty form. Every call in the model is a submission.
- The form classes are not part of this model. Validity is approximated as "text non-empty and any group exists". Whitespace stripping of the text is not modelled.
- The `image` field, uploads and media storage.
- `Comment.__str__`: it formats the framework's user display and the post string, and has no rule of its own.
- Page metadata other than the items (`has_next`, `has_previous`, `count`), and paginator orphans (the code uses none).
- The exact behaviour of `get_page` belongs to the framework. `Paging.ServedPage` is an assumption about it, kept apart from `Paging.Page`.
- A store holding a self-follow row written outside the modelled views is outside the model: `Consistent` excludes it, although the schema admits it.
- Real timestamps: `pub_date` and `created` are a strictly increasing counter, so two posts never tie.
- Database transactions and the atomicity of the unique constraint under concurrent requests.
- User accounts beyond id and unique username. `Blog.Store.AddUser` stands in for account creation by the framework.
- The values of `MAX_POSTS` and `LEN_OF_POSTS`: they live in the settings module, which is not part of this model, so both are parameters.
