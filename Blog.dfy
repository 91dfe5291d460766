/** The write side of the posts views and the store they update: creating
    and editing posts, commenting, following and unfollowing, and the
    deletions whose cascades the schema declares. The store keeps the
    schema's constraints as its object invariant. */
module Blog {
  import opened Collections
  import opened Models
  import opened Feeds

  // ---------------------------------------------------------------------
  // The follow table under follow and unfollow

  /** `get_or_create` of the edge (user, author): the table gains the edge
      unless it is already there. */
  function GetOrCreateFollow(follows: seq<Follow>, user: UserId, author: UserId): (r: seq<Follow>)
    ensures Follow(user, author) in r
    ensures forall f :: f in r <==> f in follows || f == Follow(user, author)
    ensures Follow(user, author) in follows ==> r == follows
    ensures UniqueFollows(follows) ==> UniqueFollows(r) && multiset(r)[Follow(user, author)] == 1
  {
    var e := Follow(user, author);
    if e in follows then
      assert UniqueFollows(follows) ==> multiset(follows)[e] == 1 by {
        if UniqueFollows(follows) { DistinctOccursOnce(follows, e); }
      }
      follows
    else
      var r := follows + [e];
      assert UniqueFollows(follows) ==> UniqueFollows(r) && multiset(r)[e] == 1 by {
        if UniqueFollows(follows) {
          PairwiseAppend(follows, e, Differ);
          DistinctOccursOnce(r, e);
        }
      }
      r
  }

  /** The filter-delete of the rows equal to (user, author). */
  function DeleteFollow(follows: seq<Follow>, user: UserId, author: UserId): (r: seq<Follow>)
    ensures forall f :: f in r <==> f in follows && f != Follow(user, author)
    ensures Follow(user, author) !in follows ==> r == follows
    ensures UniqueFollows(follows) ==> UniqueFollows(r)
  {
    var keep := (f: Follow) => f != Follow(user, author);
    assert Follow(user, author) !in follows ==> Filter(follows, keep) == follows by {
      if Follow(user, author) !in follows { FilterKeepsAll(follows, keep); }
    }
    assert UniqueFollows(follows) ==> UniqueFollows(Filter(follows, keep)) by {
      if UniqueFollows(follows) { FilterPairwise(follows, keep, Differ); }
    }
    Filter(follows, keep)
  }

  /** Following twice is following once. */
  lemma FollowIdempotent(follows: seq<Follow>, user: UserId, author: UserId)
    ensures GetOrCreateFollow(GetOrCreateFollow(follows, user, author), user, author)
         == GetOrCreateFollow(follows, user, author)
  {
  }

  /** Unfollowing undoes a follow that created the edge. */
  lemma {:induction false} UnfollowUndoesFollow(follows: seq<Follow>, user: UserId, author: UserId)
    requires Follow(user, author) !in follows
    ensures DeleteFollow(GetOrCreateFollow(follows, user, author), user, author) == follows
  {
    var keep := (f: Follow) => f != Follow(user, author);
    FilterAppend(follows, [Follow(user, author)], keep);
    FilterKeepsAll(follows, keep);
    assert Filter([Follow(user, author)], keep) == [];
  }

  /** After `user` follows `author`, every post of `author` is in the
      subscription feed of `user`. */
  lemma FollowShowsPosts(t: Tables, user: UserId, author: UserId, p: Post)
    requires UniqueFollows(t.follows)
    requires p in t.posts && p.author == author
    ensures var t' := t.(follows := GetOrCreateFollow(t.follows, user, author));
      p in FollowIndex(t', Authenticated(user)).value
  {
  }

  /** After `user` unfollows `author`, no post of `author` is in the
      subscription feed of `user`. */
  lemma UnfollowHidesPosts(t: Tables, user: UserId, author: UserId, p: Post)
    requires p.author == author
    ensures var t' := t.(follows := DeleteFollow(t.follows, user, author));
      p !in FollowIndex(t', Authenticated(user)).value
  {
  }

  // ---------------------------------------------------------------------
  // The post table under an edit

  predicate PostFormValid(groups: seq<Group>, text: string, group: Option<GroupId>) {
    |text| > 0 && (group.Some? ==> group.value in GroupIds(groups))
  }

  predicate CommentFormValid(text: string) {
    |text| > 0
  }

  /** Post `id` with its text and group replaced, in place: no post moves,
      appears or disappears, and no other post changes. */
  function EditPost(posts: seq<Post>, id: PostId, text: string, group: Option<GroupId>): (r: seq<Post>)
    ensures |r| == |posts|
    ensures forall i :: 0 <= i < |posts| && posts[i].id != id ==> r[i] == posts[i]
    ensures forall i :: 0 <= i < |posts| && posts[i].id == id ==>
              r[i] == posts[i].(text := text, group := group)
    ensures PostIds(r) == PostIds(posts)
    ensures NewestFirst(posts) ==> NewestFirst(r)
    ensures Pairwise(posts, DistinctPosts) ==> Pairwise(r, DistinctPosts)
  {
    var r := seq(|posts|, i requires 0 <= i < |posts| =>
                 if posts[i].id == id then posts[i].(text := text, group := group) else posts[i]);
    assert PostIds(r) == PostIds(posts) by {
      forall x | x in PostIds(posts) ensures x in PostIds(r) {
        var p :| p in posts && p.id == x;
        var i :| 0 <= i < |posts| && posts[i] == p;
        assert r[i] in r;
      }
    }
    r
  }

  /** A new post, newer than every stored one, heads the global feed and its
      author's feed, which grows by exactly one. */
  lemma {:induction false} NewPostHeadsFeeds(posts: seq<Post>, p: Post)
    requires NewestFirst(posts) && forall q :: q in posts ==> q.pubDate < p.pubDate
    ensures NewestFirst([p] + posts)
    ensures GlobalFeed([p] + posts)[0] == p
    ensures AuthorPosts([p] + posts, p.author) == [p] + AuthorPosts(posts, p.author)
    ensures |AuthorPosts([p] + posts, p.author)| == |AuthorPosts(posts, p.author)| + 1
    ensures p.group.Some? ==> GroupPosts([p] + posts, p.group.value) == [p] + GroupPosts(posts, p.group.value)
  {
    PairwisePrepend(p, posts, Newer);
    assert ([p] + posts)[1..] == posts;
  }

  // ---------------------------------------------------------------------
  // The store

  class Store {
    var users: seq<User>
    var groups: seq<Group>
    var posts: seq<Post>
    var comments: seq<Comment>
    var follows: seq<Follow>
    /** Source of `pub_date` and `created`: strictly increasing. */
    var clock: nat
    var nextUserId: nat
    var nextGroupId: nat
    var nextPostId: nat
    var nextCommentId: nat

    function Snapshot(): Tables
      reads this
    {
      Tables(users, groups, posts, comments, follows)
    }

    /** The schema's constraints, plus: every id and instant handed out so
        far is below the corresponding counter. */
    ghost predicate Valid()
      reads this
    {
      Consistent(Snapshot())
      && Bounded(Snapshot(), nextUserId, nextGroupId, nextPostId, nextCommentId, clock)
    }

    /** A signed-in viewer is an existing user. */
    predicate ViewerExists(viewer: Viewer)
      reads this
    {
      viewer.Authenticated? ==> viewer.id in UserIds(users)
    }

    constructor ()
      ensures Valid()
      ensures Snapshot() == Tables([], [], [], [], [])
    {
      users, groups, posts, comments, follows := [], [], [], [], [];
      clock, nextUserId, nextGroupId, nextPostId, nextCommentId := 0, 0, 0, 0, 0;
    }

    /** Registers a user; usernames are unique. */
    method AddUser(username: string) returns (r: Result<UserId>)
      requires Valid()
      modifies this
      ensures Valid()
      ensures r == if FindUser(old(users), username).Some? then Err(Duplicate) else Ok(old(nextUserId))
      ensures users == if r.Ok? then old(users) + [User(r.value, username)] else old(users)
      ensures groups == old(groups) && posts == old(posts) && comments == old(comments) && follows == old(follows)
    {
      if FindUser(users, username).Some? {
        return Err(Duplicate);
      }
      var u := User(nextUserId, username);
      PairwiseAppend(users, u, DistinctUsers);
      IdsGrow(Snapshot(), Snapshot().(users := users + [u]));
      users := users + [u];
      nextUserId := nextUserId + 1;
      r := Ok(u.id);
    }

    /** Creates a group; slugs are unique. */
    method AddGroup(title: string, slug: string, description: string) returns (r: Result<GroupId>)
      requires Valid()
      modifies this
      ensures Valid()
      ensures r == if FindGroup(old(groups), slug).Some? then Err(Duplicate) else Ok(old(nextGroupId))
      ensures groups == if r.Ok? then old(groups) + [Group(r.value, title, slug, description)] else old(groups)
      ensures users == old(users) && posts == old(posts) && comments == old(comments) && follows == old(follows)
    {
      if FindGroup(groups, slug).Some? {
        return Err(Duplicate);
      }
      var g := Group(nextGroupId, title, slug, description);
      PairwiseAppend(groups, g, DistinctGroups);
      IdsGrow(Snapshot(), Snapshot().(groups := groups + [g]));
      groups := groups + [g];
      nextGroupId := nextGroupId + 1;
      r := Ok(g.id);
    }

    /** `post_create`: a valid form becomes a new post authored by the
        viewer, the newest of all. */
    method PostCreate(viewer: Viewer, text: string, group: Option<GroupId>) returns (r: Result<PostId>)
      requires Valid() && ViewerExists(viewer)
      modifies this
      ensures Valid()
      ensures r == if viewer.Anonymous? then Err(AccessDenied)
                   else if !PostFormValid(old(groups), text, group) then Err(ValidationFailed)
                   else Ok(old(nextPostId))
      ensures posts == if r.Ok? then [Post(r.value, text, old(clock), viewer.id, group)] + old(posts)
                       else old(posts)
      ensures users == old(users) && groups == old(groups) && comments == old(comments) && follows == old(follows)
    {
      if viewer.Anonymous? {
        return Err(AccessDenied);
      }
      if !PostFormValid(groups, text, group) {
        return Err(ValidationFailed);
      }
      var p := Post(nextPostId, text, clock, viewer.id, group);
      PairwisePrepend(p, posts, Newer);
      PairwisePrepend(p, posts, DistinctPosts);
      IdsGrow(Snapshot(), Snapshot().(posts := [p] + posts));
      posts := [p] + posts;
      nextPostId := nextPostId + 1;
      clock := clock + 1;
      r := Ok(p.id);
    }

    /** `post_edit`: only the author may edit; a valid form replaces the
        post's text and group in place. */
    method PostEdit(viewer: Viewer, id: PostId, text: string, group: Option<GroupId>) returns (r: Result<()>)
      requires Valid() && ViewerExists(viewer)
      modifies this
      ensures Valid()
      ensures r == if viewer.Anonymous? then Err(AccessDenied)
                   else if FindPost(old(posts), id).None? then Err(NotFound)
                   else if FindPost(old(posts), id).value.author != viewer.id then Err(AccessDenied)
                   else if !PostFormValid(old(groups), text, group) then Err(ValidationFailed)
                   else Ok(())
      ensures posts == if r.Ok? then EditPost(old(posts), id, text, group) else old(posts)
      ensures users == old(users) && groups == old(groups) && comments == old(comments) && follows == old(follows)
      ensures clock == old(clock)
    {
      if viewer.Anonymous? {
        return Err(AccessDenied);
      }
      var found := FindPost(posts, id);
      if found.None? {
        return Err(NotFound);
      }
      if found.value.author != viewer.id {
        return Err(AccessDenied);
      }
      if !PostFormValid(groups, text, group) {
        return Err(ValidationFailed);
      }
      ApplyEdit(id, text, group);
      r := Ok(());
    }

    /** The successful branch of `post_edit`: the form is saved. */
    method ApplyEdit(id: PostId, text: string, group: Option<GroupId>)
      requires Valid() && PostFormValid(groups, text, group)
      modifies this
      ensures Valid()
      ensures posts == EditPost(old(posts), id, text, group)
      ensures users == old(users) && groups == old(groups) && comments == old(comments) && follows == old(follows)
      ensures clock == old(clock)
    {
      EditKeepsConsistent(Snapshot(), id, text, group);
      EditKeepsBounds(posts, id, text, group, nextPostId, clock);
      posts := EditPost(posts, id, text, group);
    }

    /** `add_comment`: a valid form becomes a new comment by the viewer on
        the post, the newest comment of all. */
    method AddComment(viewer: Viewer, postId: PostId, text: string) returns (r: Result<CommentId>)
      requires Valid() && ViewerExists(viewer)
      modifies this
      ensures Valid()
      ensures r == if viewer.Anonymous? then Err(AccessDenied)
                   else if postId !in PostIds(old(posts)) then Err(NotFound)
                   else if !CommentFormValid(text) then Err(ValidationFailed)
                   else Ok(old(nextCommentId))
      ensures comments == if r.Ok? then old(comments) + [Comment(r.value, postId, viewer.id, text, old(clock))]
                          else old(comments)
      ensures users == old(users) && groups == old(groups) && posts == old(posts) && follows == old(follows)
    {
      if viewer.Anonymous? {
        return Err(AccessDenied);
      }
      if FindPost(posts, postId).None? {
        return Err(NotFound);
      }
      if !CommentFormValid(text) {
        return Err(ValidationFailed);
      }
      var c := Comment(nextCommentId, postId, viewer.id, text, clock);
      AppendCommentKeepsConsistent(Snapshot(), c);
      comments := comments + [c];
      nextCommentId := nextCommentId + 1;
      clock := clock + 1;
      r := Ok(c.id);
    }

    /** `profile_follow`: the viewer follows the user named `username`;
        following oneself is ignored and following twice changes nothing. */
    method ProfileFollow(viewer: Viewer, username: string) returns (r: Result<()>)
      requires Valid() && ViewerExists(viewer)
      modifies this
      ensures Valid()
      ensures r == if viewer.Anonymous? then Err(AccessDenied)
                   else if FindUser(old(users), username).None? then Err(NotFound)
                   else Ok(())
      ensures follows == if r.Ok? && FindUser(old(users), username).value.id != viewer.id
                         then GetOrCreateFollow(old(follows), viewer.id, FindUser(old(users), username).value.id)
                         else old(follows)
      ensures users == old(users) && groups == old(groups) && posts == old(posts) && comments == old(comments)
    {
      if viewer.Anonymous? {
        return Err(AccessDenied);
      }
      var author := FindUser(users, username);
      if author.None? {
        return Err(NotFound);
      }
      if author.value.id != viewer.id {
        assert author.value.id in UserIds(users);
        follows := GetOrCreateFollow(follows, viewer.id, author.value.id);
      }
      r := Ok(());
    }

    /** `profile_unfollow`: removes the viewer's edge to the user named
        `username`, if there is one. */
    method ProfileUnfollow(viewer: Viewer, username: string) returns (r: Result<()>)
      requires Valid() && ViewerExists(viewer)
      modifies this
      ensures Valid()
      ensures r == if viewer.Anonymous? then Err(AccessDenied)
                   else if FindUser(old(users), username).None? then Err(NotFound)
                   else Ok(())
      ensures follows == if r.Ok? && FindUser(old(users), username).value.id != viewer.id
                         then DeleteFollow(old(follows), viewer.id, FindUser(old(users), username).value.id)
                         else old(follows)
      ensures users == old(users) && groups == old(groups) && posts == old(posts) && comments == old(comments)
    {
      if viewer.Anonymous? {
        return Err(AccessDenied);
      }
      var author := FindUser(users, username);
      if author.None? {
        return Err(NotFound);
      }
      if author.value.id != viewer.id {
        follows := DeleteFollow(follows, viewer.id, author.value.id);
      }
      r := Ok(());
    }

    /** Deleting a group: its posts stay, without a group. */
    method DeleteGroup(gid: GroupId)
      requires Valid()
      modifies this
      ensures Valid()
      ensures Snapshot() == Models.DeleteGroup(old(Snapshot()), gid)
    {
      var t := Models.DeleteGroup(Snapshot(), gid);
      NullGroupKeepsBounds(posts, gid, nextPostId, clock);
      Load(t);
    }

    /** Deleting a post: its comments go with it. */
    method DeletePost(pid: PostId)
      requires Valid()
      modifies this
      ensures Valid()
      ensures Snapshot() == Models.DeletePost(old(Snapshot()), pid)
    {
      var t := Models.DeletePost(Snapshot(), pid);
      DeletePostKeepsBounds(Snapshot(), pid, nextUserId, nextGroupId, nextPostId, nextCommentId, clock);
      Load(t);
    }

    /** Deleting a user: their posts, the comments by them or on their posts,
        and their follow edges go with them. */
    method DeleteUser(uid: UserId)
      requires Valid()
      modifies this
      ensures Valid()
      ensures Snapshot() == Models.DeleteUser(old(Snapshot()), uid)
    {
      var t := Models.DeleteUser(Snapshot(), uid);
      DeleteUserKeepsBounds(Snapshot(), uid, nextUserId, nextGroupId, nextPostId, nextCommentId, clock);
      Load(t);
    }

    /** Replaces the tables by `t`, which must keep the constraints and stay
        below the counters; the counters do not change. */
    method Load(t: Tables)
      requires Consistent(t) && Bounded(t, nextUserId, nextGroupId, nextPostId, nextCommentId, clock)
      modifies this
      ensures Valid() && Snapshot() == t
      ensures nextUserId == old(nextUserId) && nextGroupId == old(nextGroupId)
      ensures nextPostId == old(nextPostId) && nextCommentId == old(nextCommentId) && clock == old(clock)
    {
      users, groups, posts, comments, follows := t.users, t.groups, t.posts, t.comments, t.follows;
    }
  }

  /** Every id and instant in the tables is below the given counters. */
  predicate Bounded(t: Tables, nextUserId: nat, nextGroupId: nat, nextPostId: nat, nextCommentId: nat, clock: nat) {
    (forall u :: u in t.users ==> u.id < nextUserId)
    && (forall g :: g in t.groups ==> g.id < nextGroupId)
    && (forall p :: p in t.posts ==> p.id < nextPostId && p.pubDate < clock)
    && (forall c :: c in t.comments ==> c.id < nextCommentId && c.created < clock)
  }

  /** A comment on an existing post by an existing user, newer than every
      stored comment and with a fresh id, keeps the store consistent. */
  lemma AppendCommentKeepsConsistent(t: Tables, c: Comment)
    requires Consistent(t) && c.post in PostIds(t.posts) && c.author in UserIds(t.users)
    requires forall d :: d in t.comments ==> d.id < c.id && d.created < c.created
    ensures Consistent(t.(comments := t.comments + [c]))
  {
    PairwiseAppend(t.comments, c, Older);
    PairwiseAppend(t.comments, c, DistinctComments);
  }

  /** Deleting a user only removes rows, so the counters still bound them. */
  lemma DeleteUserKeepsBounds(t: Tables, uid: UserId, nu: nat, ng: nat, np: nat, nc: nat, clock: nat)
    requires Bounded(t, nu, ng, np, nc, clock)
    ensures Bounded(Models.DeleteUser(t, uid), nu, ng, np, nc, clock)
  {
  }

  /** Deleting a post only removes rows, so the counters still bound them. */
  lemma DeletePostKeepsBounds(t: Tables, pid: PostId, nu: nat, ng: nat, np: nat, nc: nat, clock: nat)
    requires Bounded(t, nu, ng, np, nc, clock)
    ensures Bounded(Models.DeletePost(t, pid), nu, ng, np, nc, clock)
  {
  }

  /** Adding rows only enlarges the id sets, so references stay valid. */
  lemma IdsGrow(t: Tables, t': Tables)
    requires PostRefsOk(t) && CommentRefsOk(t) && FollowRefsOk(t)
    requires forall u :: u in t.users ==> u in t'.users
    requires forall g :: g in t.groups ==> g in t'.groups
    requires forall p :: p in t'.posts ==>
               (p in t.posts || (p.author in UserIds(t.users) && (p.group.Some? ==> p.group.value in GroupIds(t.groups))))
    requires forall p :: p in t.posts ==> p in t'.posts
    requires t'.comments == t.comments && t'.follows == t.follows
    ensures PostRefsOk(t') && CommentRefsOk(t') && FollowRefsOk(t')
  {
    assert UserIds(t.users) <= UserIds(t'.users);
    assert GroupIds(t.groups) <= GroupIds(t'.groups);
    assert PostIds(t.posts) <= PostIds(t'.posts);
  }

  lemma NullGroupKeepsBounds(posts: seq<Post>, gid: GroupId, nextId: nat, clock: nat)
    requires forall p :: p in posts ==> p.id < nextId && p.pubDate < clock
    ensures forall p :: p in NullGroup(posts, gid) ==> p.id < nextId && p.pubDate < clock
  {
    var r := NullGroup(posts, gid);
    forall p | p in r ensures p.id < nextId && p.pubDate < clock {
      var i :| 0 <= i < |r| && r[i] == p;
      assert posts[i] in posts;
    }
  }

  lemma EditKeepsBounds(posts: seq<Post>, id: PostId, text: string, group: Option<GroupId>, nextId: nat, clock: nat)
    requires forall p :: p in posts ==> p.id < nextId && p.pubDate < clock
    ensures forall p :: p in EditPost(posts, id, text, group) ==> p.id < nextId && p.pubDate < clock
  {
    var r := EditPost(posts, id, text, group);
    forall p | p in r ensures p.id < nextId && p.pubDate < clock {
      var i :| 0 <= i < |r| && r[i] == p;
      assert posts[i] in posts;
    }
  }

  /** An edit by the author with a valid form keeps the store consistent. */
  lemma EditKeepsConsistent(t: Tables, id: PostId, text: string, group: Option<GroupId>)
    requires Consistent(t) && PostFormValid(t.groups, text, group)
    ensures Consistent(t.(posts := EditPost(t.posts, id, text, group)))
  {
    var r := EditPost(t.posts, id, text, group);
    forall p | p in r
      ensures p.author in UserIds(t.users) && (p.group.Some? ==> p.group.value in GroupIds(t.groups))
    {
      var i :| 0 <= i < |r| && r[i] == p;
      assert t.posts[i] in t.posts;
    }
  }
}
