/** The read side of the posts views: looking rows up by username, slug or
    id, the four feeds (everything, one group, one author, the authors a
    viewer follows), the profile page's `following` flag and the data of a
    post's detail page. None of these changes the store. */
module Feeds {
  import opened Collections
  import opened Models
  import opened Paging

  // ---------------------------------------------------------------------
  // Lookups (a missing row is a NotFound result at the views)

  function FindUser(users: seq<User>, username: string): (r: Option<User>)
    ensures r.Some? ==> r.value in users && r.value.username == username
    ensures r.None? <==> forall u :: u in users ==> u.username != username
  {
    if users == [] then None
    else if users[0].username == username then Some(users[0])
    else FindUser(users[1..], username)
  }

  function FindGroup(groups: seq<Group>, slug: string): (r: Option<Group>)
    ensures r.Some? ==> r.value in groups && r.value.slug == slug
    ensures r.None? <==> forall g :: g in groups ==> g.slug != slug
  {
    if groups == [] then None
    else if groups[0].slug == slug then Some(groups[0])
    else FindGroup(groups[1..], slug)
  }

  function FindPost(posts: seq<Post>, id: PostId): (r: Option<Post>)
    ensures r.Some? ==> r.value in posts && r.value.id == id
    ensures r.None? <==> id !in PostIds(posts)
  {
    if posts == [] then None
    else if posts[0].id == id then Some(posts[0])
    else FindPost(posts[1..], id)
  }

  // ---------------------------------------------------------------------
  // Feeds: filters over the newest-first post table

  /** The global feed: every post, in the table's newest-first order. */
  function GlobalFeed(posts: seq<Post>): (r: seq<Post>)
    ensures forall p :: p in r <==> p in posts
    ensures NewestFirst(posts) ==> NewestFirst(r)
  {
    posts
  }

  /** The posts of group `gid`, in table order. */
  function GroupPosts(posts: seq<Post>, gid: GroupId): (r: seq<Post>)
    ensures forall p :: p in r <==> p in posts && p.group == Some(gid)
    ensures NewestFirst(posts) ==> NewestFirst(r)
  {
    var keep := (p: Post) => p.group == Some(gid);
    if NewestFirst(posts) then FilterPairwise(posts, keep, Newer); Filter(posts, keep)
    else Filter(posts, keep)
  }

  /** The posts written by `uid`, in table order. */
  function AuthorPosts(posts: seq<Post>, uid: UserId): (r: seq<Post>)
    ensures forall p :: p in r <==> p in posts && p.author == uid
    ensures NewestFirst(posts) ==> NewestFirst(r)
  {
    var keep := (p: Post) => p.author == uid;
    if NewestFirst(posts) then FilterPairwise(posts, keep, Newer); Filter(posts, keep)
    else Filter(posts, keep)
  }

  /** The comments on post `pid`, in the comment table's oldest-first order. */
  function PostComments(comments: seq<Comment>, pid: PostId): (r: seq<Comment>)
    ensures forall c :: c in r <==> c in comments && c.post == pid
    ensures OldestFirst(comments) ==> OldestFirst(r)
  {
    var keep := (c: Comment) => c.post == pid;
    if OldestFirst(comments) then FilterPairwise(comments, keep, Older); Filter(comments, keep)
    else Filter(comments, keep)
  }

  function Repeat<T>(x: T, n: nat): (r: seq<T>)
    ensures |r| == n && forall y :: y in r ==> y == x
  {
    seq(n, _ => x)
  }

  /** The subscription feed as the database computes it: posts joined with
      the follow rows whose follower is `uid` and whose author is the post's
      author, one result row per matching follow row. */
  function FollowJoin(posts: seq<Post>, follows: seq<Follow>, uid: UserId): (r: seq<Post>)
    ensures forall p :: p in r ==> p in posts && Follow(uid, p.author) in follows
  {
    if posts == [] then []
    else Repeat(posts[0], multiset(follows)[Follow(uid, posts[0].author)])
         + FollowJoin(posts[1..], follows, uid)
  }

  /** Under the unique constraint on follow rows the join yields each post
      at most once: it is exactly the followed authors' posts, in table order. */
  lemma {:induction false} FollowJoinIsFilter(posts: seq<Post>, follows: seq<Follow>, uid: UserId)
    requires UniqueFollows(follows)
    ensures FollowJoin(posts, follows, uid) == Filter(posts, (p: Post) => Follow(uid, p.author) in follows)
  {
    if posts != [] {
      FollowJoinIsFilter(posts[1..], follows, uid);
      DistinctOccursOnce(follows, Follow(uid, posts[0].author));
      if Follow(uid, posts[0].author) in follows {
        assert Repeat(posts[0], 1) == [posts[0]];
      } else {
        assert Repeat(posts[0], 0) == [];
      }
    }
  }

  // ---------------------------------------------------------------------
  // Views

  datatype GroupPage = GroupPage(group: Group, posts: seq<Post>)

  /** `group_posts`: the group named by `slug` and its posts. */
  function GroupView(t: Tables, slug: string): (r: Result<GroupPage>)
    ensures r.Err? <==> forall g :: g in t.groups ==> g.slug != slug
    ensures r.Err? ==> r.error == NotFound
    ensures r.Ok? ==> r.value.group in t.groups && r.value.group.slug == slug
    ensures r.Ok? ==> forall p :: p in r.value.posts <==> p in t.posts && p.group == Some(r.value.group.id)
    ensures r.Ok? && NewestFirst(t.posts) ==> NewestFirst(r.value.posts)
  {
    match FindGroup(t.groups, slug)
    case None => Err(NotFound)
    case Some(g) => Ok(GroupPage(g, GroupPosts(t.posts, g.id)))
  }

  /** Whether anybody at all follows `uid`: the profile page's flag. */
  predicate HasFollowers(follows: seq<Follow>, uid: UserId) {
    exists f :: f in follows && f.author == uid
  }

  datatype ProfilePage = ProfilePage(author: User, posts: seq<Post>, following: bool)

  /** `profile`: the user named `username`, their posts, and whether the
      user has any follower (whoever is looking). */
  function ProfileView(t: Tables, username: string): (r: Result<ProfilePage>)
    ensures r.Err? <==> forall u :: u in t.users ==> u.username != username
    ensures r.Err? ==> r.error == NotFound
    ensures r.Ok? ==> r.value.author in t.users && r.value.author.username == username
    ensures r.Ok? ==> forall p :: p in r.value.posts <==> p in t.posts && p.author == r.value.author.id
    ensures r.Ok? && NewestFirst(t.posts) ==> NewestFirst(r.value.posts)
    ensures r.Ok? ==> (r.value.following <==> exists f :: f in t.follows && f.author == r.value.author.id)
  {
    match FindUser(t.users, username)
    case None => Err(NotFound)
    case Some(u) => Ok(ProfilePage(u, AuthorPosts(t.posts, u.id), HasFollowers(t.follows, u.id)))
  }

  /** The profile's flag does not depend on the viewer: a viewer who follows
      nobody sees it set on the profile of a user that someone else follows. */
  lemma FollowingFlagIgnoresViewer()
    ensures var t := Tables([User(1, "reader"), User(2, "writer"), User(3, "fan")], [], [], [], [Follow(3, 2)]);
      (forall f :: f in t.follows ==> f.user != 1)
      && ProfileView(t, "writer").Ok? && ProfileView(t, "writer").value.following
  {
    var t := Tables([User(1, "reader"), User(2, "writer"), User(3, "fan")], [], [], [], [Follow(3, 2)]);
    assert Follow(3, 2) in t.follows;
  }

  /** `follow_index`: the posts of the authors the viewer follows. */
  function FollowIndex(t: Tables, viewer: Viewer): (r: Result<seq<Post>>)
    ensures viewer.Anonymous? <==> r.Err?
    ensures r.Err? ==> r.error == AccessDenied
    ensures r.Ok? ==> forall p :: p in r.value ==> p in t.posts && Follow(viewer.id, p.author) in t.follows
    ensures r.Ok? && UniqueFollows(t.follows) ==>
      forall p :: p in t.posts && Follow(viewer.id, p.author) in t.follows ==> p in r.value
    ensures r.Ok? && UniqueFollows(t.follows) && NewestFirst(t.posts) ==> NewestFirst(r.value)
  {
    match viewer
    case Anonymous => Err(AccessDenied)
    case Authenticated(uid) =>
      var keep := (p: Post) => Follow(uid, p.author) in t.follows;
      var r := FollowJoin(t.posts, t.follows, uid);
      if UniqueFollows(t.follows) then
        FollowJoinIsFilter(t.posts, t.follows, uid);
        assert NewestFirst(t.posts) ==> NewestFirst(r) by {
          if NewestFirst(t.posts) { FilterPairwise(t.posts, keep, Newer); }
        }
        Ok(r)
      else Ok(r)
  }

  datatype DetailPage = DetailPage(post: Post, authorPostCount: nat, comments: seq<Comment>)

  /** `post_detail`: the post, how many posts its author has, and its
      comments oldest first. */
  function PostDetail(t: Tables, id: PostId): (r: Result<DetailPage>)
    ensures r.Err? <==> id !in PostIds(t.posts)
    ensures r.Err? ==> r.error == NotFound
    ensures r.Ok? ==> r.value.post in t.posts && r.value.post.id == id
    ensures r.Ok? ==> r.value.authorPostCount == |AuthorPosts(t.posts, r.value.post.author)|
    ensures r.Ok? ==> forall c :: c in r.value.comments <==> c in t.comments && c.post == id
    ensures r.Ok? && OldestFirst(t.comments) ==> OldestFirst(r.value.comments)
  {
    match FindPost(t.posts, id)
    case None => Err(NotFound)
    case Some(p) => Ok(DetailPage(p, |AuthorPosts(t.posts, p.author)|, PostComments(t.comments, id)))
  }

  /** With unique usernames, a stored user's username finds that user. */
  lemma FindUserFinds(users: seq<User>, u: User)
    requires Pairwise(users, DistinctUsers) && u in users
    ensures FindUser(users, u.username) == Some(u)
  {
    var w := FindUser(users, u.username).value;
    var i :| 0 <= i < |users| && users[i] == u;
    var j :| 0 <= j < |users| && users[j] == w;
    PairwiseAt(users, DistinctUsers, i, j);
    PairwiseAt(users, DistinctUsers, j, i);
  }

  /** In a consistent store the detail page's count is the length of the
      author's profile feed. */
  lemma DetailCountIsProfileLength(t: Tables, id: PostId)
    requires Consistent(t) && id in PostIds(t.posts)
    ensures var d := PostDetail(t, id).value;
      exists u :: (u in t.users && u.id == d.post.author
                   && ProfileView(t, u.username).Ok?
                   && d.authorPostCount == |ProfileView(t, u.username).value.posts|)
  {
    var d := PostDetail(t, id).value;
    assert d.post.author in UserIds(t.users);
    var u :| u in t.users && u.id == d.post.author;
    FindUserFinds(t.users, u);
    assert ProfileView(t, u.username).value.posts == AuthorPosts(t.posts, u.id);
  }

  // ---------------------------------------------------------------------
  // The listing views as served: each feed goes through `paginator`

  /** A served page of a newest-first feed is newest first. */
  lemma ServedPageKeepsOrder(items: seq<Post>, size: nat, req: PageNumber)
    requires size > 0 && NewestFirst(items)
    ensures NewestFirst(GetPage(items, size, req))
  {
    var k := ServedPage(|items|, size, req);
    PageIsSlice(items, size, k);
    PairwiseSlice(items, Offset(k, size), PageEnd(|items|, size, k), Newer);
  }

  /** `index`: the served page of the global feed. */
  function IndexView(t: Tables, size: nat, req: PageNumber): (r: seq<Post>)
    requires size > 0
    ensures |r| <= size && (t.posts != [] ==> r != [])
    ensures forall p :: p in r ==> p in t.posts
    ensures NewestFirst(t.posts) ==> NewestFirst(r)
    ensures r == Page(t.posts, size, ServedPage(|t.posts|, size, req))
  {
    if NewestFirst(t.posts) then ServedPageKeepsOrder(t.posts, size, req); GetPage(GlobalFeed(t.posts), size, req)
    else GetPage(GlobalFeed(t.posts), size, req)
  }

  /** `group_posts` as served: the group and one page of its posts. */
  function GroupPageView(t: Tables, slug: string, size: nat, req: PageNumber): (r: Result<GroupPage>)
    requires size > 0
    ensures r.Err? <==> forall g :: g in t.groups ==> g.slug != slug
    ensures r.Err? ==> r.error == NotFound
    ensures r.Ok? ==> r.value.group in t.groups && r.value.group.slug == slug
    ensures r.Ok? ==> |r.value.posts| <= size
    ensures r.Ok? ==> forall p :: p in r.value.posts ==> p in t.posts && p.group == Some(r.value.group.id)
    ensures r.Ok? && NewestFirst(t.posts) ==> NewestFirst(r.value.posts)
    ensures r.Ok? ==> r.value.posts == GetPage(GroupView(t, slug).value.posts, size, req)
  {
    match GroupView(t, slug)
    case Err(e) => Err(e)
    case Ok(page) =>
      assert NewestFirst(t.posts) ==> NewestFirst(GetPage(page.posts, size, req)) by {
        if NewestFirst(t.posts) { ServedPageKeepsOrder(page.posts, size, req); }
      }
      Ok(page.(posts := GetPage(page.posts, size, req)))
  }

  /** `profile` as served: the author, one page of their posts and the flag. */
  function ProfilePageView(t: Tables, username: string, size: nat, req: PageNumber): (r: Result<ProfilePage>)
    requires size > 0
    ensures r.Err? <==> forall u :: u in t.users ==> u.username != username
    ensures r.Err? ==> r.error == NotFound
    ensures r.Ok? ==> r.value.author in t.users && r.value.author.username == username
    ensures r.Ok? ==> |r.value.posts| <= size
    ensures r.Ok? ==> forall p :: p in r.value.posts ==> p in t.posts && p.author == r.value.author.id
    ensures r.Ok? && NewestFirst(t.posts) ==> NewestFirst(r.value.posts)
    ensures r.Ok? ==> (r.value.following <==> exists f :: f in t.follows && f.author == r.value.author.id)
    ensures r.Ok? ==> r.value.posts == GetPage(ProfileView(t, username).value.posts, size, req)
  {
    match ProfileView(t, username)
    case Err(e) => Err(e)
    case Ok(page) =>
      assert NewestFirst(t.posts) ==> NewestFirst(GetPage(page.posts, size, req)) by {
        if NewestFirst(t.posts) { ServedPageKeepsOrder(page.posts, size, req); }
      }
      Ok(page.(posts := GetPage(page.posts, size, req)))
  }

  /** `follow_index` as served: one page of the subscription feed. */
  function FollowPageView(t: Tables, viewer: Viewer, size: nat, req: PageNumber): (r: Result<seq<Post>>)
    requires size > 0
    ensures viewer.Anonymous? <==> r.Err?
    ensures r.Err? ==> r.error == AccessDenied
    ensures r.Ok? ==> |r.value| <= size
    ensures r.Ok? ==> forall p :: p in r.value ==> p in t.posts && Follow(viewer.id, p.author) in t.follows
    ensures r.Ok? && UniqueFollows(t.follows) && NewestFirst(t.posts) ==> NewestFirst(r.value)
    ensures r.Ok? ==> r.value == GetPage(FollowIndex(t, viewer).value, size, req)
  {
    match FollowIndex(t, viewer)
    case Err(e) => Err(e)
    case Ok(feed) =>
      assert UniqueFollows(t.follows) && NewestFirst(t.posts) ==> NewestFirst(GetPage(feed, size, req)) by {
        if UniqueFollows(t.follows) && NewestFirst(t.posts) { ServedPageKeepsOrder(feed, size, req); }
      }
      Ok(GetPage(feed, size, req))
  }
}
