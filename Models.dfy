/** The records of the posts app (users, groups, posts, comments and follow
    edges), the integrity rules the schema declares for them, their string
    forms, and what deleting a row does to the rows that refer to it. */
module Models {
  import opened Collections

  type UserId = nat
  type GroupId = nat
  type PostId = nat
  type CommentId = nat

  /** The framework's user: only the id and the unique username matter here. */
  datatype User = User(id: UserId, username: string)

  datatype Group = Group(id: GroupId, title: string, slug: string, description: string)

  /** `pubDate` is the creation instant, modelled as a monotone counter. */
  datatype Post = Post(id: PostId, text: string, pubDate: nat, author: UserId, group: Option<GroupId>)

  datatype Comment = Comment(id: CommentId, post: PostId, author: UserId, text: string, created: nat)

  /** A directed subscription edge: `user` follows `author`. */
  datatype Follow = Follow(user: UserId, author: UserId)

  /** Who makes a request: nobody, or a signed-in user. */
  datatype Viewer = Anonymous | Authenticated(id: UserId)

  datatype Error = NotFound | AccessDenied | ValidationFailed | Duplicate

  datatype Result<+T> = Ok(value: T) | Err(error: Error)

  /** All tables of the store; each sequence is kept in its table's declared ordering. */
  datatype Tables = Tables(users: seq<User>, groups: seq<Group>, posts: seq<Post>,
                           comments: seq<Comment>, follows: seq<Follow>)

  // ---------------------------------------------------------------------
  // String forms

  /** A group prints as its title; this is a definition, not a property. */
  function GroupStr(g: Group): string {
    g.title
  }

  /** A post prints as the first `limit` characters of its text. */
  function PostStr(p: Post, limit: nat): (r: string)
    ensures r <= p.text
    ensures |r| == if |p.text| < limit then |p.text| else limit
  {
    p.text[..if |p.text| < limit then |p.text| else limit]
  }

  // ---------------------------------------------------------------------
  // Orderings and uniqueness

  predicate Newer(a: Post, b: Post) {
    a.pubDate > b.pubDate
  }

  /** Posts are enumerated by descending publication instant. */
  predicate NewestFirst(posts: seq<Post>) {
    Pairwise(posts, Newer)
  }

  predicate Older(a: Comment, b: Comment) {
    a.created < b.created
  }

  /** Comments are enumerated by ascending creation instant. */
  predicate OldestFirst(comments: seq<Comment>) {
    Pairwise(comments, Older)
  }

  predicate DistinctUsers(a: User, b: User) {
    a.id != b.id && a.username != b.username
  }

  predicate DistinctGroups(a: Group, b: Group) {
    a.id != b.id && a.slug != b.slug
  }

  predicate DistinctPosts(a: Post, b: Post) {
    a.id != b.id
  }

  predicate DistinctComments(a: Comment, b: Comment) {
    a.id != b.id
  }

  /** The unique constraint on (user, author): no edge is stored twice. */
  predicate UniqueFollows(follows: seq<Follow>) {
    Pairwise(follows, Differ)
  }

  function UserIds(users: seq<User>): set<UserId> {
    set u | u in users :: u.id
  }

  function GroupIds(groups: seq<Group>): set<GroupId> {
    set g | g in groups :: g.id
  }

  function PostIds(posts: seq<Post>): set<PostId> {
    set p | p in posts :: p.id
  }

  /** Every post has an existing author and, if any, an existing group. */
  predicate PostRefsOk(t: Tables) {
    forall p :: p in t.posts ==>
      p.author in UserIds(t.users) && (p.group.Some? ==> p.group.value in GroupIds(t.groups))
  }

  /** Every comment targets an existing post and has an existing author. */
  predicate CommentRefsOk(t: Tables) {
    forall c :: c in t.comments ==> c.post in PostIds(t.posts) && c.author in UserIds(t.users)
  }

  /** Both ends of every edge exist, and no user follows themselves. The
      schema declares only the two foreign keys; the absence of self-follows
      is an invariant kept by the views that write follow rows, which skip
      an edge from a user to themselves. */
  predicate FollowRefsOk(t: Tables) {
    forall f :: f in t.follows ==>
      f.user in UserIds(t.users) && f.author in UserIds(t.users) && f.user != f.author
  }

  /** The store invariant: the schema's declared constraints (unique
      usernames, slugs and follow pairs, unique ids, resolving foreign keys),
      the tables' declared orderings, and no self-follow, which the schema
      does not declare but the modelled operations keep. */
  predicate Consistent(t: Tables) {
    Pairwise(t.users, DistinctUsers) && Pairwise(t.groups, DistinctGroups)
    && NewestFirst(t.posts) && Pairwise(t.posts, DistinctPosts)
    && OldestFirst(t.comments) && Pairwise(t.comments, DistinctComments)
    && UniqueFollows(t.follows)
    && PostRefsOk(t) && CommentRefsOk(t) && FollowRefsOk(t)
  }

  /** Newest first is each post strictly newer than the next one. */
  lemma NewestFirstIffAdjacent(posts: seq<Post>)
    ensures NewestFirst(posts) <==> forall k :: 0 <= k < |posts| - 1 ==> posts[k].pubDate > posts[k + 1].pubDate
  {
    PairwiseIffAdjacent(posts, Newer);
  }

  /** Oldest first is each comment strictly older than the next one. */
  lemma OldestFirstIffAdjacent(comments: seq<Comment>)
    ensures OldestFirst(comments) <==> forall k :: 0 <= k < |comments| - 1 ==> comments[k].created < comments[k + 1].created
  {
    PairwiseIffAdjacent(comments, Older);
  }

  /** The unique constraint on follow rows is each edge stored exactly once. */
  lemma UniqueFollowsIffOnce(follows: seq<Follow>)
    ensures UniqueFollows(follows) <==> forall e :: e in follows ==> multiset(follows)[e] == 1
  {
    DistinctIffOnce(follows);
  }

  /** Two newest-first sequences holding the same posts are the same sequence:
      membership and ordering pin a feed down completely. */
  lemma {:induction false} NewestFirstDetermined(a: seq<Post>, b: seq<Post>)
    requires NewestFirst(a) && NewestFirst(b)
    requires forall p :: p in a <==> p in b
    ensures a == b
  {
    if a != [] { assert a[0] in a; }
    if b != [] { assert b[0] in b; }
    if a != [] {
      var i :| 0 <= i < |b| && b[i] == a[0];
      var j :| 0 <= j < |a| && a[j] == b[0];
      HeadIsNewest(a, j);
      HeadIsNewest(b, i);
      assert a[0] == b[0];
      forall p ensures p in a[1..] <==> p in b[1..] {
        TailIsRest(a, p);
        TailIsRest(b, p);
      }
      TailNewestFirst(a);
      TailNewestFirst(b);
      NewestFirstDetermined(a[1..], b[1..]);
      assert a == [a[0]] + a[1..] && b == [b[0]] + b[1..];
    }
  }

  /** The head of a newest-first sequence is strictly newer than the rest. */
  lemma HeadIsNewest(s: seq<Post>, k: nat)
    requires NewestFirst(s) && k < |s|
    ensures s[0].pubDate >= s[k].pubDate
    ensures k != 0 ==> s[0].pubDate > s[k].pubDate
  {
    if k != 0 {
      assert Newer(s[0], s[k]);
    }
  }

  /** In a newest-first sequence the tail holds every member but the head. */
  lemma TailIsRest(s: seq<Post>, p: Post)
    requires NewestFirst(s) && s != []
    ensures p in s[1..] <==> p in s && p != s[0]
  {
    if p in s[1..] {
      var k :| 0 <= k < |s[1..]| && s[1..][k] == p;
      assert Newer(s[0], s[k + 1]);
    }
    if p in s && p != s[0] {
      var i :| 0 <= i < |s| && s[i] == p;
      assert s[1..][i - 1] == p;
    }
  }

  lemma TailNewestFirst(s: seq<Post>)
    requires NewestFirst(s) && s != []
    ensures NewestFirst(s[1..])
  {
    forall x, y | 0 <= x < y < |s[1..]| ensures Newer(s[1..][x], s[1..][y]) {
      assert s[1..][x] == s[x + 1] && s[1..][y] == s[y + 1];
    }
  }

  // ---------------------------------------------------------------------
  // What deletions do to referring rows

  /** One post after its group `gid` is deleted: the reference is nulled. */
  function Unlink(p: Post, gid: GroupId): Post {
    if p.group == Some(gid) then p.(group := None) else p
  }

  /** The posts after group `gid` is deleted: each reference to it is nulled. */
  function NullGroup(posts: seq<Post>, gid: GroupId): (r: seq<Post>)
    ensures |r| == |posts|
    ensures forall i :: 0 <= i < |posts| && posts[i].group != Some(gid) ==> r[i] == posts[i]
    ensures forall i :: 0 <= i < |posts| && posts[i].group == Some(gid) ==> r[i] == posts[i].(group := None)
    ensures forall p :: p in r ==> p.group != Some(gid)
    ensures NewestFirst(posts) ==> NewestFirst(r)
    ensures Pairwise(posts, DistinctPosts) ==> Pairwise(r, DistinctPosts)
    ensures PostIds(r) == PostIds(posts)
  {
    var r := seq(|posts|, i requires 0 <= i < |posts| => Unlink(posts[i], gid));
    assert PostIds(r) == PostIds(posts) by {
      forall x | x in PostIds(posts) ensures x in PostIds(r) {
        var p :| p in posts && p.id == x;
        var i :| 0 <= i < |posts| && posts[i] == p;
        assert r[i] in r;
      }
    }
    r
  }

  /** Deleting a group removes that group and nulls the group of its posts;
      no post is deleted and nothing else about any post changes. */
  function DeleteGroup(t: Tables, gid: GroupId): (r: Tables)
    ensures r.users == t.users && r.comments == t.comments && r.follows == t.follows
    ensures forall g :: g in r.groups <==> g in t.groups && g.id != gid
    ensures r.posts == NullGroup(t.posts, gid)
    ensures Consistent(t) ==> Consistent(r)
  {
    var r := t.(groups := Filter(t.groups, (g: Group) => g.id != gid), posts := NullGroup(t.posts, gid));
    assert Consistent(t) ==> Consistent(r) by {
      if Consistent(t) {
        FilterPairwise(t.groups, (g: Group) => g.id != gid, DistinctGroups);
        NullGroupKeepsRefs(t, gid, r);
      }
    }
    r
  }

  lemma NullGroupKeepsRefs(t: Tables, gid: GroupId, r: Tables)
    requires PostRefsOk(t)
    requires r.users == t.users && r.posts == NullGroup(t.posts, gid)
    requires r.groups == Filter(t.groups, (g: Group) => g.id != gid)
    ensures PostRefsOk(r)
  {
    forall p | p in r.posts
      ensures p.author in UserIds(r.users) && (p.group.Some? ==> p.group.value in GroupIds(r.groups))
    {
      var i :| 0 <= i < |r.posts| && r.posts[i] == p;
      assert t.posts[i] in t.posts;
      if p.group.Some? {
        var g :| g in t.groups && g.id == p.group.value;
        assert g in r.groups;
      }
    }
  }

  /** Deleting a post removes it and, by cascade, exactly the comments on it. */
  function DeletePost(t: Tables, pid: PostId): (r: Tables)
    ensures r.users == t.users && r.groups == t.groups && r.follows == t.follows
    ensures forall p :: p in r.posts <==> p in t.posts && p.id != pid
    ensures forall c :: c in r.comments <==> c in t.comments && c.post != pid
    ensures NewestFirst(t.posts) ==> NewestFirst(r.posts)
    ensures OldestFirst(t.comments) ==> OldestFirst(r.comments)
    ensures Consistent(t) ==> Consistent(r)
  {
    var keepPost := (p: Post) => p.id != pid;
    var keepComment := (c: Comment) => c.post != pid;
    var r := t.(posts := Filter(t.posts, keepPost), comments := Filter(t.comments, keepComment));
    assert NewestFirst(t.posts) ==> NewestFirst(r.posts) by {
      if NewestFirst(t.posts) { FilterPairwise(t.posts, keepPost, Newer); }
    }
    assert OldestFirst(t.comments) ==> OldestFirst(r.comments) by {
      if OldestFirst(t.comments) { FilterPairwise(t.comments, keepComment, Older); }
    }
    assert Consistent(t) ==> Consistent(r) by {
      if Consistent(t) {
        FilterPairwise(t.posts, keepPost, DistinctPosts);
        FilterPairwise(t.comments, keepComment, DistinctComments);
      }
    }
    r
  }

  /** Deleting a user removes the user and, by cascade, their posts, every
      comment that is theirs or is on one of their posts, and every follow
      edge of which they are either end. */
  function DeleteUser(t: Tables, uid: UserId): (r: Tables)
    ensures r.groups == t.groups
    ensures forall u :: u in r.users <==> u in t.users && u.id != uid
    ensures forall p :: p in r.posts <==> p in t.posts && p.author != uid
    ensures forall c :: c in r.comments <==> c in t.comments && c.author != uid && c.post in PostIds(r.posts)
    ensures forall f :: f in r.follows <==> f in t.follows && f.user != uid && f.author != uid
    ensures Consistent(t) ==> forall c, p :: c in t.comments && p in t.posts && p.id == c.post && p.author == uid ==>
              c !in r.comments
    ensures Consistent(t) ==> Consistent(r)
  {
    var posts := Filter(t.posts, (p: Post) => p.author != uid);
    var r := Tables(Filter(t.users, (u: User) => u.id != uid),
                    t.groups,
                    posts,
                    Filter(t.comments, (c: Comment) => c.author != uid && c.post in PostIds(posts)),
                    Filter(t.follows, (f: Follow) => f.user != uid && f.author != uid));
    assert Consistent(t) ==> Consistent(r) by {
      if Consistent(t) {
        DeleteUserKeepsConsistent(t, uid, r);
      }
    }
    assert Consistent(t) ==> forall c, p :: c in t.comments && p in t.posts && p.id == c.post && p.author == uid ==>
              c !in r.comments by {
      if Consistent(t) {
        forall c, p | c in t.comments && p in t.posts && p.id == c.post && p.author == uid
          ensures c !in r.comments
        {
          if q :| q in posts && q.id == c.post {
            SameIdSamePost(t.posts, p, q);
          }
        }
      }
    }
    r
  }

  /** With unique post ids, a post id names at most one post. */
  lemma SameIdSamePost(posts: seq<Post>, p: Post, q: Post)
    requires Pairwise(posts, DistinctPosts)
    requires p in posts && q in posts && p.id == q.id
    ensures p == q
  {
    var i :| 0 <= i < |posts| && posts[i] == p;
    var j :| 0 <= j < |posts| && posts[j] == q;
    PairwiseAt(posts, DistinctPosts, i, j);
    PairwiseAt(posts, DistinctPosts, j, i);
  }

  lemma DeleteUserKeepsConsistent(t: Tables, uid: UserId, r: Tables)
    requires Consistent(t)
    requires r.groups == t.groups
    requires r.users == Filter(t.users, (u: User) => u.id != uid)
    requires r.posts == Filter(t.posts, (p: Post) => p.author != uid)
    requires r.comments == Filter(t.comments, (c: Comment) => c.author != uid && c.post in PostIds(r.posts))
    requires r.follows == Filter(t.follows, (f: Follow) => f.user != uid && f.author != uid)
    ensures Consistent(r)
  {
    FilterPairwise(t.users, (u: User) => u.id != uid, DistinctUsers);
    FilterPairwise(t.posts, (p: Post) => p.author != uid, Newer);
    FilterPairwise(t.posts, (p: Post) => p.author != uid, DistinctPosts);
    FilterPairwise(t.comments, (c: Comment) => c.author != uid && c.post in PostIds(r.posts), Older);
    FilterPairwise(t.comments, (c: Comment) => c.author != uid && c.post in PostIds(r.posts), DistinctComments);
    FilterPairwise(t.follows, (f: Follow) => f.user != uid && f.author != uid, Differ);
    assert forall x :: x in UserIds(t.users) && x != uid ==> x in UserIds(r.users) by {
      forall x | x in UserIds(t.users) && x != uid ensures x in UserIds(r.users) {
        var u :| u in t.users && u.id == x;
        assert u in r.users;
      }
    }
  }
}
