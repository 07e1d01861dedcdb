/** The board router (app/routers/board.py): public reads of the posts
    table, and create, update and delete guarded by the session's identity
    and, for update and delete, by ownership of the post. */
module Board {
  import opened Http
  import opened Models
  import opened Security
  import opened Store
  import opened Auth

  const PostNotFound: string := "Post not found"
  const NotAllowedToUpdate: string := "Not authorized to update this post"
  const NotAllowedToDelete: string := "Not authorized to delete this post"
  const PostDeleted: string := "Post deleted successfully"
  const CreateErrorPrefix: string := "Error creating post: "
  /** How the HTTPException raised for a missing re-fetched post reads once
      it is turned into a string by the handler's own `except Exception`. */
  const RefetchMissingText: string := "500: Failed to retrieve created post"

  /** What the storage layer does during `create_post`, which the handler
      cannot see in advance: nothing unusual, the insert raises, the
      re-fetch raises, or the re-fetch finds no row. */
  datatype StoreFault = NoFault | InsertFails(reason: string) | RefetchFails(reason: string) | RefetchFindsNothing

  /** Ownership guard: only the author may change or remove a post. */
  predicate CanMutate(caller: User, p: Post)
  {
    caller.id == p.authorId
  }

  lemma {:induction false} MinExists(ids: set<int>)
    requires ids != {}
    ensures exists m :: m in ids && forall k :: k in ids ==> m <= k
    decreases |ids|
  {
    assert exists x :: x in ids by {
      if forall x :: x !in ids {
        assert false;
      }
    }
    var x :| x in ids;
    var rest := ids - {x};
    assert ids == rest + {x};
    if rest == {} {
      assert forall k :: k in ids ==> x <= k;
    } else {
      MinExists(rest);
      var m :| m in rest && forall k :: k in rest ==> m <= k;
      if x < m {
        assert forall k :: k in ids ==> x <= k;
      } else {
        assert forall k :: k in ids ==> m <= k;
      }
    }
  }

  /** Putting the least id in front of the ascending rest keeps the
      sequence ascending and holding exactly the ids. */
  lemma PrependLeast(m: int, ids: set<int>, s: seq<int>)
    requires m in ids && forall k :: k in ids ==> m <= k
    requires forall k :: k in ids - {m} <==> k in s
    requires forall i, j :: 0 <= i < j < |s| ==> s[i] < s[j]
    ensures forall k :: k in ids <==> k in [m] + s
    ensures forall i, j :: 0 <= i < j < |[m] + s| ==> ([m] + s)[i] < ([m] + s)[j]
  {
    var t := [m] + s;
    forall i, j | 0 <= i < j < |t|
      ensures t[i] < t[j]
    {
      assert t[j] == s[j - 1];
      if i == 0 {
        assert s[j - 1] in ids - {m};
      } else {
        assert t[i] == s[i - 1];
      }
    }
  }

  /** The ids of a table in ascending order, each exactly once. */
  function SortedIds(ids: set<int>): (s: seq<int>)
    ensures forall k :: k in ids <==> k in s
    ensures forall i, j :: 0 <= i < j < |s| ==> s[i] < s[j]
    decreases |ids|
  {
    if ids == {} then []
    else
      MinExists(ids);
      var m :| m in ids && forall k :: k in ids ==> m <= k;
      var rest := SortedIds(ids - {m});
      PrependLeast(m, ids, rest);
      [m] + rest
  }

  /** `get_posts`: every post, once each, with its author's public view. */
  function GetPosts(users: map<nat, User>, posts: map<int, Post>): (r: seq<PostView>)
    requires PostsWellFormed(posts, users)
    ensures forall k :: k in posts ==> ViewOf(users, posts[k]) in r
    ensures forall i :: 0 <= i < |r| ==> r[i].id in posts && r[i] == ViewOf(users, posts[r[i].id])
    ensures forall i, j :: 0 <= i < j < |r| ==> r[i].id < r[j].id
  {
    var ids := SortedIds(posts.Keys);
    var r := seq(|ids|, i requires 0 <= i < |ids| => ViewOf(users, posts[ids[i]]));
    ListingCovers(users, posts, ids, r);
    r
  }

  /** A listing built from every id of the table shows every post, and
      each entry's id is the id it was built from. */
  lemma ListingCovers(users: map<nat, User>, posts: map<int, Post>, ids: seq<int>, r: seq<PostView>)
    requires PostsWellFormed(posts, users)
    requires forall i :: 0 <= i < |ids| ==> ids[i] in posts && posts[ids[i]].authorId in users
    requires forall k :: k in posts ==> k in ids
    requires |r| == |ids| && forall i :: 0 <= i < |r| ==> r[i] == ViewOf(users, posts[ids[i]])
    ensures forall i :: 0 <= i < |r| ==> r[i].id == ids[i]
    ensures forall k :: k in posts ==> ViewOf(users, posts[k]) in r
  {
    forall k | k in posts
      ensures ViewOf(users, posts[k]) in r
    {
      var i :| 0 <= i < |ids| && ids[i] == k;
      assert r[i] == ViewOf(users, posts[k]);
    }
  }

  /** `get_post`: the post with that id and its author, or 404. */
  function GetPost(users: map<nat, User>, posts: map<int, Post>, postId: int): (r: Result<PostView>)
    requires PostsWellFormed(posts, users)
    ensures postId !in posts <==> r == Err(404, PostNotFound)
    ensures r.Ok? <==> postId in posts
    ensures postId in posts ==> r == Ok(ViewOf(users, posts[postId]))
    ensures r.Ok? ==>
      && r.value.id == postId && r.value.title == posts[postId].title
      && r.value.content == posts[postId].content
      && r.value.createdAt == posts[postId].createdAt && r.value.updatedAt == posts[postId].updatedAt
      && r.value.author == ToPublic(users[posts[postId].authorId])
  {
    if postId in posts then Ok(ViewOf(users, posts[postId])) else Err(404, PostNotFound)
  }

  /** The single-post read and the listing agree: a post is found by id
      exactly when it is listed, and with the same content. */
  lemma GetPostAgreesWithGetPosts(users: map<nat, User>, posts: map<int, Post>, postId: int)
    requires PostsWellFormed(posts, users)
    ensures GetPost(users, posts, postId).Ok? ==> GetPost(users, posts, postId).value in GetPosts(users, posts)
    ensures forall v :: v in GetPosts(users, posts) && v.id == postId ==> GetPost(users, posts, postId) == Ok(v)
  {
  }

  /** `create_post`: 401 from the resolver, 422 for an invalid body, then
      the insert stamped with the caller as author; a storage failure during
      the insert or the re-fetch is reported as 500. */
  method CreatePost(db: Database, codec: Codec, cookies: map<string, string>, input: PostCreate, fault: StoreFault)
    returns (r: Result<PostView>)
    requires db.Valid()
    modifies db
    ensures db.Valid()
    ensures db.users == old(db.users) && db.nextUserId == old(db.nextUserId)
    ensures var who := CurrentUser(codec, old(db.users), cookies);
      who.Err? ==> r == Err(who.status, who.detail) && unchanged(db)
    ensures var who := CurrentUser(codec, old(db.users), cookies);
      who.Ok? && !ValidPostCreate(input) ==> r == Err(422, ValidationFailed) && unchanged(db)
    ensures var who := CurrentUser(codec, old(db.users), cookies);
      who.Ok? && ValidPostCreate(input) && fault.InsertFails? ==>
        r == Err(500, CreateErrorPrefix + fault.reason) && unchanged(db)
    ensures var who := CurrentUser(codec, old(db.users), cookies);
      who.Ok? && ValidPostCreate(input) && !fault.InsertFails? ==>
        var p := Post(old(db.nextPostId), input.title, input.content, db.clock, db.clock, who.value.id);
        && p.id !in old(db.posts)
        && db.posts == old(db.posts)[p.id := p]
        && db.nextPostId == old(db.nextPostId) + 1
        && db.clock == old(db.clock) + 1
        && r == if fault.RefetchFails? then Err(500, CreateErrorPrefix + fault.reason)
                else if fault.RefetchFindsNothing? then Err(500, CreateErrorPrefix + RefetchMissingText)
                else Ok(ViewOf(db.users, p))
  {
    var who := CurrentUser(codec, db.users, cookies);
    if who.Err? {
      return Err(who.status, who.detail);
    }
    if !ValidPostCreate(input) {
      return Err(422, ValidationFailed);
    }
    if fault.InsertFails? {
      return Err(500, CreateErrorPrefix + fault.reason);
    }
    StoredUserUnderOwnId(db.users, who.value);
    var p := db.InsertPost(input.title, input.content, who.value.id);
    if fault.RefetchFails? {
      r := Err(500, CreateErrorPrefix + fault.reason);
    } else if fault.RefetchFindsNothing? {
      r := Err(500, CreateErrorPrefix + RefetchMissingText);
    } else {
      r := Ok(ViewOf(db.users, p));
    }
  }

  /** `update_post`: 401, 422, then 404 for a missing post before 403 for a
      caller who is not its author; the author's update replaces title and
      content only, refreshes `updated_at`, and leaves every other post. */
  method UpdatePost(db: Database, codec: Codec, cookies: map<string, string>, postId: int, input: PostCreate)
    returns (r: Result<PostView>)
    requires db.Valid()
    modifies db
    ensures db.Valid()
    ensures db.users == old(db.users) && db.nextUserId == old(db.nextUserId)
    ensures var who := CurrentUser(codec, old(db.users), cookies);
      who.Err? ==> r == Err(who.status, who.detail) && unchanged(db)
    ensures var who := CurrentUser(codec, old(db.users), cookies);
      who.Ok? && !ValidPostCreate(input) ==> r == Err(422, ValidationFailed) && unchanged(db)
    ensures var who := CurrentUser(codec, old(db.users), cookies);
      who.Ok? && ValidPostCreate(input) && postId !in old(db.posts) ==>
        r == Err(404, PostNotFound) && unchanged(db)
    ensures var who := CurrentUser(codec, old(db.users), cookies);
      who.Ok? && ValidPostCreate(input) && postId in old(db.posts) && !CanMutate(who.value, old(db.posts)[postId]) ==>
        r == Err(403, NotAllowedToUpdate) && unchanged(db)
    ensures var who := CurrentUser(codec, old(db.users), cookies);
      who.Ok? && ValidPostCreate(input) && postId in old(db.posts) && CanMutate(who.value, old(db.posts)[postId]) ==>
        var was := old(db.posts)[postId];
        var p := was.(title := input.title, content := input.content, updatedAt := db.clock);
        && db.posts == old(db.posts)[postId := p]
        && was.updatedAt < p.updatedAt
        && db.nextPostId == old(db.nextPostId) && db.clock == old(db.clock) + 1
        && r == Ok(ViewOf(db.users, p))
  {
    var who := CurrentUser(codec, db.users, cookies);
    if who.Err? {
      return Err(who.status, who.detail);
    }
    if !ValidPostCreate(input) {
      return Err(422, ValidationFailed);
    }
    if postId !in db.posts {
      return Err(404, PostNotFound);
    }
    if !CanMutate(who.value, db.posts[postId]) {
      return Err(403, NotAllowedToUpdate);
    }
    var p := db.SavePost(postId, input.title, input.content);
    r := Ok(ViewOf(db.users, p));
  }

  /** `delete_post`: 401, then 404 before 403; the author's delete removes
      exactly that post. */
  method DeletePost(db: Database, codec: Codec, cookies: map<string, string>, postId: int)
    returns (r: Result<string>)
    requires db.Valid()
    modifies db
    ensures db.Valid()
    ensures db.users == old(db.users) && db.nextUserId == old(db.nextUserId)
    ensures var who := CurrentUser(codec, old(db.users), cookies);
      who.Err? ==> r == Err(who.status, who.detail) && unchanged(db)
    ensures var who := CurrentUser(codec, old(db.users), cookies);
      who.Ok? && postId !in old(db.posts) ==> r == Err(404, PostNotFound) && unchanged(db)
    ensures var who := CurrentUser(codec, old(db.users), cookies);
      who.Ok? && postId in old(db.posts) && !CanMutate(who.value, old(db.posts)[postId]) ==>
        r == Err(403, NotAllowedToDelete) && unchanged(db)
    ensures var who := CurrentUser(codec, old(db.users), cookies);
      who.Ok? && postId in old(db.posts) && CanMutate(who.value, old(db.posts)[postId]) ==>
        && r == Ok(PostDeleted) && db.posts == old(db.posts) - {postId}
        && db.nextPostId == old(db.nextPostId) && db.clock == old(db.clock)
  {
    var who := CurrentUser(codec, db.users, cookies);
    if who.Err? {
      return Err(who.status, who.detail);
    }
    if postId !in db.posts {
      return Err(404, PostNotFound);
    }
    if !CanMutate(who.value, db.posts[postId]) {
      return Err(403, NotAllowedToDelete);
    }
    db.DeletePost(postId);
    r := Ok(PostDeleted);
  }
}
