/** The database as the routers see it: the users and posts tables, the
    auto-increment counter of each, and a logical clock standing for the
    timestamps written by `auto_now_add` and `auto_now`. Its methods are
    the single-row ORM operations the routers call. */
module Store {
  import opened Models

  class Database {
    var users: map<nat, User>
    var posts: map<int, Post>
    var nextUserId: nat
    var nextPostId: int
    /** The latest instant a row was stamped with; every write advances it. */
    var clock: nat

    ghost predicate Valid()
      reads this
    {
      && 1 <= nextUserId && 1 <= nextPostId
      && UsersWellFormed(users) && UniqueUsernames(users) && UniqueNicknames(users)
      && PostsWellFormed(posts, users)
      && (forall k :: k in users ==> k < nextUserId && users[k].createdAt <= clock)
      && (forall k :: k in posts ==> k < nextPostId && posts[k].updatedAt <= clock)
    }

    constructor()
      ensures Valid()
      ensures users == map[] && posts == map[]
      ensures nextUserId == 1 && nextPostId == 1 && clock == 0
    {
      users, posts := map[], map[];
      nextUserId, nextPostId, clock := 1, 1, 0;
    }

    /** `User.create(...)`: a new row under the next id, stamped now. The
        unique constraints and column widths are the caller's to respect. */
    method InsertUser(username: string, nickname: string, password: string) returns (u: User)
      requires Valid()
      requires !UsernameTaken(users, username) && !NicknameTaken(users, nickname)
      requires |username| <= MaxNameLength && |nickname| <= MaxNameLength
      modifies this
      ensures Valid()
      ensures u == User(old(nextUserId), username, nickname, password, clock)
      ensures old(nextUserId) !in old(users)
      ensures users == old(users)[u.id := u]
      ensures nextUserId == old(nextUserId) + 1 && clock == old(clock) + 1
      ensures posts == old(posts) && nextPostId == old(nextPostId)
    {
      clock := clock + 1;
      u := User(nextUserId, username, nickname, password, clock);
      users := users[nextUserId := u];
      nextUserId := nextUserId + 1;
    }

    /** `Post.create(...)`: a new row under the next id, with both
        timestamps set now. */
    method InsertPost(title: string, content: string, authorId: nat) returns (p: Post)
      requires Valid()
      requires authorId in users && ValidPostCreate(PostCreate(title, content))
      modifies this
      ensures Valid()
      ensures p == Post(old(nextPostId), title, content, clock, clock, authorId)
      ensures old(nextPostId) !in old(posts)
      ensures posts == old(posts)[p.id := p]
      ensures nextPostId == old(nextPostId) + 1 && clock == old(clock) + 1
      ensures users == old(users) && nextUserId == old(nextUserId)
    {
      clock := clock + 1;
      p := Post(nextPostId, title, content, clock, clock, authorId);
      posts := posts[nextPostId := p];
      nextPostId := nextPostId + 1;
    }

    /** `update_from_dict({title, content}).save()`: the two columns are
        replaced and `updated_at` is refreshed; id, author and `created_at`
        keep their values. */
    method SavePost(id: int, title: string, content: string) returns (p: Post)
      requires Valid()
      requires id in posts && ValidPostCreate(PostCreate(title, content))
      modifies this
      ensures Valid()
      ensures p == old(posts)[id].(title := title, content := content, updatedAt := clock)
      ensures posts == old(posts)[id := p]
      ensures clock == old(clock) + 1 && old(posts)[id].updatedAt < p.updatedAt
      ensures users == old(users) && nextUserId == old(nextUserId) && nextPostId == old(nextPostId)
    {
      clock := clock + 1;
      p := posts[id].(title := title, content := content, updatedAt := clock);
      posts := posts[id := p];
    }

    /** `post.delete()`: that row goes, every other row stays. */
    method DeletePost(id: int)
      requires Valid()
      requires id in posts
      modifies this
      ensures Valid()
      ensures posts == old(posts) - {id}
      ensures users == old(users) && nextUserId == old(nextUserId) && nextPostId == old(nextPostId)
      ensures clock == old(clock)
    {
      posts := posts - {id};
    }
  }
}
