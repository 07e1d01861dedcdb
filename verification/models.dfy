/** The two tables (users, posts), the request bodies validated against
    them, and the public views returned to clients (app/models.py). */
module Models {
  import opened Http

  /** CharField(max_length=50) on username and nickname. */
  const MaxNameLength: nat := 50
  /** CharField(max_length=255) on password. */
  const MaxPasswordLength: nat := 255
  /** Post title bound, in the table and in the PostCreate body. */
  const MaxTitleLength: nat := 255

  /** A row of the users table; `password` holds the digest. */
  datatype User = User(id: nat, username: string, nickname: string, password: string, createdAt: nat)

  /** A row of the posts table; `authorId` is the single foreign key to users. */
  datatype Post = Post(id: int, title: string, content: string, createdAt: nat, updatedAt: nat, authorId: nat)

  /** Registration body: every writable column of User. */
  datatype UserIn = UserIn(username: string, nickname: string, password: string)

  /** Body of create and update on posts. */
  datatype PostCreate = PostCreate(title: string, content: string)

  /** The outward view of a user: every column except the password. */
  datatype PublicUser = PublicUser(id: nat, username: string, nickname: string, createdAt: nat)

  /** The outward view of a post, with its author embedded. */
  datatype PostView = PostView(id: int, title: string, content: string, createdAt: nat, updatedAt: nat, author: PublicUser)

  predicate ValidUserIn(u: UserIn)
  {
    |u.username| <= MaxNameLength && |u.nickname| <= MaxNameLength && |u.password| <= MaxPasswordLength
  }

  predicate ValidPostCreate(p: PostCreate)
  {
    1 <= |p.title| <= MaxTitleLength && 1 <= |p.content|
  }

  function ToPublic(u: User): (pu: PublicUser)
  {
    PublicUser(u.id, u.username, u.nickname, u.createdAt)
  }

  /** The projection cannot depend on the password: two users that differ
      only in their password have the same public view. */
  lemma PublicViewIgnoresPassword(u: User, other: string)
    ensures ToPublic(u) == ToPublic(u.(password := other))
    ensures ToPublic(u).id == u.id && ToPublic(u).username == u.username && ToPublic(u).nickname == u.nickname
  {
  }

  function ViewOf(users: map<nat, User>, p: Post): (v: PostView)
    requires p.authorId in users
  {
    PostView(p.id, p.title, p.content, p.createdAt, p.updatedAt, ToPublic(users[p.authorId]))
  }

  predicate UsernameTaken(users: map<nat, User>, name: string)
  {
    exists k :: k in users && users[k].username == name
  }

  predicate NicknameTaken(users: map<nat, User>, name: string)
  {
    exists k :: k in users && users[k].nickname == name
  }

  /** unique=True on username. */
  ghost predicate UniqueUsernames(users: map<nat, User>)
  {
    forall i, j :: i in users && j in users && users[i].username == users[j].username ==> i == j
  }

  /** unique=True on nickname. */
  ghost predicate UniqueNicknames(users: map<nat, User>)
  {
    forall i, j :: i in users && j in users && users[i].nickname == users[j].nickname ==> i == j
  }

  /** Every row sits under its own positive id and respects the column widths. */
  ghost predicate UsersWellFormed(users: map<nat, User>)
  {
    forall k :: k in users ==>
      && users[k].id == k && 1 <= k
      && |users[k].username| <= MaxNameLength
      && |users[k].nickname| <= MaxNameLength
  }

  /** Every post sits under its own positive id, has valid title and content,
      an existing author, and was not updated before it was created. */
  ghost predicate PostsWellFormed(posts: map<int, Post>, users: map<nat, User>)
  {
    forall k :: k in posts ==>
      && posts[k].id == k && 1 <= k
      && posts[k].authorId in users
      && ValidPostCreate(PostCreate(posts[k].title, posts[k].content))
      && posts[k].createdAt <= posts[k].updatedAt
  }

  /** The row of the user whose username is `name`, if any (a query
      filtered on a unique column). */
  function UserNamed(users: map<nat, User>, name: string): (r: Option<User>)
    requires UniqueUsernames(users)
    ensures r.None? <==> !UsernameTaken(users, name)
    ensures r.Some? ==> r.value in users.Values && r.value.username == name
  {
    if UsernameTaken(users, name) then
      var k :| k in users && users[k].username == name; Some(users[k])
    else
      None
  }

  /** A stored row sits under its own id. */
  lemma StoredUserUnderOwnId(users: map<nat, User>, u: User)
    requires UsersWellFormed(users) && u in users.Values
    ensures u.id in users && users[u.id] == u
  {
    var k :| k in users && users[k] == u;
  }

  /** Looking a stored user up by username finds that user. */
  lemma UserNamedFindsRow(users: map<nat, User>, u: User)
    requires UsersWellFormed(users) && UniqueUsernames(users)
    requires u.id in users && users[u.id] == u
    ensures UserNamed(users, u.username) == Some(u)
  {
    assert UsernameTaken(users, u.username);
  }
}
