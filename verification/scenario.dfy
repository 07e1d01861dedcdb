/** A client of the routers: the register / login / post / update / delete
    exchange between two users, with a small codec that meets `Sound`.
    Every assertion follows from the handlers' contracts alone. */
module Scenario {
  import opened Http
  import opened Config
  import opened Models
  import opened Security
  import opened Store
  import opened Auth
  import opened Board

  const TokenTag: string := "jwt."
  const DigestTag: string := "digest:"

  /** A stand-in codec: tokens are the subject behind a tag, digests are the
      password behind another. */
  function TagCodec(): (c: Codec)
  {
    Codec(
      encode := (sub: string) => TokenTag + sub,
      decode := (t: string) =>
        if |TokenTag| <= |t| && t[..|TokenTag|] == TokenTag then Some(t[|TokenTag|..]) else None,
      hash := (p: string) => DigestTag + p,
      verify := (p: string, h: string) => h == DigestTag + p)
  }

  lemma TagCodecSound()
    ensures Sound(TagCodec())
  {
    var c := TagCodec();
    forall sub: string
      ensures c.decode(c.encode(sub)) == Some(sub)
    {
      assert (TokenTag + sub)[..|TokenTag|] == TokenTag;
      assert (TokenTag + sub)[|TokenTag|..] == sub;
    }
  }

  /** Alice registers, is refused a second account, and logs in. */
  method AliceRegistersAndLogsIn()
  {
    var codec := TagCodec();
    TagCodecSound();
    var db := new Database();

    var ra := Register(db, codec, UserIn("alice", "alice", "pw123"));
    assert ra.Ok? && ra.value.id == 1 && ra.value.username == "alice";
    var alice := db.users[1];
    assert alice.password == codec.hash("pw123");

    // A second registration under the same username is refused.
    var again := Register(db, codec, UserIn("alice", "someone", "x"));
    assert UsernameTaken(db.users, "alice");
    assert again == Err(400, UsernameRegistered);

    // Wrong password and unknown user get the same answer.
    var probe := new Response();
    UserNamedFindsRow(db.users, alice);
    var wrong := Login(db, codec, probe, LoginRequest("alice", "nope"));
    assert wrong == Err(401, IncorrectCredentials) && probe.cookies == [];
    assert !UsernameTaken(db.users, "mallory");
    var unknown := Login(db, codec, probe, LoginRequest("mallory", "pw123"));
    assert unknown == wrong;

    var respA := new Response();
    StoredPasswordAuthenticates(codec, db.users, alice, "pw123");
    var la := Login(db, codec, respA, LoginRequest("alice", "pw123"));
    assert la == Ok(LoggedIn) && respA.cookies == [SessionCookie(codec, alice)];
    var c := map[CookieName := respA.cookies[0].value];
    SessionCookieAuthenticates(codec, db.users, alice, c);
    assert Me(codec, db.users, c) == Ok(ToPublic(alice));

    // Logging out clears the cookie that was set.
    var out := Logout(respA);
    assert out == Ok(LoggedOut) && respA.cookies == [SessionCookie(codec, alice), ClearedCookie()];
  }

  /** With a single user on the table, every other name is free. */
  lemma NameIsFree(users: map<nat, User>, taken: string, other: string)
    requires users.Keys == {1} && users[1].username == taken && users[1].nickname == taken
    requires other != taken
    ensures !UsernameTaken(users, other) && !NicknameTaken(users, other)
  {
  }

  /** A registered user logs in with the password whose digest is
      stored, and the cookie the browser keeps authenticates that user. */
  method LogIn(db: Database, codec: Codec, id: nat, password: string) returns (c: map<string, string>)
    requires db.Valid() && Sound(codec)
    requires id in db.users && db.users[id].password == codec.hash(password)
    ensures CurrentUser(codec, db.users, c) == Ok(db.users[id])
  {
    var u := db.users[id];
    var resp := new Response();
    StoredPasswordAuthenticates(codec, db.users, u, password);
    var ok := Login(db, codec, resp, LoginRequest(u.username, password));
    assert ok == Ok(LoggedIn) && resp.cookies == [SessionCookie(codec, u)];
    c := map[CookieName := resp.cookies[0].value];
    SessionCookieAuthenticates(codec, db.users, u, c);
  }

  /** Alice registers, logs in and writes post 1. */
  method AliceWritesAPost() returns (db: Database, codec: Codec, c: map<string, string>)
    ensures fresh(db) && db.Valid() && Sound(codec)
    ensures db.users.Keys == {1} && db.nextUserId == 2
    ensures !UsernameTaken(db.users, "bob") && !NicknameTaken(db.users, "bob")
    ensures CurrentUser(codec, db.users, c) == Ok(db.users[1])
    ensures db.posts.Keys == {1} && db.posts[1].authorId == 1
  {
    codec := TagCodec();
    TagCodecSound();
    db := new Database();
    var ra := Register(db, codec, UserIn("alice", "alice", "pw123"));
    c := LogIn(db, codec, 1, "pw123");
    var created := CreatePost(db, codec, c, PostCreate("Hi", "Body"), NoFault);
    assert created.Ok? && created.value.id == 1 && created.value.author.username == "alice";
    NameIsFree(db.users, "alice", "bob");
  }

  /** Bob registers and logs in beside Alice, whose session still holds. */
  method BobJoins(db: Database, codec: Codec, c: map<string, string>) returns (d: map<string, string>)
    requires db.Valid() && Sound(codec)
    requires db.users.Keys == {1} && db.nextUserId == 2
    requires !UsernameTaken(db.users, "bob") && !NicknameTaken(db.users, "bob")
    requires CurrentUser(codec, db.users, c) == Ok(db.users[1])
    modifies db
    ensures db.Valid() && 1 in db.users && 2 in db.users
    ensures CurrentUser(codec, db.users, c) == Ok(db.users[1])
    ensures CurrentUser(codec, db.users, d) == Ok(db.users[2])
    ensures db.posts == old(db.posts)
  {
    ghost var before := db.users;
    var rb := Register(db, codec, UserIn("bob", "bob", "pw"));
    SessionSurvivesRegistration(codec, before, 2, db.users[2], c);
    d := LogIn(db, codec, 2, "pw");
  }

  /** With Bob and Alice both signed in, Bob may not change or remove
      Alice's post; a missing post is 404 whoever asks; without a cookie
      nothing is looked at. None of these refusals changes the store. */
  method BobIsRefused(db: Database, codec: Codec, d: map<string, string>)
    requires db.Valid() && 2 in db.users && CurrentUser(codec, db.users, d) == Ok(db.users[2])
    requires 1 in db.posts && db.posts[1].authorId == 1 && 7 !in db.posts
    modifies db
    ensures unchanged(db)
  {
    var byBob := UpdatePost(db, codec, d, 1, PostCreate("Hi2", "Body2"));
    assert byBob == Err(403, NotAllowedToUpdate);
    var missing := UpdatePost(db, codec, d, 7, PostCreate("Hi2", "Body2"));
    assert missing == Err(404, PostNotFound);
    var anonymous := UpdatePost(db, codec, map[], 1, PostCreate("Hi2", "Body2"));
    assert anonymous == Err(401, NotAuthenticated);
    var bobDeletes := DeletePost(db, codec, d, 1);
    assert bobDeletes == Err(403, NotAllowedToDelete);
  }

  /** Alice edits her own post and then deletes it; afterwards it is 404. */
  method AliceEditsThenDeletes(db: Database, codec: Codec, c: map<string, string>)
    requires db.Valid() && 1 in db.users && CurrentUser(codec, db.users, c) == Ok(db.users[1])
    requires 1 in db.posts && db.posts[1].authorId == 1
    modifies db
    ensures db.Valid() && 1 !in db.posts
  {
    var byAlice := UpdatePost(db, codec, c, 1, PostCreate("Hi2", "Body2"));
    assert byAlice.Ok? && byAlice.value.title == "Hi2" && byAlice.value.author.id == 1;
    var deleted := DeletePost(db, codec, c, 1);
    assert deleted == Ok(PostDeleted);
    var gone := GetPost(db.users, db.posts, 1);
    assert gone == Err(404, PostNotFound);
  }
}
