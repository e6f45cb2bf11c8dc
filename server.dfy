/** The route handlers of the blog backend, as methods of a store that holds the `User` and
    `Post` tables. Each method takes the parts of the request its route reads and returns the
    response: a status code and what the JSON body carries. The three routes that change
    posts run the token guard before they look at the outcome of their validation rules. */
module Server {
  import opened Wrappers
  import opened Validator
  import opened UserValidate
  import opened PostValidate
  import opened UserEntity
  import opened PostEntity
  import TokenGuard
  import Jwt
  import Bcrypt

  /** The single-message errors the handlers answer with. */
  datatype ErrorKind =
    | LoginRequired         // 401 "로그인이 필요합니다."
    | TokenRejected         // 403 "인증 정보가 올바르지 않습니다."
    | DuplicateEmail        // 400 "이미 존재하는 이메일입니다."
    | InvalidCredentials    // 401 "계정 정보가 올바르지 않습니다."
    | PostNotFound          // 404 "존재하지 않는 게시글입니다."
    | ServerError           // 500, a failed query

  function StatusOf(kind: ErrorKind): int {
    match kind
    case LoginRequired => 401
    case TokenRejected => 403
    case DuplicateEmail => 400
    case InvalidCredentials => 401
    case PostNotFound => 404
    case ServerError => 500
  }

  /** A post read with `include: {model: User, attributes: ["email"]}`: the row and the
      email of the user it references, if that user is found. */
  datatype PostView = PostView(post: Post, author: Option<string>)

  datatype Payload =
    | ValidationFailed(errors: seq<FieldError>)
    | Failed(kind: ErrorKind)
    | SignedUp(user: UserView)
    | SignedIn(user: UserView, token: string)
    | PostCreated(created: Post)
    | PostUpdated(updated: Post)
    | PostDeleted
    | PostFound(found: PostView)
    | PostPage(perpage: int, page: int, count: nat, rows: seq<PostView>)

  datatype Response = Response(status: int, payload: Payload)

  function Ok(payload: Payload): Response {
    Response(200, payload)
  }

  function Fail(kind: ErrorKind): Response {
    Response(StatusOf(kind), Failed(kind))
  }

  function Invalid(errors: seq<FieldError>): Response {
    Response(400, ValidationFailed(errors))
  }

  /** The join of a post with its author's email. */
  function WithAuthor(users: seq<User>, p: Post): (v: PostView)
    ensures v.post == p
    ensures v.author.Some? ==> exists j :: 0 <= j < |users| && users[j].id == p.userId && v.author.value == users[j].email
    ensures v.author.None? ==> forall j :: 0 <= j < |users| ==> users[j].id != p.userId
  {
    match FindById(users, p.userId)
    case None => PostView(p, None)
    case Some(u) => PostView(p, Some(u.email))
  }

  /** Each row joined with its author. */
  function Joined(users: seq<User>, rows: seq<Post>): (views: seq<PostView>)
    ensures |views| == |rows|
    ensures forall k :: 0 <= k < |rows| ==> views[k].post == rows[k]
    ensures forall k :: 0 <= k < |rows| && views[k].author.Some? ==>
      exists j :: 0 <= j < |users| && users[j].id == rows[k].userId && views[k].author.value == users[j].email
    ensures forall k :: 0 <= k < |rows| && views[k].author.None? ==>
      forall j :: 0 <= j < |users| ==> users[j].id != rows[k].userId
  {
    seq(|rows|, k requires 0 <= k < |rows| => WithAuthor(users, rows[k]))
  }

  /** In a valid store every listed row carries its author's email: the foreign key makes
      the join find the owner. */
  lemma ListedRowsHaveAuthors(users: seq<User>, nextUserId: nat, posts: seq<Post>, nextPostId: nat, offset: nat, limit: nat)
    requires StoreValid(users, nextUserId, posts, nextPostId)
    ensures forall k :: 0 <= k < |Page(posts, offset, limit)| ==>
      Joined(users, Page(posts, offset, limit))[k].author.Some?
  {
    var rows := Page(posts, offset, limit);
    forall k | 0 <= k < |rows| ensures Joined(users, rows)[k].author.Some? {
      assert OwnerExists(users, posts[offset + k]);
    }
  }

  /** `offset = (page - 1) * perpage` */
  function Offset(paging: Paging): (offset: int)
    ensures paging.page == 1 ==> offset == 0
    ensures paging.page >= 1 && paging.perpage >= 0 ==> offset >= 0
    ensures paging.page < 1 && paging.perpage >= 1 ==> offset < 0
  {
    (paging.page - 1) * paging.perpage
  }

  /** `findAll({offset, limit})` over the rows in insertion order: the rows from `offset` on,
      at most `limit` of them. */
  function Page<T>(rows: seq<T>, offset: nat, limit: nat): (r: seq<T>)
    ensures |r| == if offset >= |rows| then 0 else if offset + limit <= |rows| then limit else |rows| - offset
    ensures forall k :: 0 <= k < |r| ==> r[k] == rows[offset + k]
  {
    if offset >= |rows| then []
    else if offset + limit <= |rows| then rows[offset..offset + limit]
    else rows[offset..]
  }

  /** Two adjacent windows read the same rows as one window as long as both. */
  lemma PageSplit<T>(rows: seq<T>, offset: nat, a: nat, b: nat)
    ensures Page(rows, offset, a) + Page(rows, offset + a, b) == Page(rows, offset, a + b)
  {
    var left, right, whole := Page(rows, offset, a), Page(rows, offset + a, b), Page(rows, offset, a + b);
    assert |left + right| == |whole|;
    forall k | 0 <= k < |whole| ensures (left + right)[k] == whole[k] {
      if k < |left| {
        assert (left + right)[k] == left[k];
      } else {
        assert (left + right)[k] == right[k - |left|];
      }
    }
  }

  /** Page `n + 1` starts where page `n` ends, so pages 1, 2, ... read the table in order,
      each row once. */
  lemma PagesTile<T>(rows: seq<T>, perpage: nat, n: nat)
    ensures Offset(Paging(perpage, n + 1)) == Offset(Paging(perpage, n)) + perpage
    ensures Concat(rows, perpage, n) == Page(rows, 0, n * perpage)
  {
    ConcatIsPrefix(rows, perpage, n);
  }

  /** Pages 1 to `n` together are the first `n * perpage` rows. */
  lemma {:induction false} ConcatIsPrefix<T>(rows: seq<T>, perpage: nat, n: nat)
    ensures Concat(rows, perpage, n) == Page(rows, 0, n * perpage)
  {
    if n > 0 {
      var m := (n - 1) * perpage;
      ConcatIsPrefix(rows, perpage, n - 1);
      PageSplit(rows, 0, m, perpage);
      assert m + perpage == n * perpage;
    }
  }

  /** Pages 1 to `n` one after the other. */
  function Concat<T>(rows: seq<T>, perpage: nat, n: nat): seq<T> {
    if n == 0 then [] else Concat(rows, perpage, n - 1) + Page(rows, (n - 1) * perpage, perpage)
  }

  /** With fifteen posts, `?perpage=10&page=2` reads the 11th to the 15th post. */
  lemma SecondPageOfFifteen<T>(rows: seq<T>)
    requires |rows| == 15
    ensures Offset(Paging(10, 2)) == 10
    ensures Page(rows, 10, 10) == rows[10..15]
  {
  }

  /** Some row references the user and has the key. */
  ghost predicate Owned(posts: seq<Post>, id: nat, userId: nat) {
    exists i :: 0 <= i < |posts| && Matches(posts[i], id, userId)
  }

  /** Under distinct keys, a post is never owned by anyone but its author: for any other
      caller the scoped look-up finds nothing, exactly as for a key no post has. */
  lemma ForeignPostNotOwned(posts: seq<Post>, i: nat, userId: nat)
    requires KeysDistinct(posts) && i < |posts| && posts[i].userId != userId
    ensures !Owned(posts, posts[i].id, userId)
  {
    forall j | 0 <= j < |posts| ensures !Matches(posts[j], posts[i].id, userId) {
      if j != i {
        assert posts[j].id != posts[i].id;
      }
    }
  }

  /** Some user row has the primary key `id`. */
  ghost predicate HasUser(users: seq<User>, id: nat) {
    exists j :: 0 <= j < |users| && users[j].id == id
  }

  /** Some email is stored with a hash that `bcrypt.compare` accepts for the password. */
  ghost predicate Registered(users: seq<User>, email: string, password: string) {
    exists i :: 0 <= i < |users| && users[i].email == email && Bcrypt.Compare(password, users[i].password)
  }

  /** The schema constraints, plus what the handlers keep true on top of them: distinct
      emails, stored emails that pass the email rule, passwords stored only as hashes of
      cost 10, and non-empty titles and contents. */
  ghost predicate StoreValid(users: seq<User>, nextUserId: nat, posts: seq<Post>, nextPostId: nat) {
    && 1 <= nextUserId && 1 <= nextPostId
    && UsersTable(users, nextUserId)
    && EmailsDistinct(users)
    && (forall i :: 0 <= i < |users| ==> IsEmail(users[i].email) && users[i].password.cost == Bcrypt.SaltRounds)
    && PostsTable(posts, nextPostId, users)
    && (forall i :: 0 <= i < |posts| ==> posts[i].title != "" && posts[i].content != "")
  }

  /** The row that signup stores lets its email and password sign in. */
  lemma NewAccountCanSignIn(users: seq<User>, id: nat, email: string, password: string, salt: string)
    ensures Registered(users + [UserEntity.Create(id, email, password, salt)], email, password)
  {
    var users' := users + [UserEntity.Create(id, email, password, salt)];
    assert users'[|users|] == UserEntity.Create(id, email, password, salt);
  }

  /** Signup's insert keeps the invariant: the row takes the next key, its email is valid
      and new, and its password is hashed. */
  lemma NewUserKeepsStore(users: seq<User>, nextUserId: nat, posts: seq<Post>, nextPostId: nat, u: User)
    requires StoreValid(users, nextUserId, posts, nextPostId)
    requires u.id == nextUserId && IsEmail(u.email) && u.password.cost == Bcrypt.SaltRounds
    requires forall i :: 0 <= i < |users| ==> users[i].email != u.email
    ensures StoreValid(users + [u], nextUserId + 1, posts, nextPostId)
  {
    OwnersSurviveNewUser(posts, nextPostId, users, u);
    var users' := users + [u];
    assert forall i :: 0 <= i < |users| ==> users'[i] == users[i];
  }

  /** Create's insert keeps the invariant: the row takes the next key, references an
      existing user and has a non-empty title and content. */
  lemma NewPostKeepsStore(users: seq<User>, nextUserId: nat, posts: seq<Post>, nextPostId: nat, p: Post)
    requires StoreValid(users, nextUserId, posts, nextPostId)
    requires p.id == nextPostId && OwnerExists(users, p) && p.title != "" && p.content != ""
    ensures StoreValid(users, nextUserId, posts + [p], nextPostId + 1)
  {
    InsertKeepsTable(posts, nextPostId, users, p);
    var posts' := posts + [p];
    forall i | 0 <= i < |posts'| ensures posts'[i].title != "" && posts'[i].content != "" {
      if i < |posts| {
        assert posts'[i] == posts[i];
      }
    }
  }

  /** Update keeps the invariant when it writes only non-empty values. */
  lemma UpdateKeepsStore(users: seq<User>, nextUserId: nat, posts: seq<Post>, nextPostId: nat,
                         id: nat, userId: nat, data: UpdateData)
    requires StoreValid(users, nextUserId, posts, nextPostId)
    requires data.title.Some? ==> data.title.value != ""
    requires data.content.Some? ==> data.content.value != ""
    ensures StoreValid(users, nextUserId, UpdateWhere(posts, id, userId, data), nextPostId)
  {
    UpdateKeepsTable(posts, nextPostId, users, id, userId, data);
    var posts' := UpdateWhere(posts, id, userId, data);
    forall k | 0 <= k < |posts'| ensures posts'[k].title != "" && posts'[k].content != "" {
      assert posts[k].title != "" && posts[k].content != "";
    }
  }

  /** The `updateData` the update handler builds: the title and the content, each only
      when given non-empty. */
  function Changes(body: PostBody): (data: UpdateData)
    ensures data.title.Some? <==> NotEmpty(body.title)
    ensures data.content.Some? <==> NotEmpty(body.content)
    ensures data.title.Some? ==> data.title == body.title
    ensures data.content.Some? ==> data.content == body.content
  {
    UpdateData(if NotEmpty(body.title) then body.title else None,
               if NotEmpty(body.content) then body.content else None)
  }

  /** `after` is `before` with the row at some position `i`, the one with key `id` and owner
      `userId`, given the body's non-empty title and content; `res` answers with that row. */
  ghost predicate RewroteOwned(before: seq<Post>, after: seq<Post>, id: nat, userId: nat, body: PostBody, res: Response) {
    exists i :: 0 <= i < |before| && Matches(before[i], id, userId)
      && |after| == |before|
      && (forall j :: 0 <= j < |after| && j != i ==> after[j] == before[j])
      && after[i].id == before[i].id && after[i].userId == userId
      && after[i].title == (if NotEmpty(body.title) then body.title.value else before[i].title)
      && after[i].content == (if NotEmpty(body.content) then body.content.value else before[i].content)
      && res == Ok(PostUpdated(after[i]))
  }

  /** The scoped update with the handler's `updateData` rewrites the owned row as stated. */
  lemma UpdateRewritesOwned(posts: seq<Post>, id: nat, userId: nat, body: PostBody, i: nat)
    requires KeysDistinct(posts) && i < |posts| && Matches(posts[i], id, userId)
    ensures RewroteOwned(posts, UpdateWhere(posts, id, userId, Changes(body)), id, userId, body,
                         Ok(PostUpdated(UpdateWhere(posts, id, userId, Changes(body))[i])))
  {
    var after := UpdateWhere(posts, id, userId, Changes(body));
    UpdateWhereRewritesOne(posts, id, userId, Changes(body), i);
    assert after[i] == Apply(posts[i], Changes(body));
  }

  /** The whole success path of the update handler on values. */
  lemma UpdateOutcome(users: seq<User>, nextUserId: nat, posts: seq<Post>, nextPostId: nat,
                      id: nat, userId: nat, body: PostBody, i: nat)
    requires StoreValid(users, nextUserId, posts, nextPostId)
    requires i < |posts| && Matches(posts[i], id, userId)
    ensures StoreValid(users, nextUserId, UpdateWhere(posts, id, userId, Changes(body)), nextPostId)
    ensures FindOwned(UpdateWhere(posts, id, userId, Changes(body)), id, userId) == Some(i)
    ensures RewroteOwned(posts, UpdateWhere(posts, id, userId, Changes(body)), id, userId, body,
                         Ok(PostUpdated(UpdateWhere(posts, id, userId, Changes(body))[i])))
  {
    RereadFindsUpdated(posts, id, userId, Changes(body), i);
    UpdateRewritesOwned(posts, id, userId, body, i);
    UpdateKeepsStore(users, nextUserId, posts, nextPostId, id, userId, Changes(body));
  }

  /** Removing one row keeps the invariant. */
  lemma RemoveKeepsStore(users: seq<User>, nextUserId: nat, posts: seq<Post>, nextPostId: nat, i: nat)
    requires StoreValid(users, nextUserId, posts, nextPostId) && i < |posts|
    ensures StoreValid(users, nextUserId, posts[..i] + posts[i + 1..], nextPostId)
  {
    var posts' := posts[..i] + posts[i + 1..];
    assert forall k :: 0 <= k < |posts'| ==> posts'[k] == posts[if k < i then k else k + 1];
    forall k | 0 <= k < |posts'| ensures OwnerExists(users, posts'[k]) {
      assert OwnerExists(users, posts[if k < i then k else k + 1]);
    }
  }

  class BlogServer {
    var users: seq<User>
    var posts: seq<Post>
    /** The auto-increment counters of the two tables. */
    var nextUserId: nat
    var nextPostId: nat
    /** `process.env.JWT_SECRET_KEY` */
    const secret: string

    /** The invariant of the two tables, on the current contents. */
    ghost predicate Valid()
      reads this
    {
      StoreValid(users, nextUserId, posts, nextPostId)
    }

    constructor(secret: string)
      ensures Valid()
      ensures users == [] && posts == [] && this.secret == secret
      ensures nextUserId == 1 && nextPostId == 1
    {
      users, posts := [], [];
      nextUserId, nextPostId := 1, 1;
      this.secret := secret;
    }

    /** What `validateToken` decides for this request. */
    function Auth(authorization: Option<string>, now: nat): TokenGuard.GuardOutcome {
      TokenGuard.Guard(authorization, secret, now)
    }

    /** `POST /users/signup` (the salt is the randomness `bcrypt.hash` draws). */
    method SignUp(body: Credentials, salt: string) returns (res: Response)
      requires Valid()
      modifies this
      ensures Valid()
      ensures posts == old(posts) && nextPostId == old(nextPostId)
      ensures AuthValidate(body) != [] ==>
        res == Invalid(AuthValidate(body)) && users == old(users) && nextUserId == old(nextUserId)
      ensures AuthValidate(body) == [] && (exists i :: 0 <= i < |old(users)| && old(users)[i].email == AsText(body.email)) ==>
        res == Fail(DuplicateEmail) && users == old(users) && nextUserId == old(nextUserId)
      ensures AuthValidate(body) == [] && (forall i :: 0 <= i < |old(users)| ==> old(users)[i].email != AsText(body.email)) ==>
        && users == old(users) + [UserEntity.Create(old(nextUserId), AsText(body.email), AsText(body.password), salt)]
        && nextUserId == old(nextUserId) + 1
        && res == Ok(SignedUp(UserView(old(nextUserId), AsText(body.email))))
    {
      var errors := AuthValidate(body);
      if errors != [] {
        return Invalid(errors);
      }
      AcceptedBodyHasFields(body);
      var email, password := AsText(body.email), AsText(body.password);
      var existing := FindByEmail(users, email);
      if existing.Some? {
        return Fail(DuplicateEmail);
      }
      var user := UserEntity.Create(nextUserId, email, password, salt);
      NewUserKeepsStore(users, nextUserId, posts, nextPostId, user);
      users := users + [user];
      nextUserId := nextUserId + 1;
      assert StoreValid(users, nextUserId, posts, nextPostId);
      res := Ok(SignedUp(DefaultScope(user)));
    }

    /** `POST /users/signin` at time `now`. An unknown email and a wrong password get the
        same answer; otherwise the token carries the user's id and email and expires an hour
        later. */
    method SignIn(body: Credentials, now: nat) returns (res: Response)
      requires Valid()
      ensures AuthValidate(body) != [] ==> res == Invalid(AuthValidate(body))
      ensures AuthValidate(body) == [] && !Registered(users, AsText(body.email), AsText(body.password)) ==>
        res == Fail(InvalidCredentials)
      ensures AuthValidate(body) == [] && Registered(users, AsText(body.email), AsText(body.password)) ==>
        exists i :: 0 <= i < |users| && users[i].email == AsText(body.email)
          && res == Ok(SignedIn(UserView(users[i].id, users[i].email),
                                Jwt.Sign(Jwt.Claims(users[i].id, users[i].email, now, now + Jwt.ExpiresIn), secret)))
    {
      var errors := AuthValidate(body);
      if errors != [] {
        return Invalid(errors);
      }
      var email, password := AsText(body.email), AsText(body.password);
      var found := FindByEmail(users, email);
      if found.None? {
        return Fail(InvalidCredentials);
      }
      var user := found.value;
      var i :| 0 <= i < |users| && users[i] == user;
      if !Bcrypt.Compare(password, user.password) {
        assert !Registered(users, email, password) by {
          forall j | 0 <= j < |users| && users[j].email == email ensures !Bcrypt.Compare(password, users[j].password) {
            assert j == i;
          }
        }
        return Fail(InvalidCredentials);
      }
      var token := Jwt.Sign(Jwt.Issue(user.id, user.email, now), secret);
      res := Ok(SignedIn(DefaultScope(user), token));
    }

    /** The `POST /posts` handler's outcome for the caller `userId`: nothing changes unless
        both fields are non-empty and the caller's row exists, and then exactly one post is
        added, owned by the caller. */
    twostate predicate CreatedAs(userId: nat, body: PostBody, res: Response)
      reads this
    {
      && users == old(users) && nextUserId == old(nextUserId)
      && (CreateRules(body) != [] ==>
            res == Invalid(CreateRules(body)) && posts == old(posts) && nextPostId == old(nextPostId))
      && (CreateRules(body) == [] && !HasUser(users, userId) ==>
            res == Fail(ServerError) && posts == old(posts) && nextPostId == old(nextPostId))
      && (CreateRules(body) == [] && HasUser(users, userId) ==>
            && posts == old(posts) + [Post(old(nextPostId), AsText(body.title), AsText(body.content), userId)]
            && nextPostId == old(nextPostId) + 1
            && res == Ok(PostCreated(posts[|posts| - 1])))
    }

    /** The `PUT /posts/:post_id` handler's outcome for the caller `userId`: the post with
        that key and that owner gets the title and the content that are given non-empty, and
        nothing else changes; a post of someone else's is as missing as one that does not
        exist. */
    twostate predicate UpdatedAs(userId: nat, postId: string, body: PostBody, res: Response)
      reads this
    {
      && users == old(users) && nextUserId == old(nextUserId) && nextPostId == old(nextPostId)
      && (UpdateRules(postId, body) != [] ==> res == Invalid(UpdateRules(postId, body)) && posts == old(posts))
      && (UpdateRules(postId, body) == [] && !Owned(old(posts), PostIdValue(postId), userId) ==>
            res == Fail(PostNotFound) && posts == old(posts))
      && (UpdateRules(postId, body) == [] && Owned(old(posts), PostIdValue(postId), userId) ==>
            RewroteOwned(old(posts), posts, PostIdValue(postId), userId, body, res))
    }

    /** The `DELETE /posts/:post_id` handler's outcome for the caller `userId`: the post with
        that key and that owner is removed, and nothing else; a post of someone else's is as
        missing as one that does not exist. */
    twostate predicate DeletedAs(userId: nat, postId: string, res: Response)
      reads this
    {
      && users == old(users) && nextUserId == old(nextUserId) && nextPostId == old(nextPostId)
      && (PostIdRules(postId) != [] ==> res == Invalid(PostIdRules(postId)) && posts == old(posts))
      && (PostIdRules(postId) == [] && !Owned(old(posts), PostIdValue(postId), userId) ==>
            res == Fail(PostNotFound) && posts == old(posts))
      && (PostIdRules(postId) == [] && Owned(old(posts), PostIdValue(postId), userId) ==>
            exists i :: 0 <= i < |old(posts)| && Matches(old(posts)[i], PostIdValue(postId), userId)
              && posts == old(posts)[..i] + old(posts)[i + 1..]
              && res == Ok(PostDeleted))
    }

    /** The `POST /posts` handler, run after the guard has set `req.user`. The owner is the
        token's `userId`, never anything in the body. */
    method CreatePostAs(user: Jwt.Claims, body: PostBody) returns (res: Response)
      requires Valid()
      modifies this
      ensures Valid()
      ensures CreatedAs(user.userId, body, res)
    {
      var errors := CreateRules(body);
      if errors != [] {
        return Invalid(errors);
      }
      var userId := user.userId;
      if FindById(users, userId).None? {
        assert !HasUser(users, userId);
        return Fail(ServerError);
      }
      var post := Post(nextPostId, AsText(body.title), AsText(body.content), userId);
      assert HasUser(users, userId);
      assert OwnerExists(users, post);
      NewPostKeepsStore(users, nextUserId, posts, nextPostId, post);
      posts := posts + [post];
      nextPostId := nextPostId + 1;
      assert StoreValid(users, nextUserId, posts, nextPostId);
      res := Ok(PostCreated(post));
    }

    /** The `PUT /posts/:post_id` handler, run after the guard has set `req.user`. */
    method UpdatePostAs(user: Jwt.Claims, postId: string, body: PostBody) returns (res: Response)
      requires Valid()
      modifies this
      ensures Valid()
      ensures UpdatedAs(user.userId, postId, body, res)
    {
      var errors := UpdateRules(postId, body);
      if errors != [] {
        return Invalid(errors);
      }
      var id, userId := PostIdValue(postId), user.userId;
      var found := FindOwned(posts, id, userId);
      if found.None? {
        assert !Owned(posts, id, userId);
        return Fail(PostNotFound);
      }
      var i := found.value;
      assert Owned(posts, id, userId);
      var data := Changes(body);
      UpdateOutcome(users, nextUserId, posts, nextPostId, id, userId, body, i);
      posts := UpdateWhere(posts, id, userId, data);
      assert StoreValid(users, nextUserId, posts, nextPostId);
      var again := FindOwned(posts, id, userId);
      res := Ok(PostUpdated(posts[again.value]));
    }

    /** The `DELETE /posts/:post_id` handler, run after the guard has set `req.user`. */
    method DeletePostAs(user: Jwt.Claims, postId: string) returns (res: Response)
      requires Valid()
      modifies this
      ensures Valid()
      ensures DeletedAs(user.userId, postId, res)
    {
      var errors := PostIdRules(postId);
      if errors != [] {
        return Invalid(errors);
      }
      var id, userId := PostIdValue(postId), user.userId;
      var found := FindOwned(posts, id, userId);
      if found.None? {
        assert !Owned(posts, id, userId);
        return Fail(PostNotFound);
      }
      var i := found.value;
      assert Owned(posts, id, userId);
      DestroyWhereRemovesOne(posts, id, userId, i);
      RemoveKeepsStore(users, nextUserId, posts, nextPostId, i);
      posts := DestroyWhere(posts, id, userId);
      assert StoreValid(users, nextUserId, posts, nextPostId);
      res := Ok(PostDeleted);
    }

    /** `POST /posts`: `validateToken`, then the handler. No token gives 401 and a rejected
        token 403, whatever the body holds, and neither touches the store. */
    method CreatePost(authorization: Option<string>, body: PostBody, now: nat) returns (res: Response)
      requires Valid()
      modifies this
      ensures Valid()
      ensures Auth(authorization, now).NoToken? ==> res == Fail(LoginRequired) && unchanged(this)
      ensures Auth(authorization, now).Rejected? ==> res == Fail(TokenRejected) && unchanged(this)
      ensures Auth(authorization, now).Authenticated? ==> CreatedAs(Auth(authorization, now).user.userId, body, res)
    {
      var outcome := Auth(authorization, now);
      match outcome
      case NoToken => res := Fail(LoginRequired);
      case Rejected(_) => res := Fail(TokenRejected);
      case Authenticated(user) => res := CreatePostAs(user, body);
    }

    /** `PUT /posts/:post_id`: `validateToken`, then the handler. */
    method UpdatePost(authorization: Option<string>, postId: string, body: PostBody, now: nat) returns (res: Response)
      requires Valid()
      modifies this
      ensures Valid()
      ensures Auth(authorization, now).NoToken? ==> res == Fail(LoginRequired) && unchanged(this)
      ensures Auth(authorization, now).Rejected? ==> res == Fail(TokenRejected) && unchanged(this)
      ensures Auth(authorization, now).Authenticated? ==> UpdatedAs(Auth(authorization, now).user.userId, postId, body, res)
    {
      var outcome := Auth(authorization, now);
      match outcome
      case NoToken => res := Fail(LoginRequired);
      case Rejected(_) => res := Fail(TokenRejected);
      case Authenticated(user) => res := UpdatePostAs(user, postId, body);
    }

    /** `DELETE /posts/:post_id`: `validateToken`, then the handler. */
    method DeletePost(authorization: Option<string>, postId: string, now: nat) returns (res: Response)
      requires Valid()
      modifies this
      ensures Valid()
      ensures Auth(authorization, now).NoToken? ==> res == Fail(LoginRequired) && unchanged(this)
      ensures Auth(authorization, now).Rejected? ==> res == Fail(TokenRejected) && unchanged(this)
      ensures Auth(authorization, now).Authenticated? ==> DeletedAs(Auth(authorization, now).user.userId, postId, res)
    {
      var outcome := Auth(authorization, now);
      match outcome
      case NoToken => res := Fail(LoginRequired);
      case Rejected(_) => res := Fail(TokenRejected);
      case Authenticated(user) => res := DeletePostAs(user, postId);
    }

    /** `GET /posts/:post_id`, no token needed. The raw parameter is the key: a string that
        is not an integer, or an integer that no post has, finds nothing. */
    method GetPost(postId: string) returns (res: Response)
      requires Valid()
      ensures res.status == 200 || res == Fail(PostNotFound)
      ensures res.status == 200 <==>
        IntValue(postId).Some? && exists i :: 0 <= i < |posts| && posts[i].id as int == IntValue(postId).value
      ensures res.status == 200 ==>
        exists i, j :: 0 <= i < |posts| && 0 <= j < |users|
          && posts[i].id as int == IntValue(postId).value && users[j].id == posts[i].userId
          && res == Ok(PostFound(PostView(posts[i], Some(users[j].email))))
    {
      var key := IntValue(postId);
      if key.None? || key.value < 0 {
        return Fail(PostNotFound);
      }
      var found := FindPost(posts, key.value as nat);
      if found.None? {
        return Fail(PostNotFound);
      }
      var post := posts[found.value];
      assert OwnerExists(users, post);
      var view := WithAuthor(users, post);
      var j :| 0 <= j < |users| && users[j].id == post.userId;
      assert view.author == Some(users[j].email) by {
        var k :| 0 <= k < |users| && users[k].id == post.userId && view.author.value == users[k].email;
        assert k == j;
      }
      res := Ok(PostFound(view));
    }

    /** `GET /posts?perpage=&page=`, no token needed. `count` is the size of the whole table;
        the rows are the page at `offset = (page - 1) * perpage`, each with its author. A
        negative offset or limit is refused by the database. */
    method ListPosts(query: ListQuery) returns (res: Response)
      requires Valid()
      ensures var paging := ListRules(query); var offset := Offset(paging);
        if offset < 0 || paging.perpage < 0 then res == Fail(ServerError)
        else res == Ok(PostPage(paging.perpage, paging.page, |posts|, Joined(users, Page(posts, offset, paging.perpage))))
      ensures res.payload.PostPage? ==> forall k :: 0 <= k < |res.payload.rows| ==> res.payload.rows[k].author.Some?
    {
      var paging := ListRules(query);
      var offset := Offset(paging);
      var count := |posts|;
      if offset < 0 || paging.perpage < 0 {
        return Fail(ServerError);
      }
      var rows := Page(posts, offset, paging.perpage);
      ListedRowsHaveAuthors(users, nextUserId, posts, nextPostId, offset, paging.perpage);
      res := Ok(PostPage(paging.perpage, paging.page, count, Joined(users, rows)));
    }
  }
}
