/** The `Post` table: an auto-incremented integer primary key `id`, non-null `title` and
    `content`, and a non-null `userId` that references `User.id`. The model's strings are
    never null, so `allowNull: false` holds by typing; the key and the reference are stated
    as invariants. Also here: the `findOne` / `update` / `destroy` queries the handlers
    issue, each filtered by a `where` clause. */
module PostEntity {
  import opened Wrappers
  import opened UserEntity

  datatype Post = Post(id: nat, title: string, content: string, userId: nat)

  /** The `updateData` object: the attributes to overwrite, absent ones left alone. */
  datatype UpdateData = UpdateData(title: Option<string>, content: Option<string>)

  ghost predicate KeysDistinct(posts: seq<Post>) {
    forall i, j :: 0 <= i < j < |posts| ==> posts[i].id != posts[j].id
  }

  /** The foreign key: some user row has the post's `userId` as its id. */
  ghost predicate OwnerExists(users: seq<User>, p: Post) {
    exists j :: 0 <= j < |users| && users[j].id == p.userId
  }

  /** The schema's constraints: distinct keys below the next auto-increment value, starting
      at 1, and every `userId` referencing a user. */
  ghost predicate PostsTable(posts: seq<Post>, nextId: nat, users: seq<User>) {
    && (forall i :: 0 <= i < |posts| ==> 1 <= posts[i].id < nextId)
    && KeysDistinct(posts)
    && (forall i :: 0 <= i < |posts| ==> OwnerExists(users, posts[i]))
  }

  /** Adding user rows keeps every reference valid. */
  lemma OwnersSurviveNewUser(posts: seq<Post>, nextId: nat, users: seq<User>, u: User)
    requires PostsTable(posts, nextId, users)
    ensures PostsTable(posts, nextId, users + [u])
  {
    forall i | 0 <= i < |posts| ensures OwnerExists(users + [u], posts[i]) {
      assert OwnerExists(users, posts[i]);
      var j :| 0 <= j < |users| && users[j].id == posts[i].userId;
      assert (users + [u])[j] == users[j];
    }
  }

  /** An insert that takes the next key and references an existing user keeps the schema's
      constraints, with the counter moved past the new key. */
  lemma InsertKeepsTable(posts: seq<Post>, nextId: nat, users: seq<User>, p: Post)
    requires PostsTable(posts, nextId, users)
    requires p.id == nextId && 1 <= nextId && OwnerExists(users, p)
    ensures PostsTable(posts + [p], nextId + 1, users)
  {
    var posts' := posts + [p];
    forall i | 0 <= i < |posts'| ensures 1 <= posts'[i].id < nextId + 1 && OwnerExists(users, posts'[i]) {
      if i < |posts| {
        assert posts'[i] == posts[i];
      }
    }
    forall i, j | 0 <= i < j < |posts'| ensures posts'[i].id != posts'[j].id {
      assert posts'[i] == posts[i];
    }
  }

  predicate Matches(p: Post, id: nat, userId: nat) {
    p.id == id && p.userId == userId
  }

  /** `Post.findOne({where: {id}})`: the position of the first row with that key. */
  function FindPost(posts: seq<Post>, id: nat): (r: Option<nat>)
    ensures r.Some? ==> r.value < |posts| && posts[r.value].id == id
    ensures r.None? ==> forall i :: 0 <= i < |posts| ==> posts[i].id != id
    decreases |posts|
  {
    if posts == [] then None
    else if posts[0].id == id then Some(0)
    else match FindPost(posts[1..], id)
      case None => None
      case Some(i) => Some(i + 1)
  }

  /** `Post.findOne({where: {id, userId}})`: the position of the first row with that key
      and that owner. */
  function FindOwned(posts: seq<Post>, id: nat, userId: nat): (r: Option<nat>)
    ensures r.Some? ==> r.value < |posts| && Matches(posts[r.value], id, userId)
    ensures r.Some? ==> forall i :: 0 <= i < r.value ==> !Matches(posts[i], id, userId)
    ensures r.None? ==> forall i :: 0 <= i < |posts| ==> !Matches(posts[i], id, userId)
    decreases |posts|
  {
    if posts == [] then None
    else if Matches(posts[0], id, userId) then Some(0)
    else match FindOwned(posts[1..], id, userId)
      case None => None
      case Some(i) => Some(i + 1)
  }

  /** The owner-scoped look-up finds nothing exactly when no post has the key or the post
      with the key belongs to someone else: the two cases cannot be told apart. */
  lemma ScopedLookupHidesOwner(posts: seq<Post>, id: nat, userId: nat)
    requires KeysDistinct(posts)
    ensures FindOwned(posts, id, userId).None? <==>
      (FindPost(posts, id).None? || posts[FindPost(posts, id).value].userId != userId)
    ensures FindOwned(posts, id, userId).Some? ==> FindOwned(posts, id, userId) == FindPost(posts, id)
  {
    var owned, any := FindOwned(posts, id, userId), FindPost(posts, id);
    if owned.Some? {
      assert any.Some?;
      assert any.value == owned.value;
    }
  }

  /** The values `Post.update(data, ...)` writes into one row. */
  function Apply(p: Post, data: UpdateData): (q: Post)
    ensures q.id == p.id && q.userId == p.userId
  {
    Post(p.id, data.title.GetOr(p.title), data.content.GetOr(p.content), p.userId)
  }

  /** `Post.update(data, {where: {id, userId}})`: every matching row is rewritten; keys and
      owners never change, and rows that do not match are left as they were. */
  function UpdateWhere(posts: seq<Post>, id: nat, userId: nat, data: UpdateData): (r: seq<Post>)
    ensures |r| == |posts|
    ensures forall i :: 0 <= i < |posts| ==> r[i].id == posts[i].id && r[i].userId == posts[i].userId
    ensures forall i :: 0 <= i < |posts| && !Matches(posts[i], id, userId) ==> r[i] == posts[i]
  {
    seq(|posts|, i requires 0 <= i < |posts| =>
      if Matches(posts[i], id, userId) then Apply(posts[i], data) else posts[i])
  }

  /** An update keeps the schema's constraints: it changes no key and no owner. */
  lemma UpdateKeepsTable(posts: seq<Post>, nextId: nat, users: seq<User>, id: nat, userId: nat, data: UpdateData)
    requires PostsTable(posts, nextId, users)
    ensures PostsTable(UpdateWhere(posts, id, userId, data), nextId, users)
  {
    var posts' := UpdateWhere(posts, id, userId, data);
    forall k | 0 <= k < |posts'| ensures OwnerExists(users, posts'[k]) {
      assert OwnerExists(users, posts[k]);
      var j :| 0 <= j < |users| && users[j].id == posts[k].userId;
      assert users[j].id == posts'[k].userId;
    }
  }

  /** `Post.destroy({where: {id, userId}})`: the rows that do not match, in order. */
  function DestroyWhere(posts: seq<Post>, id: nat, userId: nat): (r: seq<Post>)
    ensures |r| <= |posts|
    decreases |posts|
  {
    if posts == [] then []
    else
      var rest := DestroyWhere(posts[1..], id, userId);
      if Matches(posts[0], id, userId) then rest else [posts[0]] + rest
  }

  /** Every matching row is removed; every other row stays. */
  lemma {:induction false} DestroyWhereFilters(posts: seq<Post>, id: nat, userId: nat)
    ensures forall k :: 0 <= k < |DestroyWhere(posts, id, userId)| ==>
      DestroyWhere(posts, id, userId)[k] in posts && !Matches(DestroyWhere(posts, id, userId)[k], id, userId)
    ensures forall i :: 0 <= i < |posts| && !Matches(posts[i], id, userId) ==> posts[i] in DestroyWhere(posts, id, userId)
    decreases |posts|
  {
    if posts != [] {
      var tail := posts[1..];
      DestroyWhereFilters(tail, id, userId);
      var rest := DestroyWhere(tail, id, userId);
      assert forall k :: 0 <= k < |rest| ==> rest[k] in posts by {
        forall k | 0 <= k < |rest| ensures rest[k] in posts {
          var j :| 0 <= j < |tail| && tail[j] == rest[k];
          assert posts[j + 1] == rest[k];
        }
      }
      forall i | 0 <= i < |posts| && !Matches(posts[i], id, userId)
        ensures posts[i] in DestroyWhere(posts, id, userId)
      {
        if i > 0 {
          assert posts[i] == tail[i - 1];
        }
      }
    }
  }

  /** With distinct keys, the update rewrites exactly the row the look-up found. */
  lemma UpdateWhereRewritesOne(posts: seq<Post>, id: nat, userId: nat, data: UpdateData, i: nat)
    requires KeysDistinct(posts) && i < |posts| && Matches(posts[i], id, userId)
    ensures UpdateWhere(posts, id, userId, data) == posts[i := Apply(posts[i], data)]
  {
  }

  /** With distinct keys, reading the row back after the update finds it at the same
      place. */
  lemma RereadFindsUpdated(posts: seq<Post>, id: nat, userId: nat, data: UpdateData, i: nat)
    requires KeysDistinct(posts) && i < |posts| && Matches(posts[i], id, userId)
    ensures FindOwned(UpdateWhere(posts, id, userId, data), id, userId) == Some(i)
  {
    var updated := UpdateWhere(posts, id, userId, data);
    assert Matches(updated[i], id, userId);
    var found := FindOwned(updated, id, userId);
    assert posts[found.value].id == updated[found.value].id;
  }

  /** When the row at `i` is the only one that matches, the destroy removes exactly it. */
  lemma {:induction false} DestroyOnly(posts: seq<Post>, id: nat, userId: nat, i: nat)
    requires i < |posts| && Matches(posts[i], id, userId)
    requires forall j :: 0 <= j < |posts| && j != i ==> !Matches(posts[j], id, userId)
    ensures DestroyWhere(posts, id, userId) == posts[..i] + posts[i + 1..]
    decreases |posts|
  {
    var tail := posts[1..];
    if i == 0 {
      assert forall k :: 0 <= k < |tail| ==> !Matches(tail[k], id, userId) by {
        forall k | 0 <= k < |tail| ensures !Matches(tail[k], id, userId) {
          assert tail[k] == posts[k + 1];
        }
      }
      NothingToDestroy(tail, id, userId);
      assert posts[..0] + posts[1..] == tail;
    } else {
      assert forall j :: 0 <= j < |tail| && j != i - 1 ==> !Matches(tail[j], id, userId) by {
        forall j | 0 <= j < |tail| && j != i - 1 ensures !Matches(tail[j], id, userId) {
          assert tail[j] == posts[j + 1];
        }
      }
      DestroyOnly(tail, id, userId, i - 1);
      assert posts[..i] == [posts[0]] + tail[..i - 1];
      assert posts[i + 1..] == tail[i..];
    }
  }

  /** With distinct keys, the destroy removes exactly the row the look-up found. */
  lemma DestroyWhereRemovesOne(posts: seq<Post>, id: nat, userId: nat, i: nat)
    requires KeysDistinct(posts) && i < |posts| && Matches(posts[i], id, userId)
    ensures DestroyWhere(posts, id, userId) == posts[..i] + posts[i + 1..]
  {
    assert forall j :: 0 <= j < |posts| && j != i ==> posts[j].id != posts[i].id;
    DestroyOnly(posts, id, userId, i);
  }

  lemma {:induction false} NothingToDestroy(posts: seq<Post>, id: nat, userId: nat)
    requires forall k :: 0 <= k < |posts| ==> !Matches(posts[k], id, userId)
    ensures DestroyWhere(posts, id, userId) == posts
    decreases |posts|
  {
    if posts != [] {
      NothingToDestroy(posts[1..], id, userId);
    }
  }
}
