/** The `User` table: an auto-incremented integer primary key `id`, a required `email`, and
    `password`, which holds a bcrypt hash. A `beforeCreate` hook hashes the password before
    the row is stored, and the default scope leaves `password` out of every read. */
module UserEntity {
  import opened Wrappers
  import Bcrypt

  /** A stored row. */
  datatype User = User(id: nat, email: string, password: Bcrypt.BcryptHash)

  /** A row as the default scope reads it: no `password` attribute. */
  datatype UserView = UserView(id: nat, email: string)

  /** `User.create({email, password})` with the `beforeCreate` hook: the plain password is
      replaced by `bcrypt.hash(password, 10)` before the row with the next key is stored. */
  function Create(id: nat, email: string, password: string, salt: string): (u: User)
    ensures u.id == id && u.email == email
    ensures u.password.cost == Bcrypt.SaltRounds
    ensures Bcrypt.Compare(password, u.password)
  {
    User(id, email, Bcrypt.Hash(password, salt))
  }

  /** The default scope `attributes: {exclude: ["password"]}`. */
  function DefaultScope(u: User): (v: UserView)
    ensures v.id == u.id && v.email == u.email
  {
    UserView(u.id, u.email)
  }

  /** Two rows read the same under the default scope exactly when they agree on `id` and
      `email`: the read keeps both and cannot depend on the stored hash. */
  lemma ReadHidesOnlyPassword(u1: User, u2: User)
    ensures DefaultScope(u1) == DefaultScope(u2) <==> u1.id == u2.id && u1.email == u2.email
  {
  }

  /** What the schema itself enforces: primary keys are distinct, and auto-increment has
      handed out every key below `nextId`, starting at 1. */
  ghost predicate UsersTable(users: seq<User>, nextId: nat) {
    && (forall i :: 0 <= i < |users| ==> 1 <= users[i].id < nextId)
    && (forall i, j :: 0 <= i < j < |users| ==> users[i].id != users[j].id)
  }

  /** No two rows share an email. The schema declares no unique constraint on `email`;
      only the signup handler's look-up before `User.create` keeps this true. */
  ghost predicate EmailsDistinct(users: seq<User>) {
    forall i, j :: 0 <= i < j < |users| ==> users[i].email != users[j].email
  }

  /** The schema alone admits two rows with the same email. */
  lemma SchemaAllowsDuplicateEmails(email: string, hash: Bcrypt.BcryptHash)
    ensures exists users: seq<User> :: UsersTable(users, 3) && !EmailsDistinct(users)
  {
    var users := [User(1, email, hash), User(2, email, hash)];
    assert UsersTable(users, 3) && users[0].email == users[1].email;
  }

  /** `User.findOne({where: {email}})`: the first row with that email. */
  function FindByEmail(users: seq<User>, email: string): (r: Option<User>)
    ensures r.Some? ==> r.value in users && r.value.email == email
    ensures r.None? ==> forall i :: 0 <= i < |users| ==> users[i].email != email
    decreases |users|
  {
    if users == [] then None
    else if users[0].email == email then Some(users[0])
    else FindByEmail(users[1..], email)
  }

  /** The row with that primary key (the join `include: {model: User}` and the foreign-key
      check go by it). */
  function FindById(users: seq<User>, id: nat): (r: Option<User>)
    ensures r.Some? ==> r.value in users && r.value.id == id
    ensures r.None? ==> forall i :: 0 <= i < |users| ==> users[i].id != id
    decreases |users|
  {
    if users == [] then None
    else if users[0].id == id then Some(users[0])
    else FindById(users[1..], id)
  }

  /** When emails are distinct, looking up a row's email finds that row. */
  lemma {:induction false} FindByEmailFindsRow(users: seq<User>, i: nat)
    requires EmailsDistinct(users) && i < |users|
    ensures FindByEmail(users, users[i].email) == Some(users[i])
    decreases |users|
  {
    if i > 0 {
      assert users[0].email != users[i].email;
      var tail := users[1..];
      assert EmailsDistinct(tail) by {
        forall a, b | 0 <= a < b < |tail| ensures tail[a].email != tail[b].email {
          assert tail[a] == users[a + 1] && tail[b] == users[b + 1];
        }
      }
      FindByEmailFindsRow(tail, i - 1);
    }
  }
}
