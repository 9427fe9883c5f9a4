/**
 * The user collection: records keyed by lower-case email, and the two
 * queries the authentication code makes of it (`findOne` by email and
 * `findById` with the password field deselected).
 */
module Users {
  import opened Wrappers
  import Text
  import opened Crypto

  datatype Role = UserRole | AdminRole

  /** The role as the string stored and compared in the code. */
  function RoleName(r: Role): string
  {
    match r
    case UserRole => "user"
    case AdminRole => "admin"
  }

  /** A stored user document. */
  datatype User = User(id: UserId, name: string, email: string, password: PasswordHash, role: Role)

  /** A user as it may leave the store: every field except the password hash. */
  datatype PublicUser = PublicUser(id: UserId, name: string, email: string, role: Role)

  /** `.select("-password")`. */
  function WithoutPassword(u: User): (p: PublicUser)
    ensures p.id == u.id && p.name == u.name && p.email == u.email && p.role == u.role
  {
    PublicUser(u.id, u.name, u.email, u.role)
  }

  /** The collection, keyed by the lower-case email of each record. */
  type Collection = map<string, User>

  /** Each record sits under its own email, which is lower-case. */
  ghost predicate WellKeyed(users: Collection)
  {
    forall e :: e in users ==> users[e].email == e && Text.Lower(e) == e
  }

  /** No two records share an id. */
  ghost predicate UniqueIds(users: Collection)
  {
    forall e1, e2 :: e1 in users && e2 in users && users[e1].id == users[e2].id ==> e1 == e2
  }

  /** `User.findOne({ email })` on an already lowered email. */
  function FindByEmail(users: Collection, email: string): (r: Option<User>)
    ensures r.Some? <==> email in users
    ensures r.Some? ==> r.value == users[email]
  {
    if email in users then Some(users[email]) else None
  }

  /** `User.findById(id)`: the one record with that id, if any. */
  function FindById(users: Collection, id: UserId): (r: Option<User>)
    requires UniqueIds(users)
    ensures r.Some? <==> exists e :: e in users && users[e].id == id
    ensures r.Some? ==> r.value.id == id && r.value in users.Values
  {
    if exists e :: e in users && users[e].id == id then
      var e :| e in users && users[e].id == id;
      Some(users[e])
    else
      None
  }

  /** A record found by id is the record stored under its key. */
  lemma FindByIdStored(users: Collection, e: string)
    requires UniqueIds(users)
    requires e in users
    ensures FindById(users, users[e].id) == Some(users[e])
  {
  }
}
