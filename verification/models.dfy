/** The `users` table: the User record, its password and one-time access-token
    helpers, and the queries the routes run against the table. */
module Models {
  import opened Wrappers

  /** A stored hash. Werkzeug's salted hash is modelled by an injective stand-in:
      checking a candidate against the hash of a secret succeeds exactly when the
      candidate is the secret, which is all the application relies on. */
  datatype Hash = Digest(preimage: string)

  /** `generate_password_hash`. */
  function GeneratePasswordHash(secret: string): Hash {
    Digest(secret)
  }

  /** `check_password_hash(h, candidate)`. */
  predicate CheckPasswordHash(h: Hash, candidate: string) {
    h == GeneratePasswordHash(candidate)
  }

  const ADMIN := "admin"
  const ANGGOTA := "anggota"

  /** Lifetime, in seconds, of an access token when none is given. */
  const DEFAULT_TOKEN_LIFETIME: nat := 300

  /** One row of `users`. Time is a count of seconds; `None` is a NULL column.
      The `created_at`/`updated_at` timestamps are not modelled. */
  datatype User = User(
    id: nat,
    username: string,
    passwordHash: Hash,
    namaLengkap: string,
    namaLapangan: string,
    nia: string,
    jenjangKeanggotaan: string,
    role: string,
    isActive: bool,
    accessTokenHash: Option<Hash>,
    accessTokenExpiration: Option<nat>,
    accessTokenUsed: bool)

  /** `User.check_password`. */
  predicate CheckPassword(u: User, candidate: string) {
    CheckPasswordHash(u.passwordHash, candidate)
  }

  /** `User.set_password`: afterwards exactly `password` checks, and nothing but
      the hash changed. */
  function SetPassword(u: User, password: string): (u': User)
    ensures forall q :: CheckPassword(u', q) <==> q == password
    ensures u'.(passwordHash := u.passwordHash) == u
  {
    u.(passwordHash := GeneratePasswordHash(password))
  }

  /** `User.set_access_token(token, expires_in_seconds)` at time `now`. */
  function SetAccessToken(u: User, token: string, now: nat, expiresIn: nat): (u': User)
    ensures u'.accessTokenExpiration == Some(now + expiresIn)
    ensures !u'.accessTokenUsed
    ensures forall t :: CheckAccessToken(u', t) <==> t == token
    ensures u'.(accessTokenHash := u.accessTokenHash,
                accessTokenExpiration := u.accessTokenExpiration,
                accessTokenUsed := u.accessTokenUsed) == u
  {
    u.(accessTokenHash := Some(GeneratePasswordHash(token)),
       accessTokenExpiration := Some(now + expiresIn),
       accessTokenUsed := false)
  }

  /** `User.check_access_token`: false without a stored hash, otherwise true
      exactly for the code whose hash is stored. */
  function CheckAccessToken(u: User, token: string): (r: bool)
    ensures u.accessTokenHash.None? ==> !r
    ensures r <==> u.accessTokenHash == Some(GeneratePasswordHash(token))
  {
    match u.accessTokenHash
    case None => false
    case Some(h) => CheckPasswordHash(h, token)
  }

  /** A user created through `User(...)` plus `set_password`, with the column
      defaults: member role, inactive, no token, token not used. */
  function NewMember(id: nat, username: string, password: string, namaLengkap: string,
                     namaLapangan: string, nia: string, jenjang: string): (u: User)
    ensures u.id == id && u.username == username && u.nia == nia
    ensures u.namaLengkap == namaLengkap && u.namaLapangan == namaLapangan
    ensures u.jenjangKeanggotaan == jenjang
    ensures u.role == ANGGOTA && !u.isActive
    ensures u.accessTokenHash.None? && u.accessTokenExpiration.None? && !u.accessTokenUsed
    ensures forall q :: CheckPassword(u, q) <==> q == password
  {
    var blank := User(id, username, Digest([]), namaLengkap, namaLapangan, nia, jenjang,
                      ANGGOTA, false, None, None, false);
    SetPassword(blank, password)
  }

  /** The table in row order; `first()` returns the earliest matching row. */
  type Users = seq<User>

  /** The `primary_key` on `id` and the `unique` constraints on `username` and `nia`. */
  predicate UniqueIdentity(users: Users) {
    forall i, j :: 0 <= i < j < |users| ==>
      && users[i].id != users[j].id
      && users[i].username != users[j].username
      && users[i].nia != users[j].nia
  }

  /** The position of the first row satisfying `p`. */
  function FirstMatch(users: Users, p: User -> bool): (r: Option<nat>)
    ensures r.Some? ==> r.value < |users| && p(users[r.value])
    ensures r.Some? ==> forall j :: 0 <= j < r.value ==> !p(users[j])
    ensures r.None? ==> forall j :: 0 <= j < |users| ==> !p(users[j])
    decreases |users|
  {
    if |users| == 0 then None
    else if p(users[0]) then Some(0)
    else match FirstMatch(users[1..], p)
      case None => None
      case Some(k) => Some(k + 1)
  }

  /** `User.query.filter(...).first()`. */
  function FindUser(users: Users, p: User -> bool): (r: Option<User>)
    ensures r.Some? ==> r.value in users && p(r.value)
    ensures r.None? ==> forall u :: u in users ==> !p(u)
  {
    match FirstMatch(users, p)
    case None => None
    case Some(i) => Some(users[i])
  }

  /** The primary-key filter of `User.query.get(id)`. */
  function HasId(id: nat): User -> bool {
    (u: User) => u.id == id
  }

  /** `User.query.get(id)`. */
  function GetById(users: Users, id: nat): (r: Option<User>)
    ensures r.Some? ==> r.value in users && r.value.id == id
    ensures r.None? ==> forall u :: u in users ==> u.id != id
  {
    FindUser(users, HasId(id))
  }

  /** Committing a changed row: every row carrying `u.id` becomes `u`. */
  function UpdateUser(users: Users, u: User): (r: Users)
    ensures |r| == |users|
    ensures forall i :: 0 <= i < |users| ==> r[i] == (if users[i].id == u.id then u else users[i])
  {
    seq(|users|, i requires 0 <= i < |users| => if users[i].id == u.id then u else users[i])
  }

  /** Two tables whose rows satisfy two predicates at the same positions have
      their first matches at the same position. */
  lemma FirstMatchSamePositions(a: Users, p: User -> bool, b: Users, q: User -> bool)
    requires |a| == |b|
    requires forall i :: 0 <= i < |a| ==> (p(a[i]) <==> q(b[i]))
    ensures FirstMatch(a, p) == FirstMatch(b, q)
  {
    var ra, rb := FirstMatch(a, p), FirstMatch(b, q);
    assert ra.Some? ==> q(b[ra.value]);
    assert rb.Some? ==> p(a[rb.value]);
  }

  /** After an update, looking up the updated id yields the new row and every
      other id yields what it yielded before. */
  lemma GetByIdAfterUpdate(users: Users, u: User, id: nat)
    ensures GetById(UpdateUser(users, u), id) ==
      if id == u.id && GetById(users, id).Some? then Some(u) else GetById(users, id)
  {
    var r := UpdateUser(users, u);
    FirstMatchSamePositions(users, HasId(id), r, HasId(id));
  }

  /** Replacing a row by one with the same id, username and nia keeps the keys unique. */
  lemma UpdateKeepsUnique(users: Users, u: User)
    requires UniqueIdentity(users)
    requires forall v :: v in users && v.id == u.id ==> v.username == u.username && v.nia == u.nia
    ensures UniqueIdentity(UpdateUser(users, u))
  {
    var r := UpdateUser(users, u);
    forall i, j | 0 <= i < j < |r|
      ensures r[i].id != r[j].id && r[i].username != r[j].username && r[i].nia != r[j].nia
    {
      assert users[i] in users && users[j] in users;
    }
  }

  /** An id above every id in the table, the next auto-increment value. */
  function NextId(users: Users): (r: nat)
    ensures r > 0
    ensures forall u :: u in users ==> u.id < r
    decreases |users|
  {
    if |users| == 0 then 1
    else
      var rest := NextId(users[1..]);
      assert forall u :: u in users ==> u == users[0] || u in users[1..];
      if users[0].id + 1 > rest then users[0].id + 1 else rest
  }

  /** Appending a row whose keys are all new keeps the keys unique. */
  lemma AppendKeepsUnique(users: Users, u: User)
    requires UniqueIdentity(users)
    requires forall v :: v in users ==> v.id != u.id && v.username != u.username && v.nia != u.nia
    ensures UniqueIdentity(users + [u])
  {
    var r := users + [u];
    forall i, j | 0 <= i < j < |r|
      ensures r[i].id != r[j].id && r[i].username != r[j].username && r[i].nia != r[j].nia
    {
      if j == |users| {
        assert r[i] in users;
      }
    }
  }
}
