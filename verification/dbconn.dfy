/** `DBConn`: one leveldb key/value map holding two logical tables, the bcrypt
    credential of each user under `"user-" + name` and each user's ordered
    gyotaku id list under `"gyotaku-" + name`. Every call is one atomic step. */
module DbConn {
  import opened Base
  import opened Crypto

  /** A stored value. The gob byte format is abstracted: a list key holds the
      decoded list itself. */
  datatype Value = Cred(hash: Bytes) | Ids(gids: seq<Bytes>)

  type Db = map<Bytes, Value>

  /** Whether the leveldb calls made by one operation succeed. */
  datatype Io = Healthy | Failing

  datatype Error =
    | StoreError    // a leveldb call failed
    | NotFound      // leveldb's ErrNotFound from Get
    | DecodeError   // the stored bytes are not a gob-encoded []string
    | HashError     // bcrypt.GenerateFromPassword failed

  datatype Result<T> = Ok(value: T) | Fail(error: Error)

  const UserPrefix: Bytes := [117, 115, 101, 114, 45]                 // "user-"
  const ListPrefix: Bytes := [103, 121, 111, 116, 97, 107, 117, 45]   // "gyotaku-"

  function UserKey(username: Bytes): Bytes { UserPrefix + username }

  function ListKey(username: Bytes): Bytes { ListPrefix + username }

  /** `after` agrees with `before` on every key except `key`. */
  ghost predicate OnlyChanged(before: Db, after: Db, key: Bytes)
  {
    forall k :: k != key ==> (k in after <==> k in before) && (k in before ==> after[k] == before[k])
  }

  /** The list held for `username`; absent (or undecodable) reads as empty. */
  function StoredIds(db: Db, username: Bytes): seq<Bytes>
  {
    if ListKey(username) in db && db[ListKey(username)].Ids? then db[ListKey(username)].gids else []
  }

  /** Every credential key holds a hash and every list key holds a list. */
  ghost predicate WellTyped(db: Db)
  {
    forall username ::
      && (UserKey(username) in db ==> db[UserKey(username)].Cred?)
      && (ListKey(username) in db ==> db[ListKey(username)].Ids?)
  }

  // ---------------------------------------------------------------- operations

  /** `UserExists`: `Has("user-" + username)`. */
  function UserExists(db: Db, io: Io, username: Bytes): (r: Result<bool>)
    ensures r.Fail? <==> io.Failing?
    ensures r.Ok? ==> (r.value <==> UserKey(username) in db)
  {
    if io.Failing? then Fail(StoreError) else Ok(UserKey(username) in db)
  }

  /** `VerifyUser`: reads the hash from a snapshot and compares. A mismatch is
      `(false, nil)`; a missing user is leveldb's not-found error. */
  function VerifyUser(db: Db, p: Primitives, io: Io, username: Bytes, password: Bytes): (r: Result<bool>)
    ensures io.Failing? ==> r == Fail(StoreError)
    ensures io.Healthy? && UserKey(username) !in db ==> r == Fail(NotFound)
    ensures io.Healthy? && UserKey(username) in db ==> r.Ok?
    ensures (r.Ok? && r.value) <==>
      && io.Healthy?
      && UserKey(username) in db
      && db[UserKey(username)].Cred?
      && p.bcryptCompare(db[UserKey(username)].hash, password)
  {
    if io.Failing? then Fail(StoreError)
    else if UserKey(username) !in db then Fail(NotFound)
    else match db[UserKey(username)]
      case Cred(hash) => Ok(p.bcryptCompare(hash, password))
      // bcrypt cannot parse a gob-encoded list as a hash: a mismatch, not an error
      case Ids(_) => Ok(false)
  }

  /** `CreateUser`: hashes the password and writes the hash under the user's
      key in one transaction, overwriting any earlier credential. */
  function CreateUser(db: Db, p: Primitives, io: Io, username: Bytes, password: Bytes, salt: Bytes): (r: Result<Db>)
    ensures p.bcryptGenerate(password, salt).None? ==> r == Fail(HashError)
    ensures p.bcryptGenerate(password, salt).Some? && io.Failing? ==> r == Fail(StoreError)
    ensures r.Fail? <==> p.bcryptGenerate(password, salt).None? || io.Failing?
    ensures r.Ok? ==>
      && p.bcryptGenerate(password, salt).Some?
      && UserKey(username) in r.value
      && r.value[UserKey(username)] == Cred(p.bcryptGenerate(password, salt).value)
      && OnlyChanged(db, r.value, UserKey(username))
  {
    match p.bcryptGenerate(password, salt)
    case None => Fail(HashError)
    case Some(hash) =>
      if io.Failing? then Fail(StoreError) else Ok(db[UserKey(username) := Cred(hash)])
  }

  /** `GetGyotakuList`: an absent list is the empty list, not an error. */
  function GetGyotakuList(db: Db, io: Io, username: Bytes): (r: Result<seq<Bytes>>)
    ensures io.Failing? ==> r == Fail(StoreError)
    ensures io.Healthy? && ListKey(username) !in db ==> r == Ok([])
    ensures r.Ok? ==> r.value == StoredIds(db, username)
    ensures r.Fail? <==> io.Failing? || (ListKey(username) in db && db[ListKey(username)].Cred?)
    ensures (r.Fail? && r.error == DecodeError) <==> io.Healthy? && ListKey(username) in db && db[ListKey(username)].Cred?
  {
    if io.Failing? then Fail(StoreError)
    else if ListKey(username) !in db then Ok([])
    else match db[ListKey(username)]
      case Ids(gids) => Ok(gids)
      case Cred(_) => Fail(DecodeError)
  }

  /** `AddGyotakuList`: read-modify-write of the user's list in one
      transaction, appending `gid` at the end. */
  function AddGyotakuList(db: Db, io: Io, username: Bytes, gid: Bytes): (r: Result<Db>)
    ensures r.Fail? <==> io.Failing? || (ListKey(username) in db && db[ListKey(username)].Cred?)
    ensures r.Ok? ==>
      && ListKey(username) in r.value
      && r.value[ListKey(username)] == Ids(StoredIds(db, username) + [gid])
      && OnlyChanged(db, r.value, ListKey(username))
  {
    if io.Failing? then Fail(StoreError)
    else
      var current :=
        if ListKey(username) !in db then Ok([])
        else match db[ListKey(username)]
          case Ids(gids) => Ok(gids)
          case Cred(_) => Fail(DecodeError);
      match current
      case Fail(e) => Fail(e)
      case Ok(gids) => Ok(db[ListKey(username) := Ids(gids + [gid])])
  }

  // ------------------------------------------------------------------ lemmas

  /** The two tables never share a key: the prefixes differ in their first byte. */
  lemma KeyspacesDisjoint(a: Bytes, b: Bytes)
    ensures UserKey(a) != ListKey(b)
  {
    assert UserKey(a)[0] != ListKey(b)[0];
  }

  lemma UserKeyInjective(a: Bytes, b: Bytes)
    ensures UserKey(a) == UserKey(b) <==> a == b
  {
    if UserKey(a) == UserKey(b) {
      assert a == UserKey(a)[|UserPrefix|..];
    }
  }

  lemma ListKeyInjective(a: Bytes, b: Bytes)
    ensures ListKey(a) == ListKey(b) <==> a == b
  {
    if ListKey(a) == ListKey(b) {
      assert a == ListKey(a)[|ListPrefix|..];
    }
  }

  /** After a successful CreateUser exactly the new user and the earlier ones exist. */
  lemma CreateThenExists(db: Db, p: Primitives, io: Io, username: Bytes, password: Bytes, salt: Bytes, other: Bytes)
    requires CreateUser(db, p, io, username, password, salt).Ok?
    ensures UserExists(CreateUser(db, p, io, username, password, salt).value, Healthy, other)
      == Ok(other == username || UserKey(other) in db)
  {
    UserKeyInjective(other, username);
  }

  /** Under the idealised bcrypt, a created user verifies with exactly its password. */
  lemma CreateThenVerify(db: Db, p: Primitives, io: Io, username: Bytes, password: Bytes, salt: Bytes, candidate: Bytes)
    requires IdealBcrypt(p)
    requires CreateUser(db, p, io, username, password, salt).Ok?
    ensures VerifyUser(CreateUser(db, p, io, username, password, salt).value, p, Healthy, username, candidate)
      == Ok(candidate == password)
  {
    var hash := p.bcryptGenerate(password, salt).value;
    assert p.bcryptCompare(hash, candidate) <==> candidate == password;
  }

  /** Creating a user leaves every gyotaku list as it was. */
  lemma CreateKeepsLists(db: Db, p: Primitives, io: Io, username: Bytes, password: Bytes, salt: Bytes, other: Bytes, readIo: Io)
    requires CreateUser(db, p, io, username, password, salt).Ok?
    ensures GetGyotakuList(CreateUser(db, p, io, username, password, salt).value, readIo, other)
      == GetGyotakuList(db, readIo, other)
  {
    KeyspacesDisjoint(username, other);
  }

  /** Appending and reading back yields the earlier list followed by the new id. */
  lemma AddThenGet(db: Db, io: Io, username: Bytes, gid: Bytes)
    requires AddGyotakuList(db, io, username, gid).Ok?
    ensures GetGyotakuList(db, Healthy, username).Ok?
    ensures GetGyotakuList(AddGyotakuList(db, io, username, gid).value, Healthy, username)
      == Ok(GetGyotakuList(db, Healthy, username).value + [gid])
  {
  }

  /** An append touches no credential and no other user's list. */
  lemma AddKeepsOthers(db: Db, io: Io, username: Bytes, gid: Bytes, other: Bytes, password: Bytes, p: Primitives, readIo: Io)
    requires AddGyotakuList(db, io, username, gid).Ok?
    ensures var db' := AddGyotakuList(db, io, username, gid).value;
      && UserExists(db', readIo, other) == UserExists(db, readIo, other)
      && VerifyUser(db', p, readIo, other, password) == VerifyUser(db, p, readIo, other, password)
      && (other != username ==> GetGyotakuList(db', readIo, other) == GetGyotakuList(db, readIo, other))
  {
    KeyspacesDisjoint(other, username);
    ListKeyInjective(other, username);
  }

  /** Appending a, b and c to a user with no list reads back as exactly [a, b, c]. */
  lemma AppendThree(db: Db, username: Bytes, a: Bytes, b: Bytes, c: Bytes)
    requires ListKey(username) !in db
    ensures AddGyotakuList(db, Healthy, username, a).Ok?
    ensures var db1 := AddGyotakuList(db, Healthy, username, a).value;
      && AddGyotakuList(db1, Healthy, username, b).Ok?
      && var db2 := AddGyotakuList(db1, Healthy, username, b).value;
      && AddGyotakuList(db2, Healthy, username, c).Ok?
      && var db3 := AddGyotakuList(db2, Healthy, username, c).value;
      GetGyotakuList(db3, Healthy, username) == Ok([a, b, c])
  {
    var db1 := AddGyotakuList(db, Healthy, username, a).value;
    AddThenGet(db, Healthy, username, a);
    var db2 := AddGyotakuList(db1, Healthy, username, b).value;
    AddThenGet(db1, Healthy, username, b);
    var db3 := AddGyotakuList(db2, Healthy, username, c).value;
    AddThenGet(db2, Healthy, username, c);
    assert [] + [a] + [b] + [c] == [a, b, c];
  }

  /** Both writers keep the two tables well typed. */
  lemma CreatePreservesWellTyped(db: Db, p: Primitives, io: Io, username: Bytes, password: Bytes, salt: Bytes)
    requires WellTyped(db)
    requires CreateUser(db, p, io, username, password, salt).Ok?
    ensures WellTyped(CreateUser(db, p, io, username, password, salt).value)
  {
    var db' := CreateUser(db, p, io, username, password, salt).value;
    forall other: Bytes
      ensures UserKey(other) in db' ==> db'[UserKey(other)].Cred?
      ensures ListKey(other) in db' ==> db'[ListKey(other)].Ids?
    {
      KeyspacesDisjoint(username, other);
    }
  }

  lemma AddPreservesWellTyped(db: Db, io: Io, username: Bytes, gid: Bytes)
    requires WellTyped(db)
    requires AddGyotakuList(db, io, username, gid).Ok?
    ensures WellTyped(AddGyotakuList(db, io, username, gid).value)
  {
    var db' := AddGyotakuList(db, io, username, gid).value;
    forall other: Bytes
      ensures UserKey(other) in db' ==> db'[UserKey(other)].Cred?
      ensures ListKey(other) in db' ==> db'[ListKey(other)].Ids?
    {
      KeyspacesDisjoint(other, username);
    }
  }

  /** On a well-typed store the list operations fail only when leveldb does. */
  lemma WellTypedListsDecode(db: Db, io: Io, username: Bytes, gid: Bytes)
    requires WellTyped(db)
    ensures GetGyotakuList(db, io, username).Fail? <==> io.Failing?
    ensures AddGyotakuList(db, io, username, gid).Fail? <==> io.Failing?
  {
    assert ListKey(username) in db ==> db[ListKey(username)].Ids?;
  }
}
