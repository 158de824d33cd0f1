/** The decision logic of the HTTP handlers: login with auto-registration,
    gyotaku ingestion and the list endpoint, as pure transitions from
    (store, session) or (store, gyotaku directory) to a reply and new state. */
module Handler {
  import opened Base
  import opened Crypto
  import opened DbConn

  /** Minimum byte length of both the username and the password at login. */
  const MinCredentialLength := 8

  /** The cookie session: the `"username"` value, if one was saved. */
  datatype Session = Session(username: Option<Bytes>)

  /** What a handler answers. A Go error returned to echo becomes a 500. */
  datatype Reply =
    | AlreadyLoggedIn          // 200 "alreday logged in"
    | CredentialsTooShort      // 400
    | LoggedIn                 // 200 "success"
    | InvalidCredentials       // 400 "invalid username or password"
    | Taken                    // 409 "this gyotaku has already been taken"
    | Saved(gid: Bytes)        // 200 with the new id
    | Listing(gids: seq<Bytes>)// 200 with the user's id list
    | ServerError              // 500

  function StatusCode(r: Reply): int
  {
    match r
    case CredentialsTooShort => 400
    case InvalidCredentials => 400
    case Taken => 409
    case ServerError => 500
    case _ => 200
  }

  // ------------------------------------------------------------------ login

  datatype LoginStep = LoginStep(reply: Reply, db: Db, session: Session)

  /** `LoginHandler`. `probeIo` is the outcome of the UserExists call and
      `storeIo` that of the CreateUser or VerifyUser call that follows it;
      `salt` is bcrypt's random salt. */
  function Login(db: Db, session: Session, p: Primitives, username: Bytes, password: Bytes,
                 salt: Bytes, probeIo: Io, storeIo: Io): (o: LoginStep)
    ensures session.username.Some? ==> o == LoginStep(AlreadyLoggedIn, db, session)
    ensures o.reply == AlreadyLoggedIn <==> session.username.Some?
    ensures o.reply == CredentialsTooShort <==>
      session.username.None? && (|username| < MinCredentialLength || |password| < MinCredentialLength)
    ensures session.username.None? && (|username| < MinCredentialLength || |password| < MinCredentialLength)
      ==> o == LoginStep(CredentialsTooShort, db, session)
    ensures o.reply in {AlreadyLoggedIn, CredentialsTooShort, LoggedIn, InvalidCredentials, ServerError}
    ensures o.session != session <==> o.reply == LoggedIn
    ensures o.reply == LoggedIn ==>
      && o.session == Session(Some(username))
      && |username| >= MinCredentialLength && |password| >= MinCredentialLength
      && UserKey(username) in o.db
    ensures o.db != db ==>
      && o.reply == LoggedIn
      && UserKey(username) !in db
      && OnlyChanged(db, o.db, UserKey(username))
    ensures o.reply == LoggedIn && UserKey(username) in db ==>
      && o.db == db
      && db[UserKey(username)].Cred?
      && p.bcryptCompare(db[UserKey(username)].hash, password)
    ensures
      && session.username.None?
      && |username| >= MinCredentialLength && |password| >= MinCredentialLength
      && probeIo.Healthy? && storeIo.Healthy?
      && UserKey(username) in db && db[UserKey(username)].Cred?
      && p.bcryptCompare(db[UserKey(username)].hash, password)
      ==> o == LoginStep(LoggedIn, db, Session(Some(username)))
    ensures
      && session.username.None?
      && |username| >= MinCredentialLength && |password| >= MinCredentialLength
      && probeIo.Healthy? && storeIo.Healthy?
      && UserKey(username) !in db
      && p.bcryptGenerate(password, salt).Some?
      ==> && o.reply == LoggedIn
          && o.session == Session(Some(username))
          && o.db[UserKey(username)] == Cred(p.bcryptGenerate(password, salt).value)
    ensures o.reply == InvalidCredentials ==>
      && UserKey(username) in db
      && !(db[UserKey(username)].Cred? && p.bcryptCompare(db[UserKey(username)].hash, password))
    ensures
      && session.username.None?
      && |username| >= MinCredentialLength && |password| >= MinCredentialLength
      && probeIo.Healthy? && storeIo.Healthy?
      && UserKey(username) in db
      && !(db[UserKey(username)].Cred? && p.bcryptCompare(db[UserKey(username)].hash, password))
      ==> o == LoginStep(InvalidCredentials, db, session)
    ensures o.reply == ServerError <==>
      && session.username.None?
      && |username| >= MinCredentialLength && |password| >= MinCredentialLength
      && (probeIo.Failing? || storeIo.Failing? || (UserKey(username) !in db && p.bcryptGenerate(password, salt).None?))
    ensures StatusCode(o.reply) == 400 ==> o.db == db && o.session == session
  {
    if session.username.Some? then LoginStep(AlreadyLoggedIn, db, session)
    else if |username| < MinCredentialLength || |password| < MinCredentialLength then
      LoginStep(CredentialsTooShort, db, session)
    else match UserExists(db, probeIo, username)
      case Fail(_) => LoginStep(ServerError, db, session)
      case Ok(false) =>
        (match CreateUser(db, p, storeIo, username, password, salt)
         case Fail(_) => LoginStep(ServerError, db, session)
         case Ok(db') => LoginStep(LoggedIn, db', Session(Some(username))))
      case Ok(true) =>
        (match VerifyUser(db, p, storeIo, username, password)
         case Fail(_) => LoginStep(ServerError, db, session)
         case Ok(false) => LoginStep(InvalidCredentials, db, session)
         case Ok(true) => LoginStep(LoggedIn, db, Session(Some(username))))
  }

  // -------------------------------------------------------------- ingestion

  /** `GyotakuData`, the record saved for a gyotaku. */
  datatype GyotakuData = GyotakuData(url: Bytes, data: Bytes, userName: Bytes)

  /** A file in the gyotaku directory: a whole gob-encoded record, or what a
      failed `ioutil.WriteFile` left behind after creating the file. */
  datatype File = Record(record: GyotakuData) | Truncated

  /** The gyotaku directory, keyed by file name. */
  type Dir = map<Bytes, File>

  datatype State = State(db: Db, dir: Dir)

  /** The outcome of `http.Get(url)` followed by reading the whole body. */
  datatype Fetch = Body(bytes: Bytes) | GetFailed | ReadFailed

  /** The outcome of `ioutil.WriteFile`: done, failed before the file was
      created, or failed after creating it (a write or the close). */
  datatype FileWrite = Written | OpenFailed | WriteFailed

  datatype IngestStep = IngestStep(reply: Reply, state: State)

  /** No existing file changes, and the only file that may appear is `gid`. */
  ghost predicate DirGrowsBy(before: Dir, after: Dir, gid: Bytes)
  {
    && (forall k :: k in before ==> k in after && after[k] == before[k])
    && (forall k :: k in after && k !in before ==> k == gid)
  }

  /** `GyotakuHandler` for the logged-in `username`. `statFails` says that
      `os.Stat` on an absent file reports an error other than not-exist. */
  function Ingest(st: State, p: Primitives, username: Bytes, url: Bytes,
                  statFails: bool, fetch: Fetch, write: FileWrite, listIo: Io): (o: IngestStep)
    ensures GyotakuId(p, url) in st.dir || statFails ==> o == IngestStep(Taken, st)
    ensures o.reply == Taken <==> GyotakuId(p, url) in st.dir || statFails
    ensures GyotakuId(p, url) !in st.dir && !statFails && !fetch.Body? ==> o == IngestStep(ServerError, st)
    ensures o.reply.Saved? <==>
      && GyotakuId(p, url) !in st.dir && !statFails
      && fetch.Body? && write == Written
      && AddGyotakuList(st.db, listIo, username, GyotakuId(p, url)).Ok?
    ensures GyotakuId(p, url) !in st.dir && !statFails && fetch.Body? && write == WriteFailed ==>
      && o.reply == ServerError
      && o.state.db == st.db
      && GyotakuId(p, url) in o.state.dir
      && o.state.dir[GyotakuId(p, url)] == Truncated
    ensures o.reply in {Taken, ServerError, Saved(GyotakuId(p, url))}
    ensures !fetch.Body? ==> o.state == st
    ensures DirGrowsBy(st.dir, o.state.dir, GyotakuId(p, url))
    ensures o.state.db != st.db ==> o.reply.Saved?
    ensures o.reply.Saved? ==>
      && GyotakuId(p, url) !in st.dir
      && fetch.Body?
      && GyotakuId(p, url) in o.state.dir
      && o.state.dir[GyotakuId(p, url)] == Record(GyotakuData(url, fetch.bytes, username))
      && AddGyotakuList(st.db, listIo, username, GyotakuId(p, url)) == Ok(o.state.db)
    ensures GyotakuId(p, url) !in st.dir && !statFails && fetch.Body? && write == Written ==>
      o.state.dir == st.dir[GyotakuId(p, url) := Record(GyotakuData(url, fetch.bytes, username))]
    ensures write == OpenFailed ==> o.state == st
  {
    var gid := GyotakuId(p, url);
    if gid in st.dir || statFails then IngestStep(Taken, st)
    else match fetch
      case GetFailed => IngestStep(ServerError, st)
      case ReadFailed => IngestStep(ServerError, st)
      case Body(body) =>
        match write
        case OpenFailed => IngestStep(ServerError, st)
        case WriteFailed => IngestStep(ServerError, State(st.db, st.dir[gid := Truncated]))
        case Written =>
          var dir' := st.dir[gid := Record(GyotakuData(url, body, username))];
          match AddGyotakuList(st.db, listIo, username, gid)
          case Fail(_) => IngestStep(ServerError, State(st.db, dir'))
          case Ok(db') => IngestStep(Saved(gid), State(db', dir'))
  }

  // ------------------------------------------------------------------- list

  /** `GyotakuListHandler` for the logged-in `username`. */
  function ListGyotaku(db: Db, io: Io, username: Bytes): (r: Reply)
    ensures r.Listing? <==> GetGyotakuList(db, io, username).Ok?
    ensures r.Listing? ==> r.gids == StoredIds(db, username)
    ensures !r.Listing? ==> r == ServerError
  {
    match GetGyotakuList(db, io, username)
    case Ok(gids) => Listing(gids)
    case Fail(_) => ServerError
  }
}
