/** Properties of the handlers over several requests: registration then login,
    duplicate ingestion, the list/file link invariant and its failure window. */
module HandlerProperties {
  import opened Base
  import opened Crypto
  import opened DbConn
  import opened Handler

  /** `username` owns the saved record named `gid`. */
  ghost predicate Owns(dir: Dir, gid: Bytes, username: Bytes)
  {
    gid in dir && dir[gid].Record? && dir[gid].record.userName == username
  }

  /** Every id in a user's list names a saved record of that user. */
  ghost predicate Linked(st: State)
  {
    forall username, i :: 0 <= i < |StoredIds(st.db, username)| ==>
      Owns(st.dir, StoredIds(st.db, username)[i], username)
  }

  // ------------------------------------------------------------------ login

  /** A never-seen username with long enough credentials is registered and
      logged in; afterwards it exists and (ideally) verifies with its password. */
  lemma LoginRegistersNewUser(db: Db, p: Primitives, username: Bytes, password: Bytes, salt: Bytes, candidate: Bytes)
    requires |username| >= MinCredentialLength && |password| >= MinCredentialLength
    requires UserKey(username) !in db
    requires p.bcryptGenerate(password, salt).Some?
    requires IdealBcrypt(p)
    ensures var o := Login(db, Session(None), p, username, password, salt, Healthy, Healthy);
      && o.reply == LoggedIn
      && o.session == Session(Some(username))
      && UserExists(o.db, Healthy, username) == Ok(true)
      && VerifyUser(o.db, p, Healthy, username, candidate) == Ok(candidate == password)
  {
    CreateThenVerify(db, p, Healthy, username, password, salt, candidate);
  }

  /** An existing user presenting a password its stored hash rejects gets a
      400, and neither the store nor the session changes. */
  lemma LoginRejectsWrongPassword(db: Db, session: Session, p: Primitives, username: Bytes, password: Bytes,
                                  salt: Bytes, probeIo: Io, storeIo: Io)
    requires session.username.None?
    requires |username| >= MinCredentialLength && |password| >= MinCredentialLength
    requires UserKey(username) in db && db[UserKey(username)].Cred?
    requires !p.bcryptCompare(db[UserKey(username)].hash, password)
    requires probeIo.Healthy? && storeIo.Healthy?
    ensures Login(db, session, p, username, password, salt, probeIo, storeIo)
      == LoginStep(InvalidCredentials, db, session)
  {
    assert VerifyUser(db, p, storeIo, username, password) == Ok(false);
  }

  /** Registration followed, in fresh sessions, by a login with the same
      password (accepted, store unchanged) and with any other (rejected). */
  lemma RegisterThenLogin(db: Db, p: Primitives, username: Bytes, password: Bytes, salt: Bytes,
                          other: Bytes, salt2: Bytes)
    requires IdealBcrypt(p)
    requires |username| >= MinCredentialLength && |password| >= MinCredentialLength
    requires |other| >= MinCredentialLength && other != password
    requires UserKey(username) !in db
    requires p.bcryptGenerate(password, salt).Some?
    ensures var first := Login(db, Session(None), p, username, password, salt, Healthy, Healthy);
      && first.reply == LoggedIn
      && Login(first.db, Session(None), p, username, password, salt2, Healthy, Healthy)
         == LoginStep(LoggedIn, first.db, Session(Some(username)))
      && Login(first.db, Session(None), p, username, other, salt2, Healthy, Healthy)
         == LoginStep(InvalidCredentials, first.db, Session(None))
  {
    var db1 := CreateUser(db, p, Healthy, username, password, salt).value;
    CreateThenVerify(db, p, Healthy, username, password, salt, password);
    CreateThenVerify(db, p, Healthy, username, password, salt, other);
  }

  /** Login never changes a gyotaku list. */
  lemma LoginKeepsLists(db: Db, session: Session, p: Primitives, username: Bytes, password: Bytes,
                        salt: Bytes, probeIo: Io, storeIo: Io, other: Bytes)
    ensures StoredIds(Login(db, session, p, username, password, salt, probeIo, storeIo).db, other)
      == StoredIds(db, other)
  {
    KeyspacesDisjoint(username, other);
  }

  // -------------------------------------------------------------- ingestion

  /** When the id is taken (or the probe fails) nothing is fetched: the
      outcome does not depend on the fetch, the file write or the append. */
  lemma IngestConflictFetchesNothing(st: State, p: Primitives, username: Bytes, url: Bytes, statFails: bool,
                                     fetch1: Fetch, write1: FileWrite, listIo1: Io,
                                     fetch2: Fetch, write2: FileWrite, listIo2: Io)
    requires GyotakuId(p, url) in st.dir || statFails
    ensures Ingest(st, p, username, url, statFails, fetch1, write1, listIo1)
      == Ingest(st, p, username, url, statFails, fetch2, write2, listIo2)
  {
  }

  /** A successful ingestion appends the id to the user's list and touches no
      credential and no other list. */
  lemma IngestSuccessAppends(st: State, p: Primitives, username: Bytes, url: Bytes, statFails: bool,
                             fetch: Fetch, write: FileWrite, listIo: Io, other: Bytes, password: Bytes)
    requires Ingest(st, p, username, url, statFails, fetch, write, listIo).reply.Saved?
    ensures var o := Ingest(st, p, username, url, statFails, fetch, write, listIo);
      && o.reply.gid == GyotakuId(p, url)
      && GetGyotakuList(o.state.db, Healthy, username) == Ok(StoredIds(st.db, username) + [o.reply.gid])
      && ListGyotaku(o.state.db, Healthy, username) == Listing(StoredIds(st.db, username) + [o.reply.gid])
      && (other != username ==> StoredIds(o.state.db, other) == StoredIds(st.db, other))
      && UserExists(o.state.db, Healthy, other) == UserExists(st.db, Healthy, other)
      && VerifyUser(o.state.db, p, Healthy, other, password) == VerifyUser(st.db, p, Healthy, other, password)
  {
    var gid := GyotakuId(p, url);
    AddThenGet(st.db, listIo, username, gid);
    AddKeepsOthers(st.db, listIo, username, gid, other, password, p, Healthy);
    ListKeyInjective(other, username);
  }

  /** The same URL ingested twice, by any users: the second attempt is a
      conflict and changes nothing, whatever its fetch would have returned. */
  lemma IngestTwice(st: State, p: Primitives, user1: Bytes, user2: Bytes, url: Bytes,
                    stat1: bool, fetch1: Fetch, write1: FileWrite, io1: Io,
                    stat2: bool, fetch2: Fetch, write2: FileWrite, io2: Io)
    requires Ingest(st, p, user1, url, stat1, fetch1, write1, io1).reply.Saved?
    ensures var first := Ingest(st, p, user1, url, stat1, fetch1, write1, io1);
      Ingest(first.state, p, user2, url, stat2, fetch2, write2, io2) == IngestStep(Taken, first.state)
  {
  }

  /** Two URLs with the same digest share an id: the second is refused even
      though its URL differs. */
  lemma IngestCollidingUrl(st: State, p: Primitives, user1: Bytes, user2: Bytes, url1: Bytes, url2: Bytes,
                           stat1: bool, fetch1: Fetch, write1: FileWrite, io1: Io,
                           stat2: bool, fetch2: Fetch, write2: FileWrite, io2: Io)
    requires p.sha256(url1) == p.sha256(url2)
    requires Ingest(st, p, user1, url1, stat1, fetch1, write1, io1).reply.Saved?
    ensures var first := Ingest(st, p, user1, url1, stat1, fetch1, write1, io1);
      Ingest(first.state, p, user2, url2, stat2, fetch2, write2, io2) == IngestStep(Taken, first.state)
  {
    GyotakuIdCollision(p, url1, url2);
  }

  /** A write that fails after creating the file leaves a truncated file under
      the id, so every later ingestion of that URL is refused. */
  lemma FailedWriteBlocksUrl(st: State, p: Primitives, user1: Bytes, user2: Bytes, url: Bytes,
                             body: Bytes, io1: Io,
                             stat2: bool, fetch2: Fetch, write2: FileWrite, io2: Io)
    requires GyotakuId(p, url) !in st.dir
    ensures var first := Ingest(st, p, user1, url, false, Body(body), WriteFailed, io1);
      && first.reply == ServerError
      && first.state.dir[GyotakuId(p, url)] == Truncated
      && Ingest(first.state, p, user2, url, stat2, fetch2, write2, io2) == IngestStep(Taken, first.state)
  {
  }

  /** Every ingestion outcome keeps each listed id linked to its owner's record. */
  lemma IngestPreservesLinked(st: State, p: Primitives, username: Bytes, url: Bytes, statFails: bool,
                              fetch: Fetch, write: FileWrite, listIo: Io)
    requires Linked(st)
    ensures Linked(Ingest(st, p, username, url, statFails, fetch, write, listIo).state)
  {
    var o := Ingest(st, p, username, url, statFails, fetch, write, listIo);
    var gid := GyotakuId(p, url);
    forall v, i | 0 <= i < |StoredIds(o.state.db, v)|
      ensures Owns(o.state.dir, StoredIds(o.state.db, v)[i], v)
    {
      if o.reply.Saved? && v == username {
        var before := StoredIds(st.db, username);
        assert StoredIds(o.state.db, v) == before + [gid];
        if i < |before| {
          assert Owns(st.dir, before[i], v);
        }
      } else {
        if o.reply.Saved? {
          ListKeyInjective(v, username);
        }
        assert StoredIds(o.state.db, v) == StoredIds(st.db, v);
        assert Owns(st.dir, StoredIds(st.db, v)[i], v);
      }
    }
  }

  /** Logging in keeps every listed id linked to its owner's record. */
  lemma LoginPreservesLinked(st: State, session: Session, p: Primitives, username: Bytes, password: Bytes,
                             salt: Bytes, probeIo: Io, storeIo: Io)
    requires Linked(st)
    ensures Linked(State(Login(st.db, session, p, username, password, salt, probeIo, storeIo).db, st.dir))
  {
    var db' := Login(st.db, session, p, username, password, salt, probeIo, storeIo).db;
    forall v, i | 0 <= i < |StoredIds(db', v)|
      ensures Owns(st.dir, StoredIds(db', v)[i], v)
    {
      LoginKeepsLists(st.db, session, p, username, password, salt, probeIo, storeIo, v);
      assert Owns(st.dir, StoredIds(st.db, v)[i], v);
    }
  }

  /** The accepted inconsistency: the record is written, the append fails, and
      the new id is in no list although the user owns its record. */
  lemma OrphanedRecord(st: State, p: Primitives, username: Bytes, url: Bytes, body: Bytes)
    requires Linked(st)
    requires GyotakuId(p, url) !in st.dir
    ensures var o := Ingest(st, p, username, url, false, Body(body), Written, Failing);
      && o.reply == ServerError
      && o.state.db == st.db
      && Owns(o.state.dir, GyotakuId(p, url), username)
      && GyotakuId(p, url) !in StoredIds(o.state.db, username)
  {
    var gid := GyotakuId(p, url);
    var ids := StoredIds(st.db, username);
    forall i | 0 <= i < |ids|
      ensures ids[i] != gid
    {
      assert Owns(st.dir, ids[i], username);
    }
  }

  /** The end-to-end story: a user with no list ingests a new URL and lists
      exactly its 64-digit id; another user ingesting the same URL is refused
      and still has an empty list. */
  lemma IngestThenOtherUser(st: State, p: Primitives, alice: Bytes, bob: Bytes, url: Bytes, body: Bytes,
                            stat2: bool, fetch2: Fetch, write2: FileWrite, io2: Io)
    requires alice != bob
    requires ListKey(alice) !in st.db && ListKey(bob) !in st.db
    requires GyotakuId(p, url) !in st.dir
    ensures var first := Ingest(st, p, alice, url, false, Body(body), Written, Healthy);
      && first.reply.Saved?
      && |first.reply.gid| == 64
      && ListGyotaku(first.state.db, Healthy, alice) == Listing([first.reply.gid])
      && var second := Ingest(first.state, p, bob, url, stat2, fetch2, write2, io2);
      && second.reply == Taken
      && ListGyotaku(second.state.db, Healthy, bob) == Listing([])
  {
    var gid := GyotakuId(p, url);
    var first := Ingest(st, p, alice, url, false, Body(body), Written, Healthy);
    IngestSuccessAppends(st, p, alice, url, false, Body(body), Written, Healthy, bob, []);
    assert StoredIds(st.db, alice) + [gid] == [gid];
  }
}
