# Gyotaku storage core in Dafny

This project models the core of the Gyotaku web service. A logged-in user submits a URL. The service fetches it once and saves the page under an id derived from the URL (a "gyotaku", a fish print). It also keeps, per user, the ordered list of ids that user created.

The model covers three parts:

- **`DBConn`** (`dbconn.dfy`, module `DbConn`). One leveldb key/value map holds two logical tables:
  - each user's bcrypt credential, under `"user-" + name`;
  - each user's gyotaku id list, under `"gyotaku-" + name`.

  The map is a `map<Bytes, Value>` with `Value = Cred(hash) | Ids(list)`. Every store call is one atomic step, and an `Io` input says whether its leveldb calls succeed.
- **The login state machine** (`Handler.Login`, `handler.go`). Its steps are the session check, the 8-byte length gate, the existence probe, then either auto-registration or bcrypt verification. It returns a reply together with the new store and session.
- **The ingestion state machine** (`Handler.Ingest`, `handler.go`). It:
  - computes the id, the lower-case hex of SHA-256(url);
  - probes the gyotaku directory for that id;
  - fetches the URL;
  - writes the `GyotakuData` record;
  - appends the id to the user's list.

  The results of the probe, the fetch, the file write and the append are inputs. The list endpoint (`Handler.ListGyotaku`) is modelled too.

Go strings are byte sequences (`Base.Bytes`), so Go's `len` is the sequence length and keys are byte concatenations. SHA-256 and bcrypt are uninterpreted function-valued fields of `Crypto.Primitives`. bcrypt's random salt is an explicit argument. The idealised bcrypt, under which a generated hash accepts exactly its own password, is the predicate `Crypto.IdealBcrypt`. Lemmas that rely on it take it as a precondition. Hex encoding is modelled concretely, with its decoder as a partner.

The properties proved include:

- the two key spaces are disjoint, and each key function is injective;
- each store call changes only its own key;
- appends preserve order;
- both writers preserve a typing invariant;
- registration followed by login behaves as expected;
- a repeated URL is refused without a fetch;
- a link invariant holds: every listed id names a saved record owned by that user;
- the one accepted inconsistency, a saved record with no list entry, is exhibited.

Behaviour of the code worth noting:

- `VerifyUser` on an absent user returns leveldb's not-found error, not `(false, nil)`.
- The file write is `ioutil.WriteFile`, which is not atomic. Once it has created the file, a failure still leaves a file behind: a partial record when a write fails, or a complete one when only `Close` fails. `File.Truncated` stands for whatever a failed write leaves behind. Because the duplicate probe then finds that file, the URL can never be ingested again (`HandlerProperties.FailedWriteBlocksUrl`).
- The duplicate probe refuses on any `os.Stat` outcome other than not-exist, not only when the file exists.
- `CreateUser` overwrites an existing credential. It has no conflict check of its own.
- The length gate counts bytes, not characters.

## Model

| member | source | states |
|---|---|---|
| `Hex.DecodeEncode` | gyotaku/src/handler.go:111 | the `%x` rendering of a byte string decodes back to exactly that string |
| `Hex.EncodeDecode` | gyotaku/src/handler.go:111 | every text the decoder accepts is the canonical lower-case rendering of what it decodes to |
| `Hex.EncodeInjective` | gyotaku/src/handler.go:111 | two byte strings have the same hex rendering if and only if they are equal |
| `Crypto.GyotakuId` | gyotaku/src/handler.go:110-111 | the id is 64 characters, each in `0-9a-f`, and decodes to the SHA-256 digest of the URL |
| `Crypto.GyotakuIdCollision` | gyotaku/src/handler.go:111 | two URLs get the same id if and only if their digests collide |
| `Crypto.GyotakuIdIsPlainFileName` | gyotaku/src/handler.go:111-113 | an id has no `/` or `.`, so joining it to the gyotaku directory names a file directly inside it |
| `DbConn.KeyspacesDisjoint` | gyotaku/src/dbconn.go:52-57 | no credential key `"user-"+a` equals a list key `"gyotaku-"+b` |
| `DbConn.UserKeyInjective` | gyotaku/src/dbconn.go:16 | distinct usernames have distinct credential keys, and equal ones the same key |
| `DbConn.ListKeyInjective` | gyotaku/src/dbconn.go:57 | distinct usernames have distinct list keys, and equal ones the same key |
| `DbConn.UserExists` | gyotaku/src/dbconn.go:15-21 | an error exactly when leveldb fails; otherwise true if and only if the credential key is present; the store is not changed |
| `DbConn.VerifyUser` | gyotaku/src/dbconn.go:23-41 | true exactly when the stored hash accepts the password; a mismatch is `(false, nil)`; an absent user is a not-found error; a leveldb failure is an error |
| `DbConn.CreateUser` | gyotaku/src/dbconn.go:43-54 | fails exactly when hashing or leveldb fails, with no write; on success the credential key holds the generated hash and every other key is unchanged |
| `DbConn.GetGyotakuList` | gyotaku/src/dbconn.go:56-76 | fails exactly when leveldb fails or the stored value is not a list, and a non-list is a decode error; otherwise the stored list, with an absent list read as the empty list without error |
| `DbConn.AddGyotakuList` | gyotaku/src/dbconn.go:78-116 | fails exactly on leveldb failure or an undecodable value; on success the list is the old list (empty if absent) followed by the id, and only that key changes |
| `DbConn.CreateThenExists` | gyotaku/src/dbconn.go:43-54 | after a successful create, a user exists if and only if it is the new user or existed before |
| `DbConn.CreateThenVerify` | gyotaku/src/dbconn.go:35-40 | under ideal bcrypt, a created user verifies with a candidate password if and only if it is the registered password |
| `DbConn.CreateKeepsLists` | gyotaku/src/dbconn.go:52 | creating a user leaves every gyotaku list read unchanged |
| `DbConn.AddThenGet` | gyotaku/src/dbconn.go:89-110 | after an append the list reads back as the previous list followed by the new id |
| `DbConn.AddKeepsOthers` | gyotaku/src/dbconn.go:110-115 | an append changes no existence check, no verification and no other user's list |
| `DbConn.AppendThree` | gyotaku/src/dbconn.go:97-105 | appending a, b, c to an absent list reads back as exactly `[a, b, c]` |
| `DbConn.CreatePreservesWellTyped` | gyotaku/src/dbconn.go:52 | creating a user keeps every credential key holding a hash and every list key holding a list |
| `DbConn.AddPreservesWellTyped` | gyotaku/src/dbconn.go:103-110 | appending keeps every credential key holding a hash and every list key holding a list |
| `DbConn.WellTypedListsDecode` | gyotaku/src/dbconn.go:69-74 | on a well-typed store, reading or appending a list fails exactly when leveldb fails |
| `Handler.Login` | gyotaku/src/handler.go:37-81 | "already logged in" is answered exactly when the session has a username; the length 400 is answered exactly when, with no session username, either credential is under 8 bytes, before any store access; no 400 changes the store or session; with healthy leveldb, an existing user logs in if the stored hash accepts the password and gets the 400 "invalid" reply otherwise, and an absent user is registered with the generated hash whenever hashing succeeds; the session changes exactly on success and then names the user; the store changes only by registering a new user; a 500, which changes neither the store nor the session, arises exactly from a leveldb failure, or a hashing failure while registering, once the session and length checks have passed |
| `Handler.Ingest` | gyotaku/src/handler.go:103-153 | a 409 happens if and only if the id's file exists or the probe fails, and it changes nothing; otherwise a fetch or body-read failure is a 500 with no change; success happens if and only if the fetch, the write and the append all succeed, and it saves `{url, body, username}` under the id and appends the id; once the write succeeds, the directory gains exactly the record under the id whether or not the append succeeds; a failed open changes nothing; a failed write leaves a file under the id; no existing file is replaced and only the id's file may appear; the store changes only on success |
| `Handler.ListGyotaku` | gyotaku/src/handler.go:83-95 | answers the user's stored list (empty if none) exactly when the read succeeds, and a server error otherwise |
| `HandlerProperties.LoginRegistersNewUser` | gyotaku/src/handler.go:51-63 | a never-seen username with long enough credentials is registered, the session names it, and it then exists and verifies with its password only |
| `HandlerProperties.LoginRejectsWrongPassword` | gyotaku/src/handler.go:67-74 | a password the stored hash rejects gives 400, and the store and session are unchanged |
| `HandlerProperties.RegisterThenLogin` | gyotaku/src/handler.go:51-79 | after registering, a fresh login with the same password succeeds without changing the store, and one with another password is rejected |
| `HandlerProperties.LoginKeepsLists` | gyotaku/src/handler.go:56-63 | a login, whatever its outcome, leaves every gyotaku list unchanged |
| `HandlerProperties.IngestConflictFetchesNothing` | gyotaku/src/handler.go:113-118 | on a conflict the outcome does not depend on the fetch, the write or the append, so none of them happens |
| `HandlerProperties.IngestSuccessAppends` | gyotaku/src/handler.go:141-151 | a success returns the URL's id; the user's list, read directly or through the list endpoint, is the old list followed by it; every user's existence and password verification are unchanged, and so is every other user's list |
| `HandlerProperties.IngestTwice` | gyotaku/src/handler.go:111-116 | after a success, ingesting the same URL again, by any user, is a conflict that changes nothing |
| `HandlerProperties.IngestCollidingUrl` | gyotaku/src/handler.go:111-116 | a different URL with the same digest is refused as a conflict once the first is saved |
| `HandlerProperties.FailedWriteBlocksUrl` | gyotaku/src/handler.go:141-144 | a write that fails after creating the file answers 500 and leaves a truncated file, and every later ingestion of that URL is a conflict |
| `HandlerProperties.IngestPreservesLinked` | gyotaku/src/handler.go:130-151 | every ingestion outcome keeps each listed id pointing at a saved record owned by that list's user |
| `HandlerProperties.LoginPreservesLinked` | gyotaku/src/handler.go:56-63 | logins keep each listed id pointing at a saved record owned by that list's user |
| `HandlerProperties.OrphanedRecord` | gyotaku/src/handler.go:141-149 | when the record is written but the append fails, the answer is 500, the user owns the record, and the id is in no list entry of theirs |
| `HandlerProperties.IngestThenOtherUser` | gyotaku/src/handler.go:111-151 | a user ingests a new URL and lists exactly its 64-character id; another user ingesting it gets a conflict and still lists nothing |

## Left out

- `main.go` is process wiring (directory creation, opening leveldb, the cookie store, routes), and it is not part of this model.
- `middleware.go` is not modelled. `LoginRequiredMiddleware` guarantees a session username, so ingestion and listing take that username as a parameter. The loopback gate serves only the flag endpoint.
- `IndexHandler`, `FlagHandler` and `GyotakuViewHandler` are I/O only: a banner, a file read, and a stat and a read that answer 404 for an unknown id, 500 on a read error and otherwise 501.
- Concurrency is not modelled. Each store call is one atomic sequential step, and leveldb snapshots and transactions are that step. The check-then-act windows are not analysed: the directory probe before the write, and the existence check before registration. Nothing here claims freedom from races.
- Error paths of `AddGyotakuList` and `CreateUser` return without discarding the open leveldb transaction. The model treats an abandoned transaction as having no effect and does not model the write lock it keeps.
- In `VerifyUser`, `snapshot.Release()` is deferred before the error check. So on a `GetSnapshot` failure it runs on a nil snapshot when the function returns, a nil-pointer panic that echo's Recover middleware answers with 500. The model reports that path as a store error, which is also answered with 500.
- The gob byte format is not modelled: values are stored decoded, so gob's round trip is taken as given. Gob encoding errors for the list and for `GyotakuData` are not modelled, since encoding strings into a memory buffer does not fail.
- bcrypt's cost parameter is not modelled, and its salt is an input. `Crypto.IdealBcrypt` idealises bcrypt. Real bcrypt implementations of that era read only the first 72 password bytes, so longer passwords that share those bytes verify alike.
- SHA-256 is uninterpreted. Only its 32-byte digest length is used.
- The HTTP fetch, the body read, the file write, `os.Stat` and the session save are inputs or are not modelled; the ignored `sess.Save` error in particular is not modelled. Replies are a small datatype, not JSON bodies.
- Fetch timeouts and cancellation are not modelled, because the source sets none.

## Findings

None.
