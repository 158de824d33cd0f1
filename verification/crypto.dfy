/** The cryptographic collaborators of the service, left uninterpreted, and the
    gyotaku id derived from a URL. */
module Crypto {
  import opened Base
  import Hex

  /** Size in bytes of a SHA-256 digest. */
  const DigestLength := 32

  type Digest = d: Bytes | |d| == DigestLength witness seq(DigestLength, _ => 0)

  /** SHA-256 and bcrypt as opaque functions. bcrypt's random salt is an explicit
      argument of `bcryptGenerate`, which yields None when generation fails. */
  datatype Primitives = Primitives(
    sha256: Bytes -> Digest,
    bcryptGenerate: (Bytes, Bytes) -> Option<Bytes>,  // (password, salt) to hash
    bcryptCompare: (Bytes, Bytes) -> bool)            // (hash, password) to "matches"

  /** The idealised bcrypt: a generated hash accepts exactly its own password.
      Lemmas that need it take it as a precondition. */
  ghost predicate IdealBcrypt(p: Primitives)
  {
    forall password, salt, candidate ::
      p.bcryptGenerate(password, salt).Some? ==>
        (p.bcryptCompare(p.bcryptGenerate(password, salt).value, candidate) <==> candidate == password)
  }

  /** The gyotaku id of a URL: `fmt.Sprintf("%x", sha256.Sum256([]byte(url)))`.
      It is 64 lower-case hex digits from which the digest can be read back. */
  function GyotakuId(p: Primitives, url: Bytes): (gid: Bytes)
    ensures |gid| == 2 * DigestLength
    ensures forall i :: 0 <= i < |gid| ==> Hex.IsLowerHexDigit(gid[i])
    ensures Hex.Decode(gid) == Some(p.sha256(url))
  {
    Hex.DecodeEncode(p.sha256(url));
    Hex.Encode(p.sha256(url))
  }

  /** Two URLs share an id exactly when their digests collide. */
  lemma GyotakuIdCollision(p: Primitives, url1: Bytes, url2: Bytes)
    ensures GyotakuId(p, url1) == GyotakuId(p, url2) <==> p.sha256(url1) == p.sha256(url2)
  {
    Hex.EncodeInjective(p.sha256(url1), p.sha256(url2));
  }

  /** An id never contains '/' or '.', so `path.Join(GyotakuDir, gid)` names a
      file directly inside the gyotaku directory. */
  lemma GyotakuIdIsPlainFileName(p: Primitives, url: Bytes)
    ensures forall i :: 0 <= i < |GyotakuId(p, url)| ==>
      GyotakuId(p, url)[i] != '/' as int && GyotakuId(p, url)[i] != '.' as int
  {
    var gid := GyotakuId(p, url);
    forall i | 0 <= i < |gid|
      ensures gid[i] != '/' as int && gid[i] != '.' as int
    {
      assert Hex.IsLowerHexDigit(gid[i]);
    }
  }
}
