/** Reply-key derivation: KDF selection, the two agile derivations, and the legacy one. */
module Kdf {
  import opened Wrappers
  import opened Der
  import opened Algorithms
  import opened KemTypes
  import opened Cms
  import opened Suite

  const KDF_PREFERENCE_ORDER := [KdfSha256Oid, KdfSha1Oid, KdfSha512Oid]

  function FirstSupported(preferred: seq<Oid>, supported: seq<Oid>): (r: Option<Oid>)
    ensures r.Some? ==> r.value in preferred && r.value in supported
    ensures r.None? <==> forall o :: o in preferred ==> o !in supported
    ensures r.Some? ==>
              exists k :: 0 <= k < |preferred| && preferred[k] == r.value
                          && forall i :: 0 <= i < k ==> preferred[i] !in supported
  {
    if preferred == [] then None
    else if preferred[0] in supported then Some(preferred[0])
    else
      var r := FirstSupported(preferred[1..], supported);
      assert forall i :: 1 <= i < |preferred| ==> preferred[i] == preferred[1..][i - 1];
      assert r.Some? ==>
          exists k :: 0 <= k < |preferred| && preferred[k] == r.value
                      && forall i :: 0 <= i < k ==> preferred[i] !in supported by {
        if r.Some? {
          var k :| 0 <= k < |preferred[1..]| && preferred[1..][k] == r.value
                   && forall i :: 0 <= i < k ==> preferred[1..][i] !in supported;
          assert preferred[k + 1] == r.value;
        }
      }
      r
  }

  /** The KDC's most preferred KDF among those the client listed. */
  function PickKdfAlg(clientKdfs: seq<Oid>): (r: Option<Oid>)
    ensures r == Some(KdfSha256Oid) <==> KdfSha256Oid in clientKdfs
    ensures r == Some(KdfSha1Oid) <==> KdfSha1Oid in clientKdfs && KdfSha256Oid !in clientKdfs
    ensures r == Some(KdfSha512Oid) <==>
            KdfSha512Oid in clientKdfs && KdfSha256Oid !in clientKdfs && KdfSha1Oid !in clientKdfs
    ensures r.None? <==> forall o :: o in KDF_PREFERENCE_ORDER ==> o !in clientKdfs
  {
    assert forall o :: o in KDF_PREFERENCE_ORDER <==> o == KdfSha256Oid || o == KdfSha1Oid || o == KdfSha512Oid;
    assert KDF_PREFERENCE_ORDER[0] == KdfSha256Oid && KDF_PREFERENCE_ORDER[1] == KdfSha1Oid;
    FirstSupported(KDF_PREFERENCE_ORDER, clientKdfs)
  }

  function KdfDigest(kdf: Oid): Fallible<HashName> {
    if kdf == KdfSha1Oid then Ok(Sha1)
    else if kdf == KdfSha256Oid then Ok(Sha256)
    else if kdf == KdfSha512Oid then Ok(Sha512)
    else Err(NoSupportedKdf)
  }

  function OrElse<T>(o: Option<T>, e: PkinitError): Fallible<T> {
    match o
    case Some(v) => Ok(v)
    case None => Err(e)
  }

  /** Every anonymous principal is encoded alike, whatever its realm. */
  function EncodePrincipal(lib: Lib, name: string): Fallible<Bytes> {
    OrElse(if lib.isAnonymousPrincipal(name) then lib.anonymousDer else lib.principalDer(name), Asn1)
  }

  /** Names that name the same party to the KDF. */
  predicate SameParty(lib: Lib, a: string, b: string) {
    a == b || (lib.isAnonymousPrincipal(a) && lib.isAnonymousPrincipal(b))
  }

  /** The single-step KDF of RFC 8636 section 6. */
  function PkinitKdf(lib: Lib, secret: Bytes, kdf: Oid, enctype: i32, partyU: Bytes, partyV: Bytes, asReq: Bytes,
                     paRep: Bytes): Fallible<DerivedKey>
  {
    var digest :- KdfDigest(kdf);
    var len :- OrElse(lib.randomLength(enctype), Unsupported);
    var random :- OrElse(lib.sskdf(digest, secret, lib.otherInfo(kdf, partyU, partyV, enctype, asReq, paRep), len),
                         KdfFailed);
    var key :- OrElse(lib.randomToKey(enctype, random), KdfFailed);
    Ok(DerivedKey(enctype, key))
  }

  /** HKDF-SHA-512 bound to the enctype, the request and the KDC's signed data. */
  function PkinitKemKdf(lib: Lib, secret: Bytes, context: KemContext): Fallible<DerivedKey> {
    var len :- OrElse(lib.randomLength(context.enctype), Unsupported);
    if !context.Encodable() then Err(Asn1)
    else
      var random :- OrElse(lib.hkdf(secret, SuppPubInfoDer(context), len), KdfFailed);
      var key :- OrElse(lib.randomToKey(context.enctype, random), KdfFailed);
      Ok(DerivedKey(context.enctype, key))
  }

  /** `s` cut to `n` bytes, or extended to `n` with zeros. */
  function TruncateOrPad(s: Bytes, n: nat): (r: Bytes)
    ensures |r| == n
    ensures forall i :: 0 <= i < n ==> r[i] == if i < |s| then s[i] else 0
  {
    seq(n, i requires 0 <= i < n => if i < |s| then s[i] else 0)
  }

  function LegacyKey(lib: Lib, secret: Bytes, enctype: i32): Fallible<DerivedKey> {
    var len :- OrElse(lib.randomLength(enctype), Unsupported);
    var key :- OrElse(lib.randomToKey(enctype, TruncateOrPad(secret, len)), KdfFailed);
    Ok(DerivedKey(enctype, key))
  }

  method OctetString2Key(lib: Lib, secret: Bytes, enctype: i32) returns (r: Fallible<DerivedKey>)
    ensures r == LegacyKey(lib, secret, enctype)
  {
    var len :- OrElse(lib.randomLength(enctype), Unsupported);
    var random := new byte[len](_ => 0);
    var copied := if len < |secret| then len else |secret|;
    for i := 0 to copied
      invariant forall j :: 0 <= j < len ==> random[j] == if j < i then secret[j] else 0
    {
      random[i] := secret[i];
    }
    assert random[..] == TruncateOrPad(secret, len);
    var key :- OrElse(lib.randomToKey(enctype, random[..]), KdfFailed);
    r := Ok(DerivedKey(enctype, key));
  }

  /** Secrets are told apart by their first `n` bytes only, after zero padding. */
  lemma TruncateOrPadEqual(s: Bytes, t: Bytes, n: nat)
    ensures TruncateOrPad(s, n) == TruncateOrPad(t, n)
       <==> forall i :: 0 <= i < n ==> (if i < |s| then s[i] else 0) == (if i < |t| then t[i] else 0)
  {
    var a, b := TruncateOrPad(s, n), TruncateOrPad(t, n);
    if a == b {
      forall i | 0 <= i < n
        ensures (if i < |s| then s[i] else 0) == (if i < |t| then t[i] else 0)
      {
        assert a[i] == b[i];
      }
    }
  }

  /* ----- What a derived key is made from ----- */

  /** The hash behind each KDF of RFC 8636. */
  predicate IsDigestOf(digest: HashName, kdf: Oid) {
    || (kdf == KdfSha1Oid && digest == Sha1)
    || (kdf == KdfSha256Oid && digest == Sha256)
    || (kdf == KdfSha512Oid && digest == Sha512)
  }

  /** The key is the library's, of the enctype's length, from the secret under the KDF's hash and all of the context. */
  ghost predicate KdfYields(lib: Lib, secret: Bytes, kdf: Oid, enctype: i32, partyU: Bytes, partyV: Bytes,
                            asReq: Bytes, paRep: Bytes, key: DerivedKey)
  {
    key.enctype == enctype
    && exists digest, len, random ::
         && IsDigestOf(digest, kdf) && lib.randomLength(enctype) == Some(len)
         && lib.sskdf(digest, secret, lib.otherInfo(kdf, partyU, partyV, enctype, asReq, paRep), len) == Some(random)
         && lib.randomToKey(enctype, random) == Some(key.keyData)
  }

  lemma PkinitKdfExactly(lib: Lib, secret: Bytes, kdf: Oid, enctype: i32, partyU: Bytes, partyV: Bytes, asReq: Bytes,
                         paRep: Bytes, key: DerivedKey)
    ensures PkinitKdf(lib, secret, kdf, enctype, partyU, partyV, asReq, paRep) == Ok(key) <==>
            KdfYields(lib, secret, kdf, enctype, partyU, partyV, asReq, paRep, key)
  {
    if PkinitKdf(lib, secret, kdf, enctype, partyU, partyV, asReq, paRep) == Ok(key) {
      var digest, len := KdfDigest(kdf).value, lib.randomLength(enctype).value;
      var random := lib.sskdf(digest, secret, lib.otherInfo(kdf, partyU, partyV, enctype, asReq, paRep), len).value;
      assert IsDigestOf(digest, kdf) && lib.randomLength(enctype) == Some(len);
      assert lib.randomToKey(enctype, random) == Some(key.keyData);
    }
  }

  ghost predicate KemKdfYields(lib: Lib, secret: Bytes, context: KemContext, key: DerivedKey) {
    key.enctype == context.enctype && context.Encodable()
    && exists len, random ::
         && lib.randomLength(context.enctype) == Some(len)
         && lib.hkdf(secret, SuppPubInfoDer(context), len) == Some(random)
         && lib.randomToKey(context.enctype, random) == Some(key.keyData)
  }

  lemma PkinitKemKdfExactly(lib: Lib, secret: Bytes, context: KemContext, key: DerivedKey)
    ensures PkinitKemKdf(lib, secret, context) == Ok(key) <==> KemKdfYields(lib, secret, context, key)
  {
    hide SuppPubInfoDer;
    if PkinitKemKdf(lib, secret, context) == Ok(key) {
      var len := lib.randomLength(context.enctype).value;
      var random := lib.hkdf(secret, SuppPubInfoDer(context), len).value;
      assert lib.randomLength(context.enctype) == Some(len);
      assert lib.randomToKey(context.enctype, random) == Some(key.keyData);
    }
  }

  /** Byte by byte: the secret as far as it goes, and zeros after that. */
  ghost predicate LegacyYields(lib: Lib, secret: Bytes, enctype: i32, key: DerivedKey) {
    key.enctype == enctype
    && exists random ::
         && lib.randomLength(enctype) == Some(|random|)
         && (forall i :: 0 <= i < |random| ==> random[i] == if i < |secret| then secret[i] else 0)
         && lib.randomToKey(enctype, random) == Some(key.keyData)
  }

  lemma LegacyKeyExactly(lib: Lib, secret: Bytes, enctype: i32, key: DerivedKey)
    ensures LegacyKey(lib, secret, enctype) == Ok(key) <==> LegacyYields(lib, secret, enctype, key)
  {
    if lib.randomLength(enctype).Some? {
      var random := TruncateOrPad(secret, lib.randomLength(enctype).value);
      assert lib.randomLength(enctype) == Some(|random|);
      if other: Bytes :|
        && lib.randomLength(enctype) == Some(|other|)
        && (forall i :: 0 <= i < |other| ==> other[i] == if i < |secret| then secret[i] else 0)
        && lib.randomToKey(enctype, other) == Some(key.keyData)
      {
        assert other == random;
      }
    }
  }

  /* ----- What tells derived keys apart ----- */

  /** No collisions, where a key is derived at all. */
  ghost predicate NoKeyCollisions(lib: Lib) {
    forall e, r, r' :: lib.randomToKey(e, r).Some? && lib.randomToKey(e, r) == lib.randomToKey(e, r') ==> r == r'
  }

  ghost predicate NoHkdfCollisions(lib: Lib) {
    forall s, s', i, i', n :: lib.hkdf(s, i, n).Some? && lib.hkdf(s, i, n) == lib.hkdf(s', i', n) ==> s == s' && i == i'
  }

  ghost predicate NoSskdfCollisions(lib: Lib) {
    forall d, d', s, s', i, i', n ::
      lib.sskdf(d, s, i, n).Some? && lib.sskdf(d, s, i, n) == lib.sskdf(d', s', i', n) ==> s == s' && i == i'
  }

  /** OtherInfo is an encoding of its fields. */
  ghost predicate OtherInfoIsEncoding(lib: Lib) {
    forall k, k', u, u', v, v', e, e', q, q', r, r' ::
      lib.otherInfo(k, u, v, e, q, r) == lib.otherInfo(k', u', v', e', q', r') ==>
        k == k' && u == u' && v == v' && e == e' && q == q' && r == r'
  }

  /** Two KEM derivations give the same key exactly for the same secret and context. */
  lemma KemKeysEqualExactly(lib: Lib, s: Bytes, s': Bytes, c: KemContext, c': KemContext, k: DerivedKey, k': DerivedKey)
    requires NoKeyCollisions(lib) && NoHkdfCollisions(lib)
    requires PkinitKemKdf(lib, s, c) == Ok(k) && PkinitKemKdf(lib, s', c') == Ok(k')
    ensures k == k' <==> s == s' && c == c'
  {
    SuppPubInfoInjective(c, c');
    hide SuppPubInfoDer;
    if k == k' {
      var n := lib.randomLength(c.enctype).value;
      assert lib.hkdf(s, SuppPubInfoDer(c), n) == lib.hkdf(s', SuppPubInfoDer(c'), n);
    }
  }

  /** Two agile derivations give the same key exactly for the same secret, KDF, enctype, parties and messages. */
  lemma KdfKeysEqualExactly(lib: Lib, s: Bytes, s': Bytes, kdf: Oid, kdf': Oid, e: i32, e': i32, u: Bytes, u': Bytes,
                            v: Bytes, v': Bytes, req: Bytes, req': Bytes, rep: Bytes, rep': Bytes,
                            k: DerivedKey, k': DerivedKey)
    requires NoKeyCollisions(lib) && NoSskdfCollisions(lib) && OtherInfoIsEncoding(lib)
    requires PkinitKdf(lib, s, kdf, e, u, v, req, rep) == Ok(k)
    requires PkinitKdf(lib, s', kdf', e', u', v', req', rep') == Ok(k')
    ensures k == k' <==>
            s == s' && kdf == kdf' && e == e' && u == u' && v == v' && req == req' && rep == rep'
  {
    if k == k' {
      var n := lib.randomLength(e).value;
      var i, i' := lib.otherInfo(kdf, u, v, e, req, rep), lib.otherInfo(kdf', u', v', e', req', rep');
      assert lib.sskdf(KdfDigest(kdf).value, s, i, n) == lib.sskdf(KdfDigest(kdf').value, s', i', n);
    }
  }

  /** Principals are encoded by name, all anonymous ones alike. */
  ghost predicate PrincipalsAreEncoded(lib: Lib) {
    && (forall a, b :: lib.principalDer(a).Some? && lib.principalDer(a) == lib.principalDer(b) ==> a == b)
    && (forall a :: lib.principalDer(a).Some? && !lib.isAnonymousPrincipal(a) ==>
                      lib.principalDer(a) != lib.anonymousDer)
  }

  /** Two names go into the derivation alike exactly if they name the same party. */
  lemma PartiesEqualExactly(lib: Lib, a: string, b: string)
    requires PrincipalsAreEncoded(lib) && EncodePrincipal(lib, a).Ok? && EncodePrincipal(lib, b).Ok?
    ensures EncodePrincipal(lib, a) == EncodePrincipal(lib, b) <==> SameParty(lib, a, b)
  {
  }
}
