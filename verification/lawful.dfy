/**
 The laws of `Suite.Lib` contradict neither each other nor the sizes they are
 stated with: whatever the decoders, there is a lawful library that encodes
 every message these decoders read.
 */
module Lawful {
  import opened Wrappers
  import opened Der
  import opened Algorithms
  import opened KemTypes
  import opened Cms
  import opened Suite

  /** `b` is read as `m`, and is no shorter than what it must carry. */
  ghost predicate Encodes<M(!new)>(dec: Bytes -> Option<M>, fits: (M, Vec) -> bool, m: M, b: Vec) {
    dec(b) == Some(m) && fits(m, b)
  }

  ghost predicate HasEncoding<M(!new)>(dec: Bytes -> Option<M>, fits: (M, Vec) -> bool, m: M) {
    exists b: Vec :: Encodes(dec, fits, m, b)
  }

  /** Some encoding, if there is one. */
  ghost function Encoding<M(!new)>(dec: Bytes -> Option<M>, fits: (M, Vec) -> bool, m: M): (r: Option<Vec>)
    ensures r.Some? ==> dec(r.value) == Some(m) && fits(m, r.value)
    ensures r.Some? <==> HasEncoding(dec, fits, m)
  {
    if HasEncoding(dec, fits, m) then
      var b: Vec :| Encodes(dec, fits, m, b);
      Some(b)
    else None
  }

  ghost function Encoder<M(!new)>(dec: Bytes -> Option<M>, fits: (M, Vec) -> bool): (enc: M -> Option<Vec>)
    ensures forall m :: enc(m).Some? ==> dec(enc(m).value) == Some(m) && fits(m, enc(m).value)
    ensures forall m :: enc(m).Some? <==> HasEncoding(dec, fits, m)
  {
    m => Encoding(dec, fits, m)
  }

  predicate Any<M>(m: M, b: Vec) {
    true
  }

  predicate Carries(m: Bytes, b: Vec) {
    |m| <= |b|
  }

  predicate HoldsContent(c: ContentInfo, b: Vec) {
    |c.content| <= |b|
  }

  predicate IsDhRep(m: PaRep, b: Vec) {
    !IsKemRep(b) && (m.DhInfo? ==> |m.signedData| <= |b|)
  }

  ghost predicate IsOid(d: CmsLib, o: Oid, b: ShortBytes) {
    d.decOid(b) == Some(o)
  }

  ghost predicate HasOid(d: CmsLib, o: Oid) {
    exists b: ShortBytes :: IsOid(d, o, b)
  }

  /** Every object identifier has a short encoding; nothing is asked of the other messages. */
  ghost predicate ReadsOids(d: CmsLib) {
    forall o :: HasOid(d, o)
  }

  ghost function OidEncoding(d: CmsLib, o: Oid): (b: ShortBytes)
    requires ReadsOids(d)
    ensures d.decOid(b) == Some(o)
  {
    assert HasOid(d, o);
    var b: ShortBytes :| IsOid(d, o, b);
    b
  }

  ghost function OidEncoder(d: CmsLib): (enc: Oid -> ShortBytes)
    requires ReadsOids(d)
    ensures forall o :: d.decOid(enc(o)) == Some(o)
  {
    (o: Oid) requires ReadsOids(d) => OidEncoding(d, o)
  }

  ghost function LawfulCms(d: CmsLib): (lib: CmsLib)
    requires ReadsOids(d)
    ensures lib.Lawful()
    ensures lib.decOid == d.decOid && lib.decSid == d.decSid && lib.decSignedData == d.decSignedData
            && lib.decContentInfo == d.decContentInfo
  {
    d.(encOid := OidEncoder(d),
       encSid := Encoder(d.decSid, Any),
       encSignedData := Encoder(d.decSignedData, Any),
       encContentInfo := Encoder(d.decContentInfo, HoldsContent))
  }

  function Zeros(n: nat): Bytes {
    seq(n, i => 0)
  }

  function ShapeFor(a: AlgId): KeyShape {
    match GroupFromAlgId(a, 0)
    case Some(EcP256) => KeyShape(Some(P256Name), 256, None)
    case Some(EcP384) => KeyShape(Some(P384Name), 384, None)
    case Some(EcP521) => KeyShape(Some(P521Name), 521, None)
    case Some(Oakley2048) => KeyShape(Some(Modp2048Name), 2048, None)
    case Some(Oakley4096) => KeyShape(Some(Modp4096Name), 4096, None)
    case None => KeyShape(None, 0, None)
  }

  /** Encoders for the given decoders. */
  ghost function WithCodecs(d: Lib): Lib
    requires ReadsOids(d.cms)
  {
    d.(cms := LawfulCms(d.cms),
       encAuthPack := Encoder(d.decAuthPack, Any),
       encPaReq := Encoder(d.decPaReq, Carries),
       encDhKeyInfo := Encoder(d.decDhKeyInfo, Any),
       encKemInfo := Encoder(d.decKemInfo, Any),
       encPaRep := Encoder(d.decPaRep, IsDhRep),
       algIds := ListCodec(Encoder(d.algIds.dec, Any), d.algIds.dec))
  }

  lemma CodecsLawful(d: Lib)
    requires ReadsOids(d.cms)
    ensures WithCodecs(d).CodecsInvert()
  {
    hide ReadsOids, HasEncoding, CmsLib.Lawful, IsKemRep;
  }

  /** A toy agreement, in which only lengths matter. */
  function WithToyDh(d: Lib): Lib {
    d.(dhPublic := (g: DhGroup, a: Bytes) => a,
       dhDerive := (g: DhGroup, a: Bytes, peer: Spki) => Some(Zeros(|a| + |peer.bits|)),
       inspectKey := (spki: Spki) => Some(ShapeFor(spki.algorithm)))
  }

  lemma ToyShapes(g: DhGroup)
    ensures ShapeOf(g, ShapeFor(GroupAlgId(g)))
  {
    GroupAlgIdRoundTrip(GroupAlgId(g), g, 0);
  }

  lemma ToyDhLawful(d: Lib)
    ensures WithToyDh(d).DhCommutes() && WithToyDh(d).RecognizesGroups()
  {
    hide ShapeOf, ShapeFor;
    forall g
      ensures ShapeOf(g, ShapeFor(GroupAlgId(g)))
    {
      ToyShapes(g);
    }
  }

  /** A toy KEM, in which the public key is the shared secret. */
  function WithToyKem(d: Lib): Lib {
    d.(kemPublic := (a: KemAlgorithm, secret: Bytes) => secret,
       kemEncapsulate := (a: KemAlgorithm, peer: Spki, coins: Bytes) => Some((Zeros(CiphertextLen(a)), peer.bits)),
       kemDecapsulate := (a: KemAlgorithm, secret: Bytes, ct: Bytes) => Some(secret))
  }

  lemma ToyKemLawful(d: Lib)
    ensures WithToyKem(d).KemInverts()
  {
  }

  lemma LawfulLibraryExists(d: Lib) returns (lib: Lib)
    requires ReadsOids(d.cms)
    ensures lib.Lawful()
    ensures lib.cms.decSignedData == d.cms.decSignedData && lib.cms.decContentInfo == d.cms.decContentInfo
    ensures lib.decAuthPack == d.decAuthPack && lib.decPaReq == d.decPaReq && lib.decPaRep == d.decPaRep
    ensures lib.decDhKeyInfo == d.decDhKeyInfo && lib.decKemInfo == d.decKemInfo && lib.algIds.dec == d.algIds.dec
    ensures forall m :: lib.encAuthPack(m).Some? <==> HasEncoding(d.decAuthPack, Any, m)
    ensures forall m :: lib.encDhKeyInfo(m).Some? <==> HasEncoding(d.decDhKeyInfo, Any, m)
    ensures forall m :: lib.encKemInfo(m).Some? <==> HasEncoding(d.decKemInfo, Any, m)
    ensures forall m :: lib.algIds.enc(m).Some? <==> HasEncoding(d.algIds.dec, Any, m)
  {
    hide HasEncoding, ReadsOids, ShapeOf, ShapeFor, GroupAlgId, KemAlgId, CmsLib.Lawful;
    var a := WithCodecs(d);
    CodecsLawful(d);
    var b := WithToyDh(a);
    ToyDhLawful(a);
    lib := WithToyKem(b);
    ToyKemLawful(b);
    assert lib.CodecsInvert();
    assert lib.DhCommutes() && lib.RecognizesGroups();
  }
}
