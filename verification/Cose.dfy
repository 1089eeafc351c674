/**
 Keys, claims and certificates as symbolic terms. A byte string is the term it was
 serialized from, so that serialization is invertible, and a signature is the term of the
 key and the contents it was made with, so that it verifies under no other.
 */
module Cose {
  import opened Bytes

  type SigningKey = nat

  datatype VerifyingKey = Public(key: SigningKey)

  /** A byte string: plain bytes, a coordinate of a public key, or a serialized term. */
  datatype Blob =
    | Raw(bytes: seq<byte>)
    | CoordinateX(of: VerifyingKey)
    | CoordinateY(of: VerifyingKey)
    | KeyBlob(key: CoseKey)
    | ClaimsBlob(claims: ClaimsSet)
    | CertBlob(cert: CoseSign1)

  /** A CBOR value. */
  datatype Value = Bytes(blob: Blob) | Text(text: string) | Integer(n: int) | Map(entries: seq<(Value, Value)>)

  /** The identifiers derived from keys, which certificates name issuer and subject by. */
  datatype Id = VerifyingKeyId(vk: VerifyingKey) | KemKeyId(kem: Blob) | OtherId(text: string)

  datatype CoseKey = CoseKey(kty: int, keyId: Option<Id>, alg: Option<int>, keyOps: set<int>, params: seq<(int, Value)>)

  datatype ClaimName = PrivateUse(id: int) | Assigned(n: int) | TextName(text: string)

  datatype ClaimsSet = ClaimsSet(issuer: Option<Id>, subject: Option<Id>, rest: seq<(ClaimName, Value)>)

  /** What COSE_Sign1 signs: the protected header, the external data and the payload. */
  datatype Contents = Contents(alg: Option<int>, externalData: seq<byte>, payload: Option<Blob>)

  datatype Signature = Signed(signer: SigningKey, contents: Contents) | Forged(bytes: seq<byte>)

  datatype CoseSign1 = CoseSign1(alg: Option<int>, payload: Option<Blob>, signature: Signature)

  const SUBJECT_PUBLIC_KEY_ID := -4670552
  const KEY_USAGE_ID := -4670553
  const KEY_CERT_SIGN := 32

  // Assigned COSE numbers: key types, algorithms, operations, parameters and curves.
  const KTY_OKP := 1
  const KTY_EC2 := 2
  const ES256 := -7
  const ECDH_ES_A256KW := -31
  const OP_VERIFY := 2
  const OP_WRAP_KEY := 5
  const PARAM_CRV := -1
  const PARAM_X := -2
  const PARAM_Y := -3
  const CURVE_P256 := 1
  const CURVE_X25519 := 4

  predicate Verifies(vk: VerifyingKey, contents: Contents, signature: Signature)
  {
    signature.Signed? && Public(signature.signer) == vk && signature.contents == contents
  }

  function ContentsOf(cert: CoseSign1): Contents
  {
    Contents(cert.alg, [], cert.payload)
  }

  function CertFromBlob(b: Blob): Option<CoseSign1>
  {
    if b.CertBlob? then Some(b.cert) else None
  }

  function ClaimsFromBlob(b: Blob): Option<ClaimsSet>
  {
    if b.ClaimsBlob? then Some(b.claims) else None
  }

  function KeyFromBlob(b: Blob): Option<CoseKey>
  {
    if b.KeyBlob? then Some(b.key) else None
  }

  /** The first parameter with the label `tag` that is a byte string. */
  function FindBytes(params: seq<(int, Value)>, tag: int): Option<Blob>
  {
    if params == [] then None
    else if params[0].0 == tag && params[0].1.Bytes? then Some(params[0].1.blob)
    else FindBytes(params[1..], tag)
  }

  function VerifyingKeyToCose(vk: VerifyingKey): CoseKey
  {
    CoseKey(KTY_EC2, Some(VerifyingKeyId(vk)), Some(ES256), {OP_VERIFY},
            [(PARAM_CRV, Integer(CURVE_P256)), (PARAM_X, Bytes(CoordinateX(vk))), (PARAM_Y, Bytes(CoordinateY(vk)))])
  }

  function CoseToVerifyingKey(k: CoseKey): Option<VerifyingKey>
  {
    if k.kty != KTY_EC2 || k.alg != Some(ES256) || OP_VERIFY !in k.keyOps then None
    else if (PARAM_CRV, Integer(CURVE_P256)) !in k.params then None
    else
      var x, y := FindBytes(k.params, PARAM_X), FindBytes(k.params, PARAM_Y);
      if x.None? || y.None? then None
      else if x.value.CoordinateX? && y.value.CoordinateY? && x.value.of == y.value.of then Some(x.value.of)
      else None
  }

  function HpkeKeyToCose(kem: Blob): CoseKey
  {
    CoseKey(KTY_OKP, Some(KemKeyId(kem)), Some(ECDH_ES_A256KW), {OP_WRAP_KEY},
            [(PARAM_CRV, Integer(CURVE_X25519)), (PARAM_X, Bytes(kem))])
  }

  function CoseToHpkeKey(k: CoseKey): Option<Blob>
  {
    if k.kty != KTY_OKP || k.alg != Some(ECDH_ES_A256KW) || OP_WRAP_KEY !in k.keyOps then None
    else if (PARAM_CRV, Integer(CURVE_X25519)) !in k.params then None
    else FindBytes(k.params, PARAM_X)
  }

  /** The first byte string under the label. */
  ghost predicate FirstBytes(params: seq<(int, Value)>, tag: int, b: Blob)
  {
    exists i | 0 <= i < |params| ::
      && params[i] == (tag, Bytes(b))
      && forall j | 0 <= j < i :: !(params[j].0 == tag && params[j].1.Bytes?)
  }

  lemma {:induction false} FindsFirst(params: seq<(int, Value)>, tag: int, b: Blob)
    ensures FindBytes(params, tag) == Some(b) <==> FirstBytes(params, tag, b)
  {
    if params == [] {
    } else if params[0].0 == tag && params[0].1.Bytes? {
      if params[0].1.blob == b { assert params[0] == (tag, Bytes(b)); }
    } else {
      var rest := params[1..];
      FindsFirst(rest, tag, b);
      if i :| 0 <= i < |rest| && rest[i] == (tag, Bytes(b)) &&
              forall j | 0 <= j < i :: !(rest[j].0 == tag && rest[j].1.Bytes?) {
        assert params[i + 1] == (tag, Bytes(b));
        assert forall j | 0 < j < i + 1 :: params[j] == rest[j - 1];
      }
      if i :| 0 <= i < |params| && params[i] == (tag, Bytes(b)) &&
              forall j | 0 <= j < i :: !(params[j].0 == tag && params[j].1.Bytes?) {
        assert rest[i - 1] == (tag, Bytes(b));
        assert forall j | 0 <= j < i - 1 :: rest[j] == params[j + 1];
      }
    }
  }

  /** A COSE key is read as a verifying key exactly in this form. */
  lemma VerifyingKeyExactly(k: CoseKey, vk: VerifyingKey)
    ensures CoseToVerifyingKey(k) == Some(vk) <==>
            && k.kty == 2 && k.alg == Some(-7) && 2 in k.keyOps && (-1, Integer(1)) in k.params
            && FirstBytes(k.params, -2, CoordinateX(vk)) && FirstBytes(k.params, -3, CoordinateY(vk))
  {
    FindsFirst(k.params, PARAM_X, CoordinateX(vk));
    FindsFirst(k.params, PARAM_Y, CoordinateY(vk));
  }

  /** A COSE key is read as an encryption key exactly in this form. */
  lemma HpkeKeyExactly(k: CoseKey, kem: Blob)
    ensures CoseToHpkeKey(k) == Some(kem) <==>
            && k.kty == 1 && k.alg == Some(-31) && 5 in k.keyOps && (-1, Integer(4)) in k.params
            && FirstBytes(k.params, -2, kem)
  {
    FindsFirst(k.params, PARAM_X, kem);
  }

  /** Both key conversions are undone by their readers, and neither reads the other's keys. */
  lemma KeyConversions(vk: VerifyingKey, kem: Blob)
    ensures CoseToVerifyingKey(VerifyingKeyToCose(vk)) == Some(vk)
    ensures CoseToHpkeKey(HpkeKeyToCose(kem)) == Some(kem)
    ensures CoseToVerifyingKey(HpkeKeyToCose(kem)) == None
    ensures CoseToHpkeKey(VerifyingKeyToCose(vk)) == None
  {
    var p, q := VerifyingKeyToCose(vk).params, HpkeKeyToCose(kem).params;
    assert p[0] == (PARAM_CRV, Integer(CURVE_P256)) && q[0] == (PARAM_CRV, Integer(CURVE_X25519));
    assert p[1..][0] == p[1] && p[1..][1..] == p[2..] && p[2..][0] == p[2] && q[1..][0] == q[1];
    assert FindBytes(p, PARAM_X) == FindBytes(p[1..], PARAM_X);
    assert FindBytes(p, PARAM_Y) == FindBytes(p[1..], PARAM_Y) == FindBytes(p[2..], PARAM_Y);
    assert FindBytes(q, PARAM_X) == FindBytes(q[1..], PARAM_X);
  }

  /** The claims of a certificate: the key and its usage come before the additional claims. */
  function ClaimsFor(issuer: Id, key: CoseKey, subject: Id, additional: seq<(ClaimName, Value)>): ClaimsSet
  {
    ClaimsSet(Some(issuer), Some(subject),
              [(PrivateUse(SUBJECT_PUBLIC_KEY_ID), Bytes(KeyBlob(key))),
               (PrivateUse(KEY_USAGE_ID), Bytes(Raw(LeBytes(KEY_CERT_SIGN, 2))))] + additional)
  }

  function Certificate(sk: SigningKey, claims: ClaimsSet): CoseSign1
  {
    var payload := Some(ClaimsBlob(claims));
    CoseSign1(Some(ES256), payload, Signed(sk, Contents(Some(ES256), [], payload)))
  }

  function SigningClaims(issuer: Id, vk: VerifyingKey, additional: seq<(ClaimName, Value)>): ClaimsSet
  {
    ClaimsFor(issuer, VerifyingKeyToCose(vk), VerifyingKeyId(vk), additional)
  }

  function KemClaims(issuer: Id, kem: Blob, additional: seq<(ClaimName, Value)>): ClaimsSet
  {
    ClaimsFor(issuer, HpkeKeyToCose(kem), KemKeyId(kem), additional)
  }

  /** Builds the claims one by one, then signs them. */
  method GenerateCertificate(sk: SigningKey, issuer: Id, key: CoseKey, subject: Id,
                             additional: seq<(ClaimName, Value)>) returns (cert: CoseSign1)
    ensures cert == Certificate(sk, ClaimsFor(issuer, key, subject, additional))
  {
    var rest := [(PrivateUse(SUBJECT_PUBLIC_KEY_ID), Bytes(KeyBlob(key)))];
    rest := rest + [(PrivateUse(KEY_USAGE_ID), Bytes(Raw(LeBytes(KEY_CERT_SIGN, 2))))];
    ghost var fixed := rest;
    for i := 0 to |additional|
      invariant rest == fixed + additional[..i]
    {
      rest := rest + [additional[i]];
    }
    assert rest == ClaimsFor(issuer, key, subject, additional).rest;
    var payload := Some(ClaimsBlob(ClaimsSet(Some(issuer), Some(subject), rest)));
    cert := CoseSign1(Some(ES256), payload, Signed(sk, Contents(Some(ES256), [], payload)));
  }

  /** The first claim with the private-use label that is a byte string. */
  function FindKeyClaim(rest: seq<(ClaimName, Value)>): Option<Blob>
  {
    if rest == [] then None
    else if rest[0].0 == PrivateUse(SUBJECT_PUBLIC_KEY_ID) && rest[0].1.Bytes? then Some(rest[0].1.blob)
    else FindKeyClaim(rest[1..])
  }

  function PublicKeyFromClaims(claims: ClaimsSet): Option<CoseKey>
  {
    var b := FindKeyClaim(claims.rest);
    if b.None? then None else KeyFromBlob(b.value)
  }

  /** The claims of a certificate by number: the key, its usage for signing certificates, and then the others. */
  lemma ClaimsByNumber(issuer: Id, key: CoseKey, subject: Id, additional: seq<(ClaimName, Value)>)
    ensures ClaimsFor(issuer, key, subject, additional) == ClaimsSet(Some(issuer), Some(subject),
              [(PrivateUse(-4670552), Bytes(KeyBlob(key))), (PrivateUse(-4670553), Bytes(Raw([32, 0])))] + additional)
  {
    assert LeBytes(0, 1) == [0] + LeBytes(0, 0) == [0];
    assert LeBytes(KEY_CERT_SIGN, 2) == [32] + LeBytes(0, 1) == [32, 0];
  }

  /** Whatever the additional claims are, a certificate certifies the key it was made for. */
  lemma CertifiesItsKey(issuer: Id, key: CoseKey, subject: Id, additional: seq<(ClaimName, Value)>)
    ensures PublicKeyFromClaims(ClaimsFor(issuer, key, subject, additional)) == Some(key)
  {
  }
}
