/** DICE evidence and the builder that extends it layer by layer. */
module Dice {
  import opened Bytes
  import opened Cose

  type Claims = seq<(ClaimName, Value)>

  datatype TeePlatform = Unspecified | AmdSevSnp | IntelTdx | NoTee

  /** What the platform reports: the 64 bytes it was asked to include, and its own state. */
  datatype ReportBody = ReportBody(reportData: seq<byte>, chipId: seq<byte>, tcb: seq<nat>, measurement: seq<byte>)

  /** An attestation report; `wellFormed` is the outcome of its own validation. */
  datatype Report = Report(wellFormed: bool, body: ReportBody, signer: Option<nat>, signed: ReportBody)

  datatype RootLayer = RootLayer(platform: TeePlatform, report: Report, ecaPublicKey: Blob)

  datatype ApplicationKeys = ApplicationKeys(encryption: Blob, signing: Blob, groupEncryption: Blob, groupSigning: Blob)

  /** The layers are the serialized certificates, outermost first. */
  datatype Evidence = Evidence(rootLayer: Option<RootLayer>, layers: seq<Blob>,
                               applicationKeys: Option<ApplicationKeys>)

  /** What is handed from one boot stage to the next: the evidence and the current key. */
  datatype DiceData = DiceData(evidence: Option<Evidence>, ecaPrivateKey: Option<SigningKey>)

  /** The state of a builder as a value. */
  datatype Builder = Builder(evidence: Evidence, signingKey: SigningKey)

  function ClaimsOfCert(b: Blob): Option<ClaimsSet>
  {
    var cert := CertFromBlob(b);
    if cert.None? || cert.value.payload.None? then None else ClaimsFromBlob(cert.value.payload.value)
  }

  /** The issuer of the next certificate: the subject of the last layer. */
  function NextIssuer(e: Evidence): Option<Id>
  {
    if e.layers == [] then None
    else
      var claims := ClaimsOfCert(e.layers[|e.layers| - 1]);
      if claims.None? then None else claims.value.subject
  }

  function SigningCert(sk: SigningKey, issuer: Id, vk: VerifyingKey, additional: Claims): Blob
  {
    CertBlob(Certificate(sk, SigningClaims(issuer, vk, additional)))
  }

  function KemCert(sk: SigningKey, issuer: Id, kem: Blob, additional: Claims): Blob
  {
    CertBlob(Certificate(sk, KemClaims(issuer, kem, additional)))
  }

  /** `add_layer`, with the newly generated key; an error when there is no subject to issue as. */
  function WithLayer(b: Builder, additional: Claims, newKey: SigningKey): Option<Builder>
  {
    var issuer := NextIssuer(b.evidence);
    if issuer.None? then None
    else
      var cert := SigningCert(b.signingKey, issuer.value, Public(newKey), additional);
      Some(Builder(b.evidence.(layers := b.evidence.layers + [cert]), newKey))
  }

  function WithApplicationKeys(b: Builder, additional: Claims, kem: Blob, vk: VerifyingKey,
                               groupKem: Option<Blob>, groupVk: Option<VerifyingKey>): Option<Evidence>
  {
    var issuer := NextIssuer(b.evidence);
    if issuer.None? then None
    else
      var id := issuer.value;
      Some(b.evidence.(applicationKeys := Some(ApplicationKeys(
        KemCert(b.signingKey, id, kem, additional),
        SigningCert(b.signingKey, id, vk, additional),
        if groupKem.Some? then KemCert(b.signingKey, id, groupKem.value, []) else Raw([]),
        if groupVk.Some? then SigningCert(b.signingKey, id, groupVk.value, []) else Raw([])))))
  }

  function Serialized(b: Builder): DiceData
  {
    DiceData(Some(b.evidence), Some(b.signingKey))
  }

  function FromDiceData(d: DiceData): Option<Builder>
  {
    if d.evidence.None? || d.ecaPrivateKey.None? then None
    else Some(Builder(d.evidence.value, d.ecaPrivateKey.value))
  }

  /** The builder object; its methods are proved against the functions above. */
  class DiceBuilder {
    var evidence: Evidence
    var signingKey: SigningKey

    ghost function View(): Builder
      reads this
    {
      Builder(evidence, signingKey)
    }

    constructor (b: Builder)
      ensures View() == b
    {
      evidence := b.evidence;
      signingKey := b.signingKey;
    }

    method AddLayer(additional: Claims, newKey: SigningKey) returns (ok: bool)
      modifies this
      ensures ok <==> WithLayer(old(View()), additional, newKey).Some?
      ensures ok ==> Some(View()) == WithLayer(old(View()), additional, newKey)
      ensures !ok ==> View() == old(View())
    {
      var issuer := NextIssuer(evidence);
      if issuer.None? {
        return false;
      }
      var vk := Public(newKey);
      var cert := GenerateCertificate(signingKey, issuer.value, VerifyingKeyToCose(vk), VerifyingKeyId(vk), additional);
      evidence := evidence.(layers := evidence.layers + [CertBlob(cert)]);
      signingKey := newKey;
      return true;
    }

    /** Certifies the application's keys with the current key, and the group keys if there are any. */
    method AddApplicationKeys(additional: Claims, kem: Blob, vk: VerifyingKey,
                              groupKem: Option<Blob>, groupVk: Option<VerifyingKey>) returns (r: Option<Evidence>)
      ensures r == WithApplicationKeys(View(), additional, kem, vk, groupKem, groupVk)
    {
      var issuer := NextIssuer(evidence);
      if issuer.None? {
        return None;
      }
      var sk, id := signingKey, issuer.value;
      var encryption := GenerateCertificate(sk, id, HpkeKeyToCose(kem), KemKeyId(kem), additional);
      var signing := GenerateCertificate(sk, id, VerifyingKeyToCose(vk), VerifyingKeyId(vk), additional);
      var groupEncryption, groupSigning := Raw([]), Raw([]);
      if groupKem.Some? {
        var cert := GenerateCertificate(sk, id, HpkeKeyToCose(groupKem.value), KemKeyId(groupKem.value), []);
        groupEncryption := CertBlob(cert);
      }
      if groupVk.Some? {
        var cert := GenerateCertificate(sk, id, VerifyingKeyToCose(groupVk.value), VerifyingKeyId(groupVk.value), []);
        groupSigning := CertBlob(cert);
      }
      r := Some(evidence.(applicationKeys := Some(
                  ApplicationKeys(CertBlob(encryption), CertBlob(signing), groupEncryption, groupSigning))));
    }
  }

  /** One step of a chain of boot stages: a new layer, or a hand-over to the next stage. */
  datatype Stage = AddLayer(additional: Claims, newKey: SigningKey) | HandOver

  function RunStage(b: Builder, s: Stage): Option<Builder>
  {
    match s
    case AddLayer(additional, newKey) => WithLayer(b, additional, newKey)
    case HandOver => FromDiceData(Serialized(b))
  }

  function RunStages(b: Builder, stages: seq<Stage>): Option<Builder>
    decreases |stages|
  {
    if stages == [] then Some(b)
    else
      var next := RunStage(b, stages[0]);
      if next.None? then None else RunStages(next.value, stages[1..])
  }

  /** The root public key a piece of evidence starts from. */
  function RootKey(e: Evidence): Option<VerifyingKey>
  {
    if e.rootLayer.None? then None
    else
      var k := KeyFromBlob(e.rootLayer.value.ecaPublicKey);
      if k.None? then None else CoseToVerifyingKey(k.value)
  }

  /** The certificate is signed by `issuer` and certifies `subject`. */
  predicate Link(issuer: VerifyingKey, b: Blob, subject: VerifyingKey)
  {
    && b.CertBlob? && Verifies(issuer, ContentsOf(b.cert), b.cert.signature)
    && CertifiedKey(b) == Some(subject)
  }

  function CertifiedKey(b: Blob): Option<VerifyingKey>
  {
    var claims := ClaimsOfCert(b);
    if claims.None? then None
    else
      var k := PublicKeyFromClaims(claims.value);
      if k.None? then None else CoseToVerifyingKey(k.value)
  }

  /** An unbroken chain of signatures: each certificate is signed by the key before it. */
  ghost predicate Chain(keys: seq<VerifyingKey>, layers: seq<Blob>)
  {
    |keys| == |layers| + 1 && forall i | 0 <= i < |layers| :: Link(keys[i], layers[i], keys[i + 1])
  }

  /** Each certificate names as issuer the subject of the one before, and as subject its own key. */
  ghost predicate Names(keys: seq<VerifyingKey>, layers: seq<Blob>)
  {
    && |keys| == |layers| + 1
    && forall i | 0 <= i < |layers| ::
         && ClaimsOfCert(layers[i]).Some?
         && ClaimsOfCert(layers[i]).value.issuer == Some(VerifyingKeyId(keys[i]))
         && ClaimsOfCert(layers[i]).value.subject == Some(VerifyingKeyId(keys[i + 1]))
  }

  /** What every builder keeps: a chain from the root key to the key it signs with. */
  ghost predicate BuilderOk(b: Builder, keys: seq<VerifyingKey>)
  {
    && b.evidence.layers != []
    && Chain(keys, b.evidence.layers) && Names(keys, b.evidence.layers)
    && RootKey(b.evidence) == Some(keys[0])
    && Public(b.signingKey) == keys[|keys| - 1]
  }

  lemma SigningCertLinks(sk: SigningKey, issuer: Id, vk: VerifyingKey, additional: Claims)
    ensures Link(Public(sk), SigningCert(sk, issuer, vk, additional), vk)
    ensures ClaimsOfCert(SigningCert(sk, issuer, vk, additional)) == Some(SigningClaims(issuer, vk, additional))
  {
    KeyConversions(vk, Raw([]));
    CertifiesItsKey(issuer, VerifyingKeyToCose(vk), VerifyingKeyId(vk), additional);
  }

  lemma NextIssuerIs(b: Builder, keys: seq<VerifyingKey>)
    requires BuilderOk(b, keys)
    ensures NextIssuer(b.evidence) == Some(VerifyingKeyId(Public(b.signingKey)))
  {
    var n := |b.evidence.layers|;
    assert ClaimsOfCert(b.evidence.layers[n - 1]).value.subject == Some(VerifyingKeyId(keys[n - 1 + 1]));
  }

  lemma LayerKeepsChain(b: Builder, keys: seq<VerifyingKey>, additional: Claims, newKey: SigningKey)
    requires BuilderOk(b, keys)
    ensures WithLayer(b, additional, newKey).Some?
    ensures BuilderOk(WithLayer(b, additional, newKey).value, keys + [Public(newKey)])
    ensures WithLayer(b, additional, newKey).value.evidence.rootLayer == b.evidence.rootLayer
  {
    NextIssuerIs(b, keys);
    var id := VerifyingKeyId(Public(b.signingKey));
    SigningCertLinks(b.signingKey, id, Public(newKey), additional);
    hide Link, ClaimsOfCert, Certificate, SigningClaims, SigningCert, NextIssuer;
    var after, now := WithLayer(b, additional, newKey).value, keys + [Public(newKey)];
    var layers, n := after.evidence.layers, |b.evidence.layers|;
    assert layers[..n] == b.evidence.layers;
    forall i | 0 <= i < |layers|
      ensures Link(now[i], layers[i], now[i + 1])
      ensures ClaimsOfCert(layers[i]).Some?
      ensures ClaimsOfCert(layers[i]).value.issuer == Some(VerifyingKeyId(now[i]))
      ensures ClaimsOfCert(layers[i]).value.subject == Some(VerifyingKeyId(now[i + 1]))
    {
      if i < n {
        assert Link(keys[i], b.evidence.layers[i], keys[i + 1]);
      }
    }
  }

  /** The keys of the layers a run of stages adds. */
  function NewKeys(stages: seq<Stage>): seq<VerifyingKey>
  {
    if stages == [] then []
    else (if stages[0].AddLayer? then [Public(stages[0].newKey)] else []) + NewKeys(stages[1..])
  }

  /**
   Any number of layers and hand-overs succeed and keep the chain: each certificate is
   signed by the key before it, names that key's subject as issuer, and the last one
   certifies the builder's current key.
   */
  lemma {:induction false} RunsKeepChain(b: Builder, keys: seq<VerifyingKey>, stages: seq<Stage>)
    requires BuilderOk(b, keys)
    ensures RunStages(b, stages).Some?
    ensures BuilderOk(RunStages(b, stages).value, keys + NewKeys(stages))
    ensures RunStages(b, stages).value.evidence.rootLayer == b.evidence.rootLayer
    decreases |stages|
  {
    hide WithLayer, BuilderOk;
    if stages == [] {
      assert keys + [] == keys;
    } else {
      var next := RunStage(b, stages[0]);
      if stages[0].AddLayer? {
        LayerKeepsChain(b, keys, stages[0].additional, stages[0].newKey);
        RunsKeepChain(next.value, keys + [Public(stages[0].newKey)], stages[1..]);
        assert keys + [Public(stages[0].newKey)] + NewKeys(stages[1..]) == keys + NewKeys(stages);
      } else {
        RunsKeepChain(next.value, keys, stages[1..]);
        assert NewKeys(stages) == NewKeys(stages[1..]);
      }
    }
  }

  /** The stages without the hand-overs. */
  function LayersAdded(stages: seq<Stage>): seq<Stage>
  {
    if stages == [] then []
    else (if stages[0].AddLayer? then [stages[0]] else []) + LayersAdded(stages[1..])
  }

  /** Hand-overs change nothing, wherever they happen. */
  lemma {:induction false} HandOversVanish(b: Builder, stages: seq<Stage>)
    ensures RunStages(b, stages) == RunStages(b, LayersAdded(stages))
    decreases |stages|
  {
    hide WithLayer;
    if stages == [] {
    } else if stages[0].HandOver? {
      HandOversVanish(b, stages[1..]);
      assert LayersAdded(stages) == LayersAdded(stages[1..]);
    } else {
      var added, next := LayersAdded(stages), RunStage(b, stages[0]);
      assert added[0] == stages[0] && added[1..] == LayersAdded(stages[1..]);
      if next.Some? { HandOversVanish(next.value, stages[1..]); }
    }
  }
}
