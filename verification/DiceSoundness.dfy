/**
 What accepted evidence can say when honest keys have signed only what an honest boot
 made them sign: the measurements of that boot, and nothing put in their place.
 */
module DiceSoundness {
  import opened Bytes
  import opened Cose
  import opened Dice
  import opened DiceVerifier

  /** The certificates the verifier looks at. */
  function Presented(e: Evidence): seq<Blob>
    requires e.applicationKeys.Some?
  {
    e.layers + [e.applicationKeys.value.encryption, e.applicationKeys.value.signing]
  }

  /** Of all that is presented, `vk` has signed nothing but `made`. */
  ghost predicate SignedOnly(e: Evidence, vk: VerifyingKey, made: seq<Blob>)
    requires e.applicationKeys.Some?
  {
    forall b | b in Presented(e) && SignedBy(vk, b) :: b in made
  }

  /** The certificates of the last key, in any of the four places. */
  function Certificates(a: ApplicationKeys): seq<Blob>
  {
    [a.encryption, a.signing, a.groupEncryption, a.groupSigning]
  }

  /** The keys of an honest boot have signed nothing presented but the certificates of that boot. */
  ghost predicate KeysKept(e: Evidence, honest: Evidence, keys: seq<VerifyingKey>)
  {
    && e.applicationKeys.Some? && honest.applicationKeys.Some? && |keys| == |honest.layers| + 1
    && (forall i | 0 <= i < |honest.layers| :: SignedOnly(e, keys[i], [honest.layers[i]]))
    && SignedOnly(e, keys[|honest.layers|], Certificates(honest.applicationKeys.value))
  }

  /** No certificate is both for signing and for encryption. */
  lemma OneKindOfKey(b: Blob)
    ensures CertifiedKey(b).None? || EncryptionKeyOf(b).None?
  {
  }

  /** What a key on the chain has signed: the next layer, or both application certificates. */
  lemma NextSigned(e: Evidence, x: Extracted, chain: seq<VerifyingKey>, n: nat)
    requires Justified(e, x, chain) && n <= |e.layers|
    ensures n < |e.layers| ==>
              && e.layers[n] in Presented(e) && SignedBy(chain[n], e.layers[n])
              && CertifiedKey(e.layers[n]) == Some(chain[n + 1])
    ensures n == |e.layers| ==>
              var app := e.applicationKeys.value;
              && app.encryption in Presented(e) && SignedBy(chain[n], app.encryption)
              && app.signing in Presented(e) && SignedBy(chain[n], app.signing)
  {
    hide MeasuredFrom, EncryptionKeyOf, CertifiedKey, RootKey;
    var all, app := Presented(e), e.applicationKeys.value;
    assert all[|e.layers|] == app.encryption && all[|e.layers| + 1] == app.signing;
    if n < |e.layers| {
      assert Link(chain[n], e.layers[n], chain[n + 1]);
      assert all[n] == e.layers[n];
    }
  }

  /** The layers of the honest boot come first, whatever is presented. */
  lemma {:induction false} LayersForced(e: Evidence, x: Extracted, chain: seq<VerifyingKey>, honest: seq<Blob>,
                                        keys: seq<VerifyingKey>, n: nat)
    requires Justified(e, x, chain) && Chain(keys, honest) && keys[0] == chain[0] && n <= |honest|
    requires forall i | 0 <= i < |honest| :: SignedOnly(e, keys[i], [honest[i]])
    ensures n <= |e.layers| && e.layers[..n] == honest[..n] && chain[n] == keys[n]
  {
    if n == 0 {
    } else {
      LayersForced(e, x, chain, honest, keys, n - 1);
      NextSigned(e, x, chain, n - 1);
      assert SignedOnly(e, keys[n - 1], [honest[n - 1]]) && Link(keys[n - 1], honest[n - 1], keys[n - 1 + 1]);
      OneKindOfKey(honest[n - 1]);
      hide MeasuredFrom, EncryptionKeyOf, CertifiedKey, RootKey, SignedBy, Presented;
      assert n - 1 < |e.layers|;
      assert e.layers[n - 1] == honest[n - 1];
      assert e.layers[..n] == e.layers[..n - 1] + [e.layers[n - 1]];
    }
  }

  /**
   Nothing can be put in the place of an honest boot: evidence that starts at the same
   root key has its layers and, as application certificates, two of those its last key
   made; or it goes on from a signing key that the last key certified.
   */
  lemma NoSubstitution(e: Evidence, honest: Evidence, keys: seq<VerifyingKey>) returns (chain: seq<VerifyingKey>)
    requires VerifyDiceChain(e).Some? && honest.applicationKeys.Some? && Chain(keys, honest.layers)
    requires RootKey(e) == Some(keys[0]) && KeysKept(e, honest, keys)
    ensures Justified(e, VerifyDiceChain(e).value, chain)
    ensures |honest.layers| <= |e.layers| && e.layers[..|honest.layers|] == honest.layers
    ensures var n, made := |honest.layers|, Certificates(honest.applicationKeys.value);
            if |e.layers| == n
            then e.applicationKeys.value.encryption in made && e.applicationKeys.value.signing in made
            else e.layers[n] in made && CertifiedKey(e.layers[n]) == Some(chain[n + 1])
  {
    hide VerifyDiceChain;
    chain := ChainSound(e);
    var n := |honest.layers|;
    LayersForced(e, VerifyDiceChain(e).value, chain, honest.layers, keys, n);
    assert honest.layers[..n] == honest.layers;
    NextSigned(e, VerifyDiceChain(e).value, chain, n);
  }

  /** A key that has signed nothing presented is not in the middle of a chain. */
  lemma UnusedKeyEndsChain(e: Evidence, x: Extracted, chain: seq<VerifyingKey>, n: nat)
    requires Justified(e, x, chain) && n <= |e.layers|
    ensures !SignedOnly(e, chain[n], [])
  {
    NextSigned(e, x, chain, n);
  }

  /** What a builder's last key signs for the application and the group. */
  function Encryption(b: Builder, kem: Blob, claims: Claims): Blob
  {
    KemCert(b.signingKey, VerifyingKeyId(Public(b.signingKey)), kem, claims)
  }

  function Signing(b: Builder, vk: VerifyingKey, claims: Claims): Blob
  {
    SigningCert(b.signingKey, VerifyingKeyId(Public(b.signingKey)), vk, claims)
  }

  /** Of the four certificates only two carry each kind of key, and the group's carry no claims. */
  lemma WhichCertificate(last: Builder, keys: seq<VerifyingKey>, claims: Claims, b: Boot, c: Blob)
    requires BuilderOk(last, keys)
    requires var e := WithApplicationKeys(last, claims, b.kem, b.vk, b.groupKem, b.groupVk);
             e.Some? && e.value.applicationKeys.Some? && c in Certificates(e.value.applicationKeys.value)
    ensures EncryptionKeyOf(c).Some? ==>
              || (EncryptionKeyOf(c) == Some(b.kem) && c == Encryption(last, b.kem, claims))
              || (b.groupKem.Some? && EncryptionKeyOf(c) == b.groupKem && c == Encryption(last, b.groupKem.value, []))
    ensures CertifiedKey(c).Some? ==>
              || (CertifiedKey(c) == Some(b.vk) && c == Signing(last, b.vk, claims))
              || (b.groupVk.Some? && CertifiedKey(c) == b.groupVk && c == Signing(last, b.groupVk.value, []))
  {
    FinishedVerifies(last, keys, claims, b.kem, b.vk, b.groupKem, b.groupVk);
    var app := WithApplicationKeys(last, claims, b.kem, b.vk, b.groupKem, b.groupVk).value.applicationKeys.value;
    OneKindOfKey(app.encryption);
    OneKindOfKey(app.signing);
    OneKindOfKey(app.groupEncryption);
    OneKindOfKey(app.groupSigning);
    NoKeyInRaw();
    hide BuilderOk, WithApplicationKeys, EncryptionKeyOf, CertifiedKey, KemCert, SigningCert, SignedBy, FoldLayers,
      ClaimsOfCert, RootKey;
  }

  lemma NoKeyInRaw()
    ensures EncryptionKeyOf(Raw([])).None? && CertifiedKey(Raw([])).None?
  {
  }

  /** A certificate without additional claims measures nothing. */
  lemma NothingMeasured(sk: SigningKey, issuer: Id, kem: Blob, layers: seq<Blob>)
    ensures ExtractMeasured(layers, KemCert(sk, issuer, kem, [])) == Some(Cb)
  {
    KemCertCarriesKey(sk, issuer, kem, []);
    LayerAmongAdditional(issuer, HpkeKeyToCose(kem), KemKeyId(kem), [], CONTAINER_IMAGE_LAYER_ID);
    LayerAmongAdditional(issuer, HpkeKeyToCose(kem), KemKeyId(kem), [], ENCLAVE_APPLICATION_LAYER_ID);
    hide ClaimsOfCert, KemCert, HpkeKeyToCose, ClaimsFor, KernelOf, SystemOf;
  }

  /** The layers go on from a signing key that the last key certified. */
  predicate GoesOn(e: Evidence, last: Builder, claims: Claims, b: Boot, next: VerifyingKey)
  {
    var n := |last.evidence.layers|;
    && |e.layers| > n
    && ((next == b.vk && e.layers[n] == Signing(last, next, claims))
        || (Some(next) == b.groupVk && e.layers[n] == Signing(last, next, [])))
  }

  /** The application certificates are of those the last key signed. */
  predicate EndsThere(e: Evidence, x: Extracted, last: Builder, claims: Claims, b: Boot)
    requires e.applicationKeys.Some?
  {
    && e.layers == last.evidence.layers
    && (x.signingKey == b.vk || Some(x.signingKey) == b.groupVk)
    && var encryption := e.applicationKeys.value.encryption;
       || (x.encryptionKey == b.kem && encryption == Encryption(last, b.kem, claims))
       || (Some(x.encryptionKey) == b.groupKem && encryption == Encryption(last, x.encryptionKey, []))
  }

  /** `NoSubstitution` for the evidence a builder finishes, certificate by certificate. */
  lemma FinishedNotSubstituted(e: Evidence, last: Builder, keys: seq<VerifyingKey>, claims: Claims, b: Boot)
    returns (chain: seq<VerifyingKey>)
    requires VerifyDiceChain(e).Some? && BuilderOk(last, keys) && RootKey(e) == Some(keys[0])
    requires var honest := WithApplicationKeys(last, claims, b.kem, b.vk, b.groupKem, b.groupVk);
             honest.Some? && KeysKept(e, honest.value, keys)
    ensures Justified(e, VerifyDiceChain(e).value, chain)
    ensures var n := |last.evidence.layers|;
            && n <= |e.layers| == |chain| - 1 && e.layers[..n] == last.evidence.layers
            && if |e.layers| == n then EndsThere(e, VerifyDiceChain(e).value, last, claims, b)
               else GoesOn(e, last, claims, b, chain[n + 1])
  {
    hide KeysKept, EncryptionKeyOf, CertifiedKey, KemCert, SigningCert, SignedBy, ClaimsOfCert, RootKey, Link,
      WithApplicationKeys, MeasuredFrom, VerifyDiceChain, FoldLayers, Names, Certificates;
    var honest := WithApplicationKeys(last, claims, b.kem, b.vk, b.groupKem, b.groupVk).value;
    FinishedVerifies(last, keys, claims, b.kem, b.vk, b.groupKem, b.groupVk);
    chain := NoSubstitution(e, honest, keys);
    var n := |last.evidence.layers|;
    if |e.layers| == n {
      assert e.layers[..n] == e.layers;
      WhichCertificate(last, keys, claims, b, e.applicationKeys.value.encryption);
      WhichCertificate(last, keys, claims, b, e.applicationKeys.value.signing);
    } else {
      WhichCertificate(last, keys, claims, b, e.layers[n]);
    }
  }

  lemma ManyLayersMeasureNothing(layers: seq<Blob>, encryption: Blob)
    requires |layers| > 1 && ClaimsOfCert(encryption).Some?
    requires |layers| == 2 ==> SystemOf(layers[1]).None?
    ensures ExtractMeasured(layers, encryption) ==
            if ContainerOf(encryption).None? && ApplicationOf(encryption).None? then Some(Cb) else None
  {
    hide ExtractFinal, KernelOf, SystemOf, ClaimsOfCert;
  }

  lemma MeasuredIs(e: Evidence)
    requires VerifyDiceChain(e).Some?
    ensures e.applicationKeys.Some? && ClaimsOfCert(e.applicationKeys.value.encryption).Some?
    ensures ExtractMeasured(e.layers, e.applicationKeys.value.encryption) == Some(VerifyDiceChain(e).value.measured)
  {
    hide ExtractFinal, KernelOf, SystemOf, EncryptionKeyOf, CertifiedKey, FoldLayers, SignedBy, RootKey;
  }

  /**
   Evidence that starts at the root key of a boot of Oak Containers tells what that boot
   measured, with its keys; or it tells nothing, because its encryption certificate is
   the group's, or because its layers go on from the application's own signing key.
   */
  lemma ContainersNotSubstituted(e: Evidence, b: Boot, image: Blob, k2: SigningKey, bundle: Blob, config: Blob)
    returns (chain: seq<VerifyingKey>)
    requires IsContainersBoot(b, image, k2) && VerifyDiceChain(e).Some? && RootKey(e) == Some(Public(b.k0))
    requires var honest := BootEvidence(b, ContainerClaims(bundle, config));
             honest.Some? && KeysKept(e, honest.value, [Public(b.k0), Public(b.k1), Public(k2)])
    ensures Justified(e, VerifyDiceChain(e).value, chain) && |e.layers| >= 2
    ensures var x := VerifyDiceChain(e).value;
            if |e.layers| > 2 then x.measured == Cb && (chain[3] == b.vk || Some(chain[3]) == b.groupVk)
            else && (x.signingKey == b.vk || Some(x.signingKey) == b.groupVk)
                 && ((x.measured == OakContainers(b.kernel, image, bundle, config) && x.encryptionKey == b.kem)
                     || (x.measured == Cb && Some(x.encryptionKey) == b.groupKem))
  {
    hide Stage0, RunStages, LayersAdded, KernelClaims, SystemClaims, ContainerClaims, SigningCert, KemCert, KeysKept,
      ExtractMeasured, VerifyDiceChain, RootKey, WithApplicationKeys, Justified, BuilderOk;
    ContainersLayers(b, image, k2);
    var last := RunStages(Stage0(b.kernel, b.k0, b.k1, b.platform, b.report), b.stages).value;
    var keys, claims := [Public(b.k0), Public(b.k1), Public(k2)], ContainerClaims(bundle, config);
    chain := FinishedNotSubstituted(e, last, keys, claims, b);
    MeasuredIs(e);
    if |e.layers| == 2 {
      ContainersMeasured(b.kernel, image, bundle, config, b.k0, b.k1, k2, b.kem);
      if b.groupKem.Some? { NothingMeasured(k2, VerifyingKeyId(Public(k2)), b.groupKem.value, e.layers); }
    } else {
      ManyLayersMeasureNothing(e.layers, e.applicationKeys.value.encryption);
    }
  }

  lemma LayerClaimsNoSystem(sk: SigningKey, issuer: Id, vk: VerifyingKey, claims: Claims)
    requires FindLayer(claims, SYSTEM_IMAGE_LAYER_ID).None?
    ensures SystemOf(SigningCert(sk, issuer, vk, claims)).None?
  {
    SigningCertLinks(sk, issuer, vk, claims);
    LayerAmongAdditional(issuer, VerifyingKeyToCose(vk), VerifyingKeyId(vk), claims, SYSTEM_IMAGE_LAYER_ID);
    hide ClaimsOfCert, SigningCert, VerifyingKeyToCose, ClaimsFor;
  }

  /** Neither layer after an enclave application's kernel is a system layer. */
  lemma NoSystemLayer(sk: SigningKey, issuer: Id, vk: VerifyingKey, binary: Blob)
    ensures SystemOf(SigningCert(sk, issuer, vk, ApplicationClaims(binary))).None?
    ensures SystemOf(SigningCert(sk, issuer, vk, [])).None?
  {
    assert ApplicationClaims(binary)[1..] == [];
    LayerClaimsNoSystem(sk, issuer, vk, ApplicationClaims(binary));
    LayerClaimsNoSystem(sk, issuer, vk, []);
  }

  /** Likewise for an enclave application on the restricted kernel. */
  lemma RestrictedKernelNotSubstituted(e: Evidence, b: Boot, binary: Blob) returns (chain: seq<VerifyingKey>)
    requires IsRestrictedKernelBoot(b) && VerifyDiceChain(e).Some? && RootKey(e) == Some(Public(b.k0))
    requires var honest := BootEvidence(b, ApplicationClaims(binary));
             honest.Some? && KeysKept(e, honest.value, [Public(b.k0), Public(b.k1)])
    ensures Justified(e, VerifyDiceChain(e).value, chain) && |e.layers| >= 1
    ensures var x := VerifyDiceChain(e).value;
            if |e.layers| > 1 then x.measured == Cb && (chain[2] == b.vk || Some(chain[2]) == b.groupVk)
            else && (x.signingKey == b.vk || Some(x.signingKey) == b.groupVk)
                 && ((x.measured == OakRestrictedKernel(b.kernel, binary, Raw([])) && x.encryptionKey == b.kem)
                     || (x.measured == Cb && Some(x.encryptionKey) == b.groupKem))
  {
    hide Stage0, RunStages, LayersAdded, KernelClaims, FinalClaims, SigningCert, KemCert, KeysKept, SystemOf,
      ExtractMeasured, VerifyDiceChain, RootKey, WithApplicationKeys, Justified, BuilderOk;
    RestrictedKernelLayers(b);
    var last := RunStages(Stage0(b.kernel, b.k0, b.k1, b.platform, b.report), b.stages).value;
    var keys, claims, id := [Public(b.k0), Public(b.k1)], ApplicationClaims(binary), VerifyingKeyId(Public(b.k1));
    chain := FinishedNotSubstituted(e, last, keys, claims, b);
    MeasuredIs(e);
    if |e.layers| == 1 {
      RestrictedKernelMeasured(b.kernel, binary, b.k0, b.k1, b.kem);
      if b.groupKem.Some? { NothingMeasured(b.k1, id, b.groupKem.value, e.layers); }
    } else {
      NoSystemLayer(b.k1, id, chain[2], binary);
      ManyLayersMeasureNothing(e.layers, e.applicationKeys.value.encryption);
    }
  }

  /**
   The root of accepted evidence on a genuine chip: if the authority has certified this
   chip only, the chip has signed this report only, and the presented root key does not
   collide with the real one, then report and root key are the real ones.
   */
  lemma RootForced(root: RootLayer, vcek: Option<Vcek>, ask: nat, sha: Blob -> seq<byte>, chip: Vcek, b: Boot)
    requires VerifyRoot(root, vcek, ask, sha) && root.platform.AmdSevSnp? && OnChip(b, chip, sha)
    requires RootUnforged(root, vcek, ask, sha, chip, b)
    ensures root.report == b.report && root.ecaPublicKey == KeyBlob(VerifyingKeyToCose(Public(b.k0)))
  {
    var genuine := sha(KeyBlob(VerifyingKeyToCose(Public(b.k0))));
    assert (genuine + seq(32, _ => 0))[..32] == genuine;
  }

  ghost predicate RootUnforged(root: RootLayer, vcek: Option<Vcek>, ask: nat, sha: Blob -> seq<byte>,
                               chip: Vcek, b: Boot)
  {
    var genuine := KeyBlob(VerifyingKeyToCose(Public(b.k0)));
    && (vcek.Some? && vcek.value.signer == Some(ask) ==> vcek.value == chip)
    && (root.report.signer == Some(chip.key) ==> root.report.signed == b.report.body)
    && |sha(genuine)| == |sha(root.ecaPublicKey)| == 32
    && (sha(root.ecaPublicKey) == sha(genuine) ==> root.ecaPublicKey == genuine)
  }

  /**
   From the chip to the application: whatever evidence is accepted on an AMD SEV-SNP root,
   if the keys of a boot of Oak Containers have signed only what that boot made them sign,
   the verifier returns its report, and its measurements and keys or no measurement.
   */
  lemma ContainersUnforgeable(e: Evidence, vcek: Option<Vcek>, ask: nat, sha: Blob -> seq<byte>,
                              matches: Extracted -> bool, chip: Vcek,
                              b: Boot, image: Blob, k2: SigningKey, bundle: Blob, config: Blob)
    requires Verify(e, vcek, ask, sha, matches).Some? && e.rootLayer.value.platform.AmdSevSnp?
    requires IsContainersBoot(b, image, k2) && OnChip(b, chip, sha)
    requires RootUnforged(e.rootLayer.value, vcek, ask, sha, chip, b)
    requires var honest := BootEvidence(b, ContainerClaims(bundle, config));
             honest.Some? && KeysKept(e, honest.value, [Public(b.k0), Public(b.k1), Public(k2)])
    ensures var x := Verify(e, vcek, ask, sha, matches).value;
            && x.report == b.report
            && (x.measured != Cb ==>
                  && x.measured == OakContainers(b.kernel, image, bundle, config)
                  && x.encryptionKey == b.kem && (x.signingKey == b.vk || Some(x.signingKey) == b.groupVk))
  {
    hide VerifyDiceChain, BootEvidence, KeysKept, LayersAdded, VerifyRoot, OnChip, RootUnforged,
      ContainerClaims, SystemClaims, VerifyingKeyToCose, CoseToVerifyingKey;
    RootForced(e.rootLayer.value, vcek, ask, sha, chip, b);
    KeyConversions(Public(b.k0), Raw([]));
    var chain := ContainersNotSubstituted(e, b, image, k2, bundle, config);
  }

  /** Likewise for an enclave application on the restricted kernel. */
  lemma RestrictedKernelUnforgeable(e: Evidence, vcek: Option<Vcek>, ask: nat, sha: Blob -> seq<byte>,
                                    matches: Extracted -> bool, chip: Vcek, b: Boot, binary: Blob)
    requires Verify(e, vcek, ask, sha, matches).Some? && e.rootLayer.value.platform.AmdSevSnp?
    requires IsRestrictedKernelBoot(b) && OnChip(b, chip, sha)
    requires RootUnforged(e.rootLayer.value, vcek, ask, sha, chip, b)
    requires var honest := BootEvidence(b, ApplicationClaims(binary));
             honest.Some? && KeysKept(e, honest.value, [Public(b.k0), Public(b.k1)])
    ensures var x := Verify(e, vcek, ask, sha, matches).value;
            && x.report == b.report
            && (x.measured != Cb ==>
                  && x.measured == OakRestrictedKernel(b.kernel, binary, Raw([]))
                  && x.encryptionKey == b.kem && (x.signingKey == b.vk || Some(x.signingKey) == b.groupVk))
  {
    hide VerifyDiceChain, BootEvidence, KeysKept, LayersAdded, VerifyRoot, OnChip, RootUnforged,
      FinalClaims, VerifyingKeyToCose, CoseToVerifyingKey;
    RootForced(e.rootLayer.value, vcek, ask, sha, chip, b);
    KeyConversions(Public(b.k0), Raw([]));
    var chain := RestrictedKernelNotSubstituted(e, b, binary);
  }

  /** The expected values are of a kind that evidence without a measurement never matches. */
  ghost predicate ExpectsMeasurement(matches: Extracted -> bool)
  {
    forall x: Extracted | x.measured.Cb? :: !matches(x)
  }

  /** Expected values by the kind of chain they are for, with their comparison. */
  datatype Expected =
    | ExpectedContainers(compare: Extracted -> bool)
    | ExpectedRestrictedKernel(compare: Extracted -> bool)
    | ExpectedCb(compare: Extracted -> bool)

  /** `compare_expected_values`: the kinds must agree before anything is compared. */
  predicate CompareExpected(x: Extracted, expected: Expected)
  {
    match expected
    case ExpectedContainers(compare) => x.measured.OakContainers? && compare(x)
    case ExpectedRestrictedKernel(compare) => x.measured.OakRestrictedKernel? && compare(x)
    case ExpectedCb(compare) => x.measured.Cb? && compare(x)
  }

  /** Whatever is accepted is of the kind that was expected, and compared as expected. */
  lemma ExpectedKindOnly(e: Evidence, vcek: Option<Vcek>, ask: nat, sha: Blob -> seq<byte>, expected: Expected)
    requires Verify(e, vcek, ask, sha, x => CompareExpected(x, expected)).Some?
    ensures var x := Verify(e, vcek, ask, sha, x => CompareExpected(x, expected)).value;
            && (x.measured.OakContainers? <==> expected.ExpectedContainers?)
            && (x.measured.OakRestrictedKernel? <==> expected.ExpectedRestrictedKernel?)
            && (x.measured.Cb? <==> expected.ExpectedCb?)
            && expected.compare(x)
  {
    hide VerifyDiceChain, VerifyRoot;
  }

  /** An honest boot of Oak Containers is accepted exactly against expected values of Oak Containers that it meets. */
  lemma HonestContainersExpected(b: Boot, image: Blob, k2: SigningKey, bundle: Blob, config: Blob,
                                 vcek: Option<Vcek>, ask: nat, sha: Blob -> seq<byte>, expected: Expected)
    requires IsContainersBoot(b, image, k2) && Genuine(b, vcek, ask, sha)
    ensures var e := BootEvidence(b, ContainerClaims(bundle, config));
            var x := Extracted(b.report, OakContainers(b.kernel, image, bundle, config), b.kem, b.vk);
            && e.Some?
            && Verify(e.value, vcek, ask, sha, y => CompareExpected(y, expected)) ==
               if expected.ExpectedContainers? && expected.compare(x) then Some(x) else None
  {
    hide Verify, BootEvidence, Genuine, IsContainersBoot;
    HonestContainersVerify(b, image, k2, bundle, config, vcek, ask, sha, y => CompareExpected(y, expected));
  }

  lemma HonestRestrictedKernelExpected(b: Boot, binary: Blob, vcek: Option<Vcek>, ask: nat, sha: Blob -> seq<byte>,
                                       expected: Expected)
    requires IsRestrictedKernelBoot(b) && Genuine(b, vcek, ask, sha)
    ensures var e := BootEvidence(b, ApplicationClaims(binary));
            var x := Extracted(b.report, OakRestrictedKernel(b.kernel, binary, Raw([])), b.kem, b.vk);
            && e.Some?
            && Verify(e.value, vcek, ask, sha, y => CompareExpected(y, expected)) ==
               if expected.ExpectedRestrictedKernel? && expected.compare(x) then Some(x) else None
  {
    hide Verify, BootEvidence, Genuine, IsRestrictedKernelBoot;
    HonestRestrictedKernelVerify(b, binary, vcek, ask, sha, y => CompareExpected(y, expected));
  }

  /** Expected values of Oak Containers or the restricted kernel match no evidence without a measurement. */
  lemma KindsMustAgree(expected: Expected)
    requires !expected.ExpectedCb?
    ensures ExpectsMeasurement(x => CompareExpected(x, expected))
  {
  }

  /**
   A relying party that expects Oak Containers or the restricted kernel gets, for every
   boot and whatever is presented, the measurements and keys of that boot or a refusal.
   */
  lemma ContainersExactly(e: Evidence, vcek: Option<Vcek>, ask: nat, sha: Blob -> seq<byte>,
                          matches: Extracted -> bool, chip: Vcek,
                          b: Boot, image: Blob, k2: SigningKey, bundle: Blob, config: Blob)
    requires ExpectsMeasurement(matches)
    requires Verify(e, vcek, ask, sha, matches).Some? && e.rootLayer.value.platform.AmdSevSnp?
    requires IsContainersBoot(b, image, k2) && OnChip(b, chip, sha)
    requires RootUnforged(e.rootLayer.value, vcek, ask, sha, chip, b)
    requires var honest := BootEvidence(b, ContainerClaims(bundle, config));
             honest.Some? && KeysKept(e, honest.value, [Public(b.k0), Public(b.k1), Public(k2)])
    ensures var x := Verify(e, vcek, ask, sha, matches).value;
            && x.report == b.report && x.measured == OakContainers(b.kernel, image, bundle, config)
            && x.encryptionKey == b.kem && (x.signingKey == b.vk || Some(x.signingKey) == b.groupVk)
  {
    hide VerifyDiceChain, BootEvidence, KeysKept, VerifyRoot, OnChip, RootUnforged, IsContainersBoot;
    ContainersUnforgeable(e, vcek, ask, sha, matches, chip, b, image, k2, bundle, config);
  }

  lemma RestrictedKernelExactly(e: Evidence, vcek: Option<Vcek>, ask: nat, sha: Blob -> seq<byte>,
                                matches: Extracted -> bool, chip: Vcek, b: Boot, binary: Blob)
    requires ExpectsMeasurement(matches)
    requires Verify(e, vcek, ask, sha, matches).Some? && e.rootLayer.value.platform.AmdSevSnp?
    requires IsRestrictedKernelBoot(b) && OnChip(b, chip, sha)
    requires RootUnforged(e.rootLayer.value, vcek, ask, sha, chip, b)
    requires var honest := BootEvidence(b, ApplicationClaims(binary));
             honest.Some? && KeysKept(e, honest.value, [Public(b.k0), Public(b.k1)])
    ensures var x := Verify(e, vcek, ask, sha, matches).value;
            && x.report == b.report && x.measured == OakRestrictedKernel(b.kernel, binary, Raw([]))
            && x.encryptionKey == b.kem && (x.signingKey == b.vk || Some(x.signingKey) == b.groupVk)
  {
    hide VerifyDiceChain, BootEvidence, KeysKept, VerifyRoot, OnChip, RootUnforged, IsRestrictedKernelBoot;
    RestrictedKernelUnforgeable(e, vcek, ask, sha, matches, chip, b, binary);
  }

  /**
   Evidence without a measurement is presented with the group's encryption certificate,
   or has been signed with a signing key of the application or the group.
   */
  lemma NoMeasurementExplained(e: Evidence, b: Boot, image: Blob, k2: SigningKey, bundle: Blob, config: Blob)
    requires IsContainersBoot(b, image, k2) && VerifyDiceChain(e).Some? && RootKey(e) == Some(Public(b.k0))
    requires var honest := BootEvidence(b, ContainerClaims(bundle, config));
             honest.Some? && KeysKept(e, honest.value, [Public(b.k0), Public(b.k1), Public(k2)])
    requires VerifyDiceChain(e).value.measured == Cb
    ensures e.applicationKeys.Some?
    ensures || Some(VerifyDiceChain(e).value.encryptionKey) == b.groupKem
            || !SignedOnly(e, b.vk, [])
            || (b.groupVk.Some? && !SignedOnly(e, b.groupVk.value, []))
  {
    hide VerifyDiceChain, BootEvidence, LayersAdded, RootKey, SignedOnly, ContainerClaims, SystemClaims;
    var chain := ContainersNotSubstituted(e, b, image, k2, bundle, config);
    if |e.layers| > 2 { UnusedKeyEndsChain(e, VerifyDiceChain(e).value, chain, 3); }
  }

  lemma SignedByItsKey(vk: VerifyingKey, sk: SigningKey, issuer: Id, key: VerifyingKey, kem: Blob, claims: Claims)
    ensures SignedBy(vk, SigningCert(sk, issuer, key, claims)) ==> vk == Public(sk)
    ensures SignedBy(vk, KemCert(sk, issuer, kem, claims)) ==> vk == Public(sk)
  {
  }

  /** On its own chip the root of a boot is what `RootUnforged` asks for. */
  lemma HonestRootQualifies(b: Boot, chip: Vcek, ask: nat, sha: Blob -> seq<byte>, root: RootLayer)
    requires OnChip(b, chip, sha) && |sha(KeyBlob(VerifyingKeyToCose(Public(b.k0))))| == 32
    requires root == RootLayer(AmdSevSnp, b.report, KeyBlob(VerifyingKeyToCose(Public(b.k0))))
    ensures RootUnforged(root, Some(chip), ask, sha, chip, b)
  {
  }

  /** The evidence of the boot itself meets what the theorems ask for, when the keys of its layers are different. */
  lemma HonestContainersQualify(b: Boot, image: Blob, k2: SigningKey, bundle: Blob, config: Blob)
    requires IsContainersBoot(b, image, k2) && b.k0 != b.k1 && b.k0 != k2 && b.k1 != k2
    ensures var honest := BootEvidence(b, ContainerClaims(bundle, config));
            && honest.Some? && KeysKept(honest.value, honest.value, [Public(b.k0), Public(b.k1), Public(k2)])
            && honest.value.rootLayer ==
               Some(RootLayer(b.platform, b.report, KeyBlob(VerifyingKeyToCose(Public(b.k0)))))
  {
    hide Stage0, RunStages, LayersAdded, KernelClaims, SystemClaims, ContainerClaims, SigningCert, KemCert, SignedBy,
      EncryptionKeyOf, CertifiedKey, FoldLayers, RootKey, BuilderOk, WithApplicationKeys, ClaimsOfCert;
    ContainersLayers(b, image, k2);
    var keys, claims := [Public(b.k0), Public(b.k1), Public(k2)], ContainerClaims(bundle, config);
    var last := RunStages(Stage0(b.kernel, b.k0, b.k1, b.platform, b.report), b.stages).value;
    FinishedVerifies(last, keys, claims, b.kem, b.vk, b.groupKem, b.groupVk);
    var e := BootEvidence(b, claims).value;
    var all, made := Presented(e), Certificates(e.applicationKeys.value);
    assert all == [e.layers[0], e.layers[1], e.applicationKeys.value.encryption, e.applicationKeys.value.signing];
    assert made[0] == all[2] && made[1] == all[3];
    forall vk ensures SignedBy(vk, all[0]) ==> vk == Public(b.k0)
              ensures SignedBy(vk, all[1]) ==> vk == Public(b.k1)
              ensures SignedBy(vk, all[2]) ==> vk == Public(k2)
              ensures SignedBy(vk, all[3]) ==> vk == Public(k2)
    {
      SignedByItsKey(vk, b.k0, VerifyingKeyId(Public(b.k0)), Public(b.k1), b.kem, KernelClaims(b.kernel));
      SignedByItsKey(vk, b.k1, VerifyingKeyId(Public(b.k1)), Public(k2), b.kem, SystemClaims(image));
      SignedByItsKey(vk, k2, VerifyingKeyId(Public(k2)), b.vk, b.kem, claims);
    }
  }

  lemma HonestRestrictedKernelQualifies(b: Boot, binary: Blob)
    requires IsRestrictedKernelBoot(b) && b.k0 != b.k1
    ensures var honest := BootEvidence(b, ApplicationClaims(binary));
            && honest.Some? && KeysKept(honest.value, honest.value, [Public(b.k0), Public(b.k1)])
            && honest.value.rootLayer ==
               Some(RootLayer(b.platform, b.report, KeyBlob(VerifyingKeyToCose(Public(b.k0)))))
  {
    hide Stage0, RunStages, LayersAdded, KernelClaims, FinalClaims, SigningCert, KemCert, SignedBy,
      EncryptionKeyOf, CertifiedKey, FoldLayers, RootKey, BuilderOk, WithApplicationKeys, ClaimsOfCert;
    RestrictedKernelLayers(b);
    var keys, claims := [Public(b.k0), Public(b.k1)], ApplicationClaims(binary);
    var last := RunStages(Stage0(b.kernel, b.k0, b.k1, b.platform, b.report), b.stages).value;
    FinishedVerifies(last, keys, claims, b.kem, b.vk, b.groupKem, b.groupVk);
    var e := BootEvidence(b, claims).value;
    var all, made := Presented(e), Certificates(e.applicationKeys.value);
    assert all == [e.layers[0], e.applicationKeys.value.encryption, e.applicationKeys.value.signing];
    assert made[0] == all[1] && made[1] == all[2];
    forall vk ensures SignedBy(vk, all[0]) ==> vk == Public(b.k0)
              ensures SignedBy(vk, all[1]) ==> vk == Public(b.k1)
              ensures SignedBy(vk, all[2]) ==> vk == Public(b.k1)
    {
      SignedByItsKey(vk, b.k0, VerifyingKeyId(Public(b.k0)), Public(b.k1), b.kem, KernelClaims(b.kernel));
      SignedByItsKey(vk, b.k1, VerifyingKeyId(Public(b.k1)), b.vk, b.kem, claims);
    }
  }

  /**
   What happens when the application's signing key goes on signing. Its certificate has
   the form of a layer's and key usage is not looked at, so the chain is accepted; but
   evidence so continued is refused if it claims a container or an application, and
   otherwise is returned as `Cb`, which holds no measurement.
   */
  lemma ContinuedClaimsNothing(last: Builder, keys: seq<VerifyingKey>, claims: Claims, kem: Blob, key: SigningKey,
                               more: Claims, kem': Blob, vk': VerifyingKey)
    requires BuilderOk(last, keys) && last.evidence.rootLayer.Some? && last.evidence.rootLayer.value.report.wellFormed
    requires last.evidence.rootLayer.value.platform.AmdSevSnp? || last.evidence.rootLayer.value.platform.NoTee?
    requires |last.evidence.layers| == 1 ==> FindLayer(claims, SYSTEM_IMAGE_LAYER_ID).None?
    ensures var honest, next := WithApplicationKeys(last, claims, kem, Public(key), None, None),
                                WithLayer(last, claims, key);
            && honest.Some? && honest.value.applicationKeys.Some? && next.Some?
            && next.value.evidence.layers == honest.value.layers + [honest.value.applicationKeys.value.signing]
            && var e := WithApplicationKeys(next.value, more, kem', vk', None, None);
               && e.Some? && e.value.applicationKeys.Some?
               && var encryption := e.value.applicationKeys.value.encryption;
                  VerifyDiceChain(e.value) ==
                    if ContainerOf(encryption).None? && ApplicationOf(encryption).None?
                    then Some(Extracted(last.evidence.rootLayer.value.report, Cb, kem', vk')) else None
  {
    hide Link, Names, NextIssuer, SigningCert, KemCert, ClaimsOfCert, EncryptionKeyOf, CertifiedKey, FoldLayers,
      SignedBy, RootKey, KernelOf, SystemOf, ContainerOf, ApplicationOf, ExtractMeasured;
    FinishedVerifies(last, keys, claims, kem, Public(key), None, None);
    LayerKeepsChain(last, keys, claims, key);
    NextIssuerIs(last, keys);
    var next := WithLayer(last, claims, key).value;
    FinishedVerifies(next, keys + [Public(key)], more, kem', vk', None, None);
    if |next.evidence.layers| == 2 {
      LayerClaimsNoSystem(last.signingKey, VerifyingKeyId(Public(last.signingKey)), Public(key), claims);
    }
    ManyLayersMeasureNothing(next.evidence.layers, Encryption(next, kem', more));
    var e := WithApplicationKeys(next, more, kem', vk', None, None).value;
    assert FoldLayers(RootKey(e).value, e.layers) == Some(Public(key));
    assert VerifyDiceChain(e) == ExtractEvidence(e);
  }
}
