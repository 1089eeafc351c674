/** Verification of DICE evidence and extraction of keys and measurements from it. */
module DiceVerifier {
  import opened Bytes
  import opened Cose
  import opened Dice

  const KERNEL_LAYER_ID := -4670555
  const ENCLAVE_APPLICATION_LAYER_ID := -4670556
  const SYSTEM_IMAGE_LAYER_ID := -4670557
  const CONTAINER_IMAGE_LAYER_ID := -4670559
  const KERNEL_MEASUREMENT_ID := -4670561
  const KERNEL_COMMANDLINE_MEASUREMENT_ID := -4670562
  const SETUP_DATA_MEASUREMENT_ID := -4670563
  const INITRD_MEASUREMENT_ID := -4670564
  const MEMORY_MAP_MEASUREMENT_ID := -4670565
  const ACPI_MEASUREMENT_ID := -4670566
  const LAYER_2_CODE_MEASUREMENT_ID := -4670567
  const LAYER_3_CODE_MEASUREMENT_ID := -4670569
  const FINAL_LAYER_CONFIG_MEASUREMENT_ID := -4670570
  const SHA2_256_ID := -4670572
  const KERNEL_COMMANDLINE_ID := -4670573

  /** Follows the signatures from a key through the layers to the last key. */
  function FoldLayers(vk: VerifyingKey, layers: seq<Blob>): Option<VerifyingKey>
    decreases |layers|
  {
    if layers == [] then Some(vk)
    else
      var cert := CertFromBlob(layers[0]);
      if cert.None? || !Verifies(vk, ContentsOf(cert.value), cert.value.signature) then None
      else
        var next := CertifiedKey(layers[0]);
        if next.None? then None else FoldLayers(next.value, layers[1..])
  }

  predicate SignedBy(vk: VerifyingKey, b: Blob)
  {
    b.CertBlob? && Verifies(vk, ContentsOf(b.cert), b.cert.signature)
  }

  /** The first claim with the private-use label that is a map. */
  function FindLayer(rest: Claims, id: int): Option<seq<(Value, Value)>>
  {
    if rest == [] then None
    else if rest[0].0 == PrivateUse(id) && rest[0].1.Map? then Some(rest[0].1.entries)
    else FindLayer(rest[1..], id)
  }

  function FindValue(values: seq<(Value, Value)>, id: int): Option<Value>
  {
    if values == [] then None
    else if values[0].0 == Integer(id) then Some(values[0].1)
    else FindValue(values[1..], id)
  }

  /** The SHA2-256 digest in a map of digests, empty if there is none; the last one counts. */
  function DigestFrom(entries: seq<(Value, Value)>, digest: Blob): Option<Blob>
  {
    if entries == [] then Some(digest)
    else if entries[0].0 == Integer(SHA2_256_ID) && entries[0].1.Bytes? then DigestFrom(entries[1..], entries[0].1.blob)
    else None
  }

  function RawDigest(value: Value): Option<Blob>
  {
    if value.Map? then DigestFrom(value.entries, Raw([])) else None
  }

  predicate IsDigest(entry: (Value, Value))
  {
    entry.0 == Integer(SHA2_256_ID) && entry.1.Bytes?
  }

  /** Every entry must be a SHA2-256 byte string, and the last one counts. */
  lemma {:induction false} LastDigestCounts(entries: seq<(Value, Value)>, digest: Blob)
    ensures DigestFrom(entries, digest).Some? <==> forall i | 0 <= i < |entries| :: IsDigest(entries[i])
    ensures DigestFrom(entries, digest).Some? ==>
              DigestFrom(entries, digest).value == if entries == [] then digest else entries[|entries| - 1].1.blob
  {
    if entries == [] {
    } else if IsDigest(entries[0]) {
      var rest := entries[1..];
      LastDigestCounts(rest, entries[0].1.blob);
      assert forall i | 0 < i < |entries| :: entries[i] == rest[i - 1];
      assert forall i | 0 <= i < |rest| :: rest[i] == entries[i + 1];
    }
  }

  /** `value_to_raw_digest`: goes through the map and fails on anything but a SHA2-256 byte string. */
  method ValueToRawDigest(value: Value) returns (r: Option<Blob>)
    ensures r == RawDigest(value)
    ensures r.Some? <==> value.Map? && forall i | 0 <= i < |value.entries| :: IsDigest(value.entries[i])
    ensures r.Some? ==>
              r.value == if value.entries == [] then Raw([]) else value.entries[|value.entries| - 1].1.blob
  {
    if !value.Map? {
      return None;
    }
    LastDigestCounts(value.entries, Raw([]));
    var result := Raw([]);
    var i := 0;
    while i < |value.entries|
      invariant 0 <= i <= |value.entries|
      invariant DigestFrom(value.entries[i..], result) == RawDigest(value)
    {
      var entry := value.entries[i];
      assert value.entries[i..][1..] == value.entries[i + 1..];
      if !entry.1.Bytes? || entry.0 != Integer(SHA2_256_ID) {
        return None;
      }
      result := entry.1.blob;
      i := i + 1;
    }
    return Some(result);
  }

  function DigestOf(values: seq<(Value, Value)>, id: int): Option<Blob>
  {
    var v := FindValue(values, id);
    if v.None? then None else RawDigest(v.value)
  }

  datatype KernelLayer = KernelLayer(kernelImage: Blob, setupData: Blob, cmdLine: Blob, rawCmdLine: Option<string>,
                                     initRamFs: Blob, memoryMap: Blob, acpi: Blob)

  datatype Measured =
    | OakContainers(kernel: KernelLayer, systemImage: Blob, bundle: Blob, config: Blob)
    | OakRestrictedKernel(kernel: KernelLayer, binary: Blob, config: Blob)
    | Cb

  datatype Extracted = Extracted(report: Report, measured: Measured, encryptionKey: Blob, signingKey: VerifyingKey)

  /** A raw command line that is not text is rejected. */
  function ExtractKernel(claims: ClaimsSet): Option<KernelLayer>
  {
    var layer := FindLayer(claims.rest, KERNEL_LAYER_ID);
    if layer.None? then None
    else
      var vs := layer.value;
      var image, setup := DigestOf(vs, KERNEL_MEASUREMENT_ID), DigestOf(vs, SETUP_DATA_MEASUREMENT_ID);
      var cmd, raw := DigestOf(vs, KERNEL_COMMANDLINE_MEASUREMENT_ID), FindValue(vs, KERNEL_COMMANDLINE_ID);
      var initrd, memory := DigestOf(vs, INITRD_MEASUREMENT_ID), DigestOf(vs, MEMORY_MAP_MEASUREMENT_ID);
      var acpi := DigestOf(vs, ACPI_MEASUREMENT_ID);
      if image.None? || setup.None? || cmd.None? || initrd.None? || memory.None? || acpi.None? then None
      else if raw.Some? && !raw.value.Text? then None
      else Some(KernelLayer(image.value, setup.value, cmd.value, if raw.Some? then Some(raw.value.text) else None,
                            initrd.value, memory.value, acpi.value))
  }

  function ExtractSystem(claims: ClaimsSet): Option<Blob>
  {
    var layer := FindLayer(claims.rest, SYSTEM_IMAGE_LAYER_ID);
    if layer.None? then None else DigestOf(layer.value, LAYER_2_CODE_MEASUREMENT_ID)
  }

  /** Two measurements of a final layer: code and configuration. */
  function ExtractFinal(claims: ClaimsSet, layerId: int, codeId: int): Option<(Blob, Blob)>
  {
    var layer := FindLayer(claims.rest, layerId);
    if layer.None? then None
    else
      var code := DigestOf(layer.value, codeId);
      var config := DigestOf(layer.value, FINAL_LAYER_CONFIG_MEASUREMENT_ID);
      if code.None? || config.None? then None else Some((code.value, config.value))
  }

  function KernelOf(layer: Blob): Option<KernelLayer>
  {
    var claims := ClaimsOfCert(layer);
    if claims.None? then None else ExtractKernel(claims.value)
  }

  function SystemOf(layer: Blob): Option<Blob>
  {
    var claims := ClaimsOfCert(layer);
    if claims.None? then None else ExtractSystem(claims.value)
  }

  /** The kind of evidence is decided by the claims of the encryption certificate. */
  function ExtractMeasured(layers: seq<Blob>, encryption: Blob): Option<Measured>
  {
    var final := ClaimsOfCert(encryption);
    if final.None? then None
    else
      var container := ExtractFinal(final.value, CONTAINER_IMAGE_LAYER_ID, LAYER_3_CODE_MEASUREMENT_ID);
      var application := ExtractFinal(final.value, ENCLAVE_APPLICATION_LAYER_ID, LAYER_2_CODE_MEASUREMENT_ID);
      if container.Some? then
        if |layers| != 2 then None
        else
          var kernel, system := KernelOf(layers[0]), SystemOf(layers[1]);
          if kernel.None? || system.None? then None
          else Some(OakContainers(kernel.value, system.value, container.value.0, container.value.1))
      else if application.Some? then
        if |layers| != 1 then None
        else
          var kernel := KernelOf(layers[0]);
          if kernel.None? then None
          else Some(OakRestrictedKernel(kernel.value, application.value.0, application.value.1))
      else Some(Cb)
  }

  function EncryptionKeyOf(b: Blob): Option<Blob>
  {
    var claims := ClaimsOfCert(b);
    if claims.None? then None
    else
      var k := PublicKeyFromClaims(claims.value);
      if k.None? then None else CoseToHpkeKey(k.value)
  }

  function ExtractEvidence(e: Evidence): Option<Extracted>
  {
    if e.rootLayer.None? || e.applicationKeys.None? then None
    else
      var root, keys := e.rootLayer.value, e.applicationKeys.value;
      if root.platform.Unspecified? || root.platform.IntelTdx? || !root.report.wellFormed then None
      else
        var measured := ExtractMeasured(e.layers, keys.encryption);
        var encryption, signing := EncryptionKeyOf(keys.encryption), CertifiedKey(keys.signing);
        if measured.None? || encryption.None? || signing.None? then None
        else Some(Extracted(root.report, measured.value, encryption.value, signing.value))
  }

  /** Checks every signature of the chain, then extracts. */
  function VerifyDiceChain(e: Evidence): Option<Extracted>
  {
    var root := RootKey(e);
    if root.None? then None
    else
      var last := FoldLayers(root.value, e.layers);
      if last.None? || e.applicationKeys.None? then None
      else if !SignedBy(last.value, e.applicationKeys.value.encryption) then None
      else if !SignedBy(last.value, e.applicationKeys.value.signing) then None
      else ExtractEvidence(e)
  }

  lemma FoldUnfolds(keys: seq<VerifyingKey>, layers: seq<Blob>)
    requires layers != [] && Chain(keys, layers)
    ensures Link(keys[0], layers[0], keys[1]) && Chain(keys[1..], layers[1..])
  {
    forall i | 0 <= i < |layers[1..]| ensures Link(keys[1..][i], layers[1..][i], keys[1..][i + 1]) {
      assert Link(keys[i + 1], layers[i + 1], keys[i + 1 + 1]);
    }
    assert Link(keys[0], layers[0], keys[0 + 1]);
  }

  /** The fold accepts every unbroken chain. */
  lemma {:induction false} FoldAcceptsChain(keys: seq<VerifyingKey>, layers: seq<Blob>)
    requires Chain(keys, layers)
    ensures FoldLayers(keys[0], layers) == Some(keys[|layers|])
    decreases |layers|
  {
    if layers == [] {
    } else {
      FoldUnfolds(keys, layers);
      FoldAcceptsChain(keys[1..], layers[1..]);
    }
  }

  /** The fold accepts nothing else: the keys it went through form a chain. */
  lemma {:induction false} FoldFindsChain(vk: VerifyingKey, layers: seq<Blob>) returns (keys: seq<VerifyingKey>)
    requires FoldLayers(vk, layers).Some?
    ensures Chain(keys, layers) && keys[0] == vk && FoldLayers(vk, layers) == Some(keys[|layers|])
    decreases |layers|
  {
    if layers == [] {
      keys := [vk];
    } else {
      var next := CertifiedKey(layers[0]).value;
      var rest := FoldFindsChain(next, layers[1..]);
      keys := [vk] + rest;
      forall i | 0 <= i < |layers| ensures Link(keys[i], layers[i], keys[i + 1]) {
        if i > 0 { assert Link(rest[i - 1], layers[1..][i - 1], rest[i - 1 + 1]); }
      }
    }
  }

  /** A chip endorsement certificate: the chip's key and identity, signed by some key. */
  datatype Vcek = Vcek(key: nat, chipId: seq<byte>, tcb: seq<nat>, signer: Option<nat>)

  /** The report is signed by the certified chip and describes that chip. */
  predicate ReportSigned(vcek: Vcek, report: Report)
  {
    && report.body.chipId == vcek.chipId && report.body.tcb == vcek.tcb
    && report.signer == Some(vcek.key) && report.signed == report.body
  }

  /** The root public key is bound to the report: its digest starts the reported data. */
  predicate Bound(sha: Blob -> seq<byte>, root: RootLayer)
  {
    var expected, actual := sha(root.ecaPublicKey), root.report.body.reportData;
    |expected| < |actual| && expected == actual[..|expected|]
  }

  predicate VerifyRoot(root: RootLayer, vcek: Option<Vcek>, ask: nat, sha: Blob -> seq<byte>)
  {
    match root.platform
    case Unspecified => false
    case AmdSevSnp =>
      && vcek.Some? && vcek.value.signer == Some(ask)
      && root.report.wellFormed && ReportSigned(vcek.value, root.report)
      && Bound(sha, root)
    case IntelTdx => false
    case NoTee => true
  }

  /** The whole verification; `matches` compares the extracted values with the expected ones. */
  function Verify(e: Evidence, vcek: Option<Vcek>, ask: nat, sha: Blob -> seq<byte>,
                  matches: Extracted -> bool): Option<Extracted>
  {
    if e.rootLayer.None? || !VerifyRoot(e.rootLayer.value, vcek, ask, sha) then None
    else
      var extracted := VerifyDiceChain(e);
      if extracted.None? || !matches(extracted.value) then None else extracted
  }

  function ContainerOf(encryption: Blob): Option<(Blob, Blob)>
  {
    var claims := ClaimsOfCert(encryption);
    if claims.None? then None
    else ExtractFinal(claims.value, CONTAINER_IMAGE_LAYER_ID, LAYER_3_CODE_MEASUREMENT_ID)
  }

  function ApplicationOf(encryption: Blob): Option<(Blob, Blob)>
  {
    var claims := ClaimsOfCert(encryption);
    if claims.None? then None
    else ExtractFinal(claims.value, ENCLAVE_APPLICATION_LAYER_ID, LAYER_2_CODE_MEASUREMENT_ID)
  }

  /** Where a measurement comes from: the certificates it is read from, all on the chain. */
  predicate MeasuredFrom(m: Measured, layers: seq<Blob>, encryption: Blob)
  {
    && ClaimsOfCert(encryption).Some?
    && match m
       case OakContainers(kernel, system, bundle, config) =>
         && ContainerOf(encryption) == Some((bundle, config))
         && |layers| == 2 && KernelOf(layers[0]) == Some(kernel) && SystemOf(layers[1]) == Some(system)
       case OakRestrictedKernel(kernel, binary, config) =>
         && ContainerOf(encryption).None? && ApplicationOf(encryption) == Some((binary, config))
         && |layers| == 1 && KernelOf(layers[0]) == Some(kernel)
       case Cb => ContainerOf(encryption).None? && ApplicationOf(encryption).None?
  }

  /** Everything that stands behind a verdict on the chain. */
  ghost predicate Justified(e: Evidence, x: Extracted, keys: seq<VerifyingKey>)
  {
    && e.rootLayer.Some? && e.applicationKeys.Some?
    && Chain(keys, e.layers) && RootKey(e) == Some(keys[0])
    && SignedBy(keys[|e.layers|], e.applicationKeys.value.encryption)
    && SignedBy(keys[|e.layers|], e.applicationKeys.value.signing)
    && x.report == e.rootLayer.value.report && x.report.wellFormed
    && (e.rootLayer.value.platform.AmdSevSnp? || e.rootLayer.value.platform.NoTee?)
    && EncryptionKeyOf(e.applicationKeys.value.encryption) == Some(x.encryptionKey)
    && CertifiedKey(e.applicationKeys.value.signing) == Some(x.signingKey)
    && MeasuredFrom(x.measured, e.layers, e.applicationKeys.value.encryption)
  }

  lemma MeasuredExactly(m: Measured, layers: seq<Blob>, encryption: Blob)
    ensures ExtractMeasured(layers, encryption) == Some(m) <==> MeasuredFrom(m, layers, encryption)
  {
    hide ExtractFinal, KernelOf, SystemOf, ClaimsOfCert;
  }

  /** Accepted evidence rests on an unbroken chain, and every returned value on a certificate in it. */
  lemma ChainSound(e: Evidence) returns (keys: seq<VerifyingKey>)
    requires VerifyDiceChain(e).Some?
    ensures Justified(e, VerifyDiceChain(e).value, keys)
  {
    hide ExtractMeasured, MeasuredFrom, EncryptionKeyOf, CertifiedKey, SignedBy, RootKey;
    keys := FoldFindsChain(RootKey(e).value, e.layers);
    MeasuredExactly(VerifyDiceChain(e).value.measured, e.layers, e.applicationKeys.value.encryption);
  }

  /** The verifier accepts evidence and returns values exactly when they are so justified. */
  lemma ChainExactly(e: Evidence, x: Extracted)
    ensures VerifyDiceChain(e) == Some(x) <==> exists keys :: Justified(e, x, keys)
  {
    if VerifyDiceChain(e) == Some(x) {
      var keys := ChainSound(e);
      assert Justified(e, x, keys);
    }
    if keys :| Justified(e, x, keys) {
      ChainComplete(e, x, keys);
    }
  }

  lemma ChainComplete(e: Evidence, x: Extracted, keys: seq<VerifyingKey>)
    requires Justified(e, x, keys)
    ensures VerifyDiceChain(e) == Some(x)
  {
    hide ExtractMeasured, MeasuredFrom, EncryptionKeyOf, CertifiedKey, SignedBy, RootKey, Link;
    FoldAcceptsChain(keys, e.layers);
    MeasuredExactly(x.measured, e.layers, e.applicationKeys.value.encryption);
  }

  /**
   Whenever verification succeeds on an AMD SEV-SNP root, the platform's certificate
   authority vouches for the chip, the chip for the root key, and an unbroken chain of
   signatures from that key for both application certificates and all that is returned.
   */
  lemma VerifySound(e: Evidence, vcek: Option<Vcek>, ask: nat, sha: Blob -> seq<byte>, matches: Extracted -> bool)
    returns (keys: seq<VerifyingKey>)
    requires Verify(e, vcek, ask, sha, matches).Some?
    ensures Justified(e, Verify(e, vcek, ask, sha, matches).value, keys)
    ensures matches(Verify(e, vcek, ask, sha, matches).value)
    ensures e.rootLayer.value.platform.AmdSevSnp? ==>
              var root, digest := e.rootLayer.value, sha(e.rootLayer.value.ecaPublicKey);
              && vcek.Some? && vcek.value.signer == Some(ask)
              && root.report.signer == Some(vcek.value.key) && root.report.signed == root.report.body
              && root.report.body.chipId == vcek.value.chipId && root.report.body.tcb == vcek.value.tcb
              && |digest| < |root.report.body.reportData| && digest <= root.report.body.reportData
    ensures e.rootLayer.value.platform.AmdSevSnp? || e.rootLayer.value.platform.NoTee?
  {
    hide VerifyDiceChain, Justified;
    keys := ChainSound(e);
  }

  /** The claims a certificate adds itself are byte strings and never taken for a layer. */
  lemma LayerAmongAdditional(issuer: Id, key: CoseKey, subject: Id, additional: Claims, id: int)
    ensures FindLayer(ClaimsFor(issuer, key, subject, additional).rest, id) == FindLayer(additional, id)
  {
    var rest := ClaimsFor(issuer, key, subject, additional).rest;
    assert rest[1..][1..] == additional;
    assert FindLayer(rest, id) == FindLayer(rest[1..], id) == FindLayer(rest[1..][1..], id);
  }

  function Digest(d: Blob): Value
  {
    Map([(Integer(SHA2_256_ID), Bytes(d))])
  }

  lemma DigestReadsBack(d: Blob)
    ensures RawDigest(Digest(d)) == Some(d)
  {
    var entries := Digest(d).entries;
    assert entries[1..] == [];
    assert DigestFrom(entries, Raw([])) == DigestFrom(entries[1..], d);
  }

  /** The measurements the first stage takes of the kernel. */
  function KernelClaims(m: KernelLayer): Claims
    requires m.rawCmdLine.Some?
  {
    [(PrivateUse(KERNEL_LAYER_ID), Map([
        (Integer(KERNEL_MEASUREMENT_ID), Digest(m.kernelImage)),
        (Integer(KERNEL_COMMANDLINE_MEASUREMENT_ID), Digest(m.cmdLine)),
        (Integer(KERNEL_COMMANDLINE_ID), Text(m.rawCmdLine.value)),
        (Integer(SETUP_DATA_MEASUREMENT_ID), Digest(m.setupData)),
        (Integer(INITRD_MEASUREMENT_ID), Digest(m.initRamFs)),
        (Integer(MEMORY_MAP_MEASUREMENT_ID), Digest(m.memoryMap)),
        (Integer(ACPI_MEASUREMENT_ID), Digest(m.acpi))]))]
  }

  function SystemClaims(image: Blob): Claims
  {
    [(PrivateUse(SYSTEM_IMAGE_LAYER_ID), Map([(Integer(LAYER_2_CODE_MEASUREMENT_ID), Digest(image))]))]
  }

  /** The measurements of a final layer: its code and its configuration. */
  function FinalClaims(layerId: int, codeId: int, code: Blob, config: Blob): Claims
  {
    [(PrivateUse(layerId),
      Map([(Integer(codeId), Digest(code)), (Integer(FINAL_LAYER_CONFIG_MEASUREMENT_ID), Digest(config))]))]
  }

  function ContainerClaims(bundle: Blob, config: Blob): Claims
  {
    FinalClaims(CONTAINER_IMAGE_LAYER_ID, LAYER_3_CODE_MEASUREMENT_ID, bundle, config)
  }

  /** An enclave application has no configuration; its digest is empty. */
  function ApplicationClaims(binary: Blob): Claims
  {
    FinalClaims(ENCLAVE_APPLICATION_LAYER_ID, LAYER_2_CODE_MEASUREMENT_ID, binary, Raw([]))
  }

  /** Looking up the n-th of distinct labels gives the n-th value. */
  lemma {:induction false} FindNth(values: seq<(Value, Value)>, n: nat, id: int)
    requires n < |values| && values[n].0 == Integer(id)
    requires forall i | 0 <= i < n :: values[i].0 != Integer(id)
    ensures FindValue(values, id) == Some(values[n].1)
  {
    if n == 0 {
    } else {
      FindNth(values[1..], n - 1, id);
    }
  }

  lemma KernelReadsBack(m: KernelLayer, issuer: Id, key: CoseKey, subject: Id)
    requires m.rawCmdLine.Some?
    ensures ExtractKernel(ClaimsFor(issuer, key, subject, KernelClaims(m))) == Some(m)
  {
    LayerAmongAdditional(issuer, key, subject, KernelClaims(m), KERNEL_LAYER_ID);
    var vs := KernelClaims(m)[0].1.entries;
    assert FindLayer(KernelClaims(m), KERNEL_LAYER_ID) == Some(vs);
    FindNth(vs, 0, KERNEL_MEASUREMENT_ID);
    FindNth(vs, 1, KERNEL_COMMANDLINE_MEASUREMENT_ID);
    FindNth(vs, 2, KERNEL_COMMANDLINE_ID);
    FindNth(vs, 3, SETUP_DATA_MEASUREMENT_ID);
    FindNth(vs, 4, INITRD_MEASUREMENT_ID);
    FindNth(vs, 5, MEMORY_MAP_MEASUREMENT_ID);
    FindNth(vs, 6, ACPI_MEASUREMENT_ID);
    hide FindValue, FindLayer, ClaimsFor, RawDigest, Digest;
    DigestReadsBack(m.kernelImage);
    DigestReadsBack(m.cmdLine);
    DigestReadsBack(m.setupData);
    DigestReadsBack(m.initRamFs);
    DigestReadsBack(m.memoryMap);
    DigestReadsBack(m.acpi);
  }

  lemma SystemReadsBack(image: Blob, issuer: Id, key: CoseKey, subject: Id)
    ensures ExtractSystem(ClaimsFor(issuer, key, subject, SystemClaims(image))) == Some(image)
  {
    LayerAmongAdditional(issuer, key, subject, SystemClaims(image), SYSTEM_IMAGE_LAYER_ID);
    var vs := SystemClaims(image)[0].1.entries;
    assert FindLayer(SystemClaims(image), SYSTEM_IMAGE_LAYER_ID) == Some(vs);
    FindNth(vs, 0, LAYER_2_CODE_MEASUREMENT_ID);
    DigestReadsBack(image);
  }

  lemma FinalReadsBack(layerId: int, codeId: int, code: Blob, config: Blob, issuer: Id, key: CoseKey, subject: Id)
    requires codeId != FINAL_LAYER_CONFIG_MEASUREMENT_ID
    ensures ExtractFinal(ClaimsFor(issuer, key, subject, FinalClaims(layerId, codeId, code, config)), layerId, codeId)
            == Some((code, config))
    ensures forall other, id | other != layerId ::
              ExtractFinal(ClaimsFor(issuer, key, subject, FinalClaims(layerId, codeId, code, config)), other, id)
              == None
  {
    var claims := FinalClaims(layerId, codeId, code, config);
    LayerAmongAdditional(issuer, key, subject, claims, layerId);
    var vs := claims[0].1.entries;
    assert FindLayer(claims, layerId) == Some(vs);
    FindNth(vs, 0, codeId);
    FindNth(vs, 1, FINAL_LAYER_CONFIG_MEASUREMENT_ID);
    DigestReadsBack(code);
    DigestReadsBack(config);
    forall other | other != layerId
      ensures FindLayer(ClaimsFor(issuer, key, subject, claims).rest, other) == None
    {
      LayerAmongAdditional(issuer, key, subject, claims, other);
      assert claims[1..] == [];
    }
  }

  /** What the first boot stage hands on: a root key, its report, and the kernel's certificate. */
  function Stage0(m: KernelLayer, k0: SigningKey, k1: SigningKey, platform: TeePlatform, report: Report): Builder
    requires m.rawCmdLine.Some?
  {
    var root := RootLayer(platform, report, KeyBlob(VerifyingKeyToCose(Public(k0))));
    var cert := SigningCert(k0, VerifyingKeyId(Public(k0)), Public(k1), KernelClaims(m));
    Builder(Evidence(Some(root), [cert], None), k1)
  }

  lemma Stage0StartsChain(m: KernelLayer, k0: SigningKey, k1: SigningKey, platform: TeePlatform, report: Report)
    requires m.rawCmdLine.Some?
    ensures BuilderOk(Stage0(m, k0, k1, platform, report), [Public(k0), Public(k1)])
  {
    SigningCertLinks(k0, VerifyingKeyId(Public(k0)), Public(k1), KernelClaims(m));
    KeyConversions(Public(k0), Raw([]));
    hide Link, ClaimsOfCert, SigningCert, VerifyingKeyToCose, CoseToVerifyingKey;
  }

  lemma KemCertCarriesKey(sk: SigningKey, issuer: Id, kem: Blob, additional: Claims)
    ensures var b := KemCert(sk, issuer, kem, additional);
            && SignedBy(Public(sk), b) && EncryptionKeyOf(b) == Some(kem)
            && ClaimsOfCert(b) == Some(KemClaims(issuer, kem, additional))
  {
    KeyConversions(Public(0), kem);
    CertifiesItsKey(issuer, HpkeKeyToCose(kem), KemKeyId(kem), additional);
  }

  /**
   The evidence a builder finishes passes every signature check, and the keys and claims
   read from it are those put in.
   */
  lemma FinishedVerifies(b: Builder, keys: seq<VerifyingKey>, additional: Claims, kem: Blob, vk: VerifyingKey,
                         groupKem: Option<Blob>, groupVk: Option<VerifyingKey>)
    requires BuilderOk(b, keys)
    ensures var e, issuer := WithApplicationKeys(b, additional, kem, vk, groupKem, groupVk),
                             VerifyingKeyId(Public(b.signingKey));
            && e.Some? && e.value.rootLayer == b.evidence.rootLayer && e.value.layers == b.evidence.layers
            && RootKey(e.value) == Some(keys[0])
            && FoldLayers(keys[0], e.value.layers) == Some(Public(b.signingKey))
            && e.value.applicationKeys == Some(ApplicationKeys(
                 KemCert(b.signingKey, issuer, kem, additional), SigningCert(b.signingKey, issuer, vk, additional),
                 if groupKem.Some? then KemCert(b.signingKey, issuer, groupKem.value, []) else Raw([]),
                 if groupVk.Some? then SigningCert(b.signingKey, issuer, groupVk.value, []) else Raw([])))
            && var app := e.value.applicationKeys.value;
               && SignedBy(Public(b.signingKey), app.encryption) && SignedBy(Public(b.signingKey), app.signing)
               && EncryptionKeyOf(app.encryption) == Some(kem) && CertifiedKey(app.signing) == Some(vk)
               && ClaimsOfCert(app.encryption) == Some(KemClaims(issuer, kem, additional))
               && ClaimsOfCert(app.signing) == Some(SigningClaims(issuer, vk, additional))
               && (groupKem.Some? ==> EncryptionKeyOf(app.groupEncryption) == groupKem)
               && (groupVk.Some? ==> CertifiedKey(app.groupSigning) == groupVk)
  {
    hide Link, ClaimsOfCert, SigningCert, KemCert, NextIssuer, EncryptionKeyOf, SignedBy;
    NextIssuerIs(b, keys);
    FoldAcceptsChain(keys, b.evidence.layers);
    var sk, id := b.signingKey, VerifyingKeyId(Public(b.signingKey));
    KemCertCarriesKey(sk, id, kem, additional);
    SigningCertSigned(sk, id, vk, additional);
    if groupKem.Some? { KemCertCarriesKey(sk, id, groupKem.value, []); }
    if groupVk.Some? { SigningCertSigned(sk, id, groupVk.value, []); }
  }

  /**
   Completeness over every builder run: after any layers and hand-overs, the finished
   evidence passes every signature check, and the keys read from it are those put in.
   */
  lemma EveryRunVerifies(b: Builder, keys: seq<VerifyingKey>, stages: seq<Stage>, additional: Claims, kem: Blob,
                         vk: VerifyingKey, groupKem: Option<Blob>, groupVk: Option<VerifyingKey>)
    requires BuilderOk(b, keys)
    ensures RunStages(b, stages).Some?
    ensures var last := RunStages(b, stages).value;
            var e := WithApplicationKeys(last, additional, kem, vk, groupKem, groupVk);
            && e.Some? && e.value.applicationKeys.Some?
            && e.value.layers == last.evidence.layers && e.value.rootLayer == b.evidence.rootLayer
            && RootKey(e.value) == Some(keys[0])
            && FoldLayers(keys[0], e.value.layers) == Some(Public(last.signingKey))
            && var app, issuer := e.value.applicationKeys.value, VerifyingKeyId(Public(last.signingKey));
               && SignedBy(Public(last.signingKey), app.encryption) && SignedBy(Public(last.signingKey), app.signing)
               && EncryptionKeyOf(app.encryption) == Some(kem) && CertifiedKey(app.signing) == Some(vk)
               && ClaimsOfCert(app.encryption) == Some(KemClaims(issuer, kem, additional))
               && ClaimsOfCert(app.signing) == Some(SigningClaims(issuer, vk, additional))
               && (groupKem.Some? ==> EncryptionKeyOf(app.groupEncryption) == groupKem)
               && (groupVk.Some? ==> CertifiedKey(app.groupSigning) == groupVk)
  {
    hide RunStages, Chain, WithApplicationKeys, ClaimsOfCert, EncryptionKeyOf, CertifiedKey, SignedBy, FoldLayers,
      RootKey;
    RunsKeepChain(b, keys, stages);
    FinishedVerifies(RunStages(b, stages).value, keys + NewKeys(stages), additional, kem, vk, groupKem, groupVk);
  }

  lemma SigningCertSigned(sk: SigningKey, issuer: Id, vk: VerifyingKey, additional: Claims)
    ensures SignedBy(Public(sk), SigningCert(sk, issuer, vk, additional))
    ensures CertifiedKey(SigningCert(sk, issuer, vk, additional)) == Some(vk)
    ensures ClaimsOfCert(SigningCert(sk, issuer, vk, additional)) == Some(SigningClaims(issuer, vk, additional))
  {
    SigningCertLinks(sk, issuer, vk, additional);
  }

  /**
   What an honest boot goes through: the kernel measured and certified by the first stage,
   further layers and hand-overs, and the application's keys, with group keys if the
   instance leads a group.
   */
  datatype Boot = Boot(kernel: KernelLayer, platform: TeePlatform, report: Report, k0: SigningKey, k1: SigningKey,
                       stages: seq<Stage>, kem: Blob, vk: VerifyingKey,
                       groupKem: Option<Blob>, groupVk: Option<VerifyingKey>)

  /** The evidence at the end of a boot whose application has the given claims. */
  function BootEvidence(b: Boot, claims: Claims): Option<Evidence>
    requires b.kernel.rawCmdLine.Some?
  {
    var last := RunStages(Stage0(b.kernel, b.k0, b.k1, b.platform, b.report), b.stages);
    if last.None? then None else WithApplicationKeys(last.value, claims, b.kem, b.vk, b.groupKem, b.groupVk)
  }

  /** A boot of Oak Containers: one system layer, among any hand-overs. */
  predicate IsContainersBoot(b: Boot, image: Blob, k2: SigningKey)
  {
    b.kernel.rawCmdLine.Some? && LayersAdded(b.stages) == [AddLayer(SystemClaims(image), k2)]
  }

  /** A boot of the restricted kernel: no layer is added. */
  predicate IsRestrictedKernelBoot(b: Boot)
  {
    b.kernel.rawCmdLine.Some? && LayersAdded(b.stages) == []
  }

  /** The boot happened on the chip `vcek`, whose report carries the digest of the root key. */
  predicate OnChip(b: Boot, vcek: Vcek, sha: Blob -> seq<byte>)
  {
    && b.platform.AmdSevSnp? && b.report.wellFormed && ReportSigned(vcek, b.report)
    && b.report.body.reportData == sha(KeyBlob(VerifyingKeyToCose(Public(b.k0)))) + seq(32, _ => 0)
  }

  /** The boot happened on a chip that the authority vouches for, or admittedly outside of any. */
  predicate Genuine(b: Boot, vcek: Option<Vcek>, ask: nat, sha: Blob -> seq<byte>)
  {
    match b.platform
    case AmdSevSnp => vcek.Some? && vcek.value.signer == Some(ask) && OnChip(b, vcek.value, sha)
    case NoTee => b.report.wellFormed
    case _ => false
  }

  lemma ContainersLayers(b: Boot, image: Blob, k2: SigningKey)
    requires IsContainersBoot(b, image, k2)
    ensures var last := RunStages(Stage0(b.kernel, b.k0, b.k1, b.platform, b.report), b.stages);
            && last.Some? && last.value.signingKey == k2
            && BuilderOk(last.value, [Public(b.k0), Public(b.k1), Public(k2)])
            && last.value.evidence.rootLayer ==
               Some(RootLayer(b.platform, b.report, KeyBlob(VerifyingKeyToCose(Public(b.k0)))))
            && last.value.evidence.layers ==
               [SigningCert(b.k0, VerifyingKeyId(Public(b.k0)), Public(b.k1), KernelClaims(b.kernel)),
                SigningCert(b.k1, VerifyingKeyId(Public(b.k1)), Public(k2), SystemClaims(image))]
  {
    var first, keys := Stage0(b.kernel, b.k0, b.k1, b.platform, b.report), [Public(b.k0), Public(b.k1)];
    var added := AddLayer(SystemClaims(image), k2);
    Stage0StartsChain(b.kernel, b.k0, b.k1, b.platform, b.report);
    NextIssuerIs(first, keys);
    LayerKeepsChain(first, keys, SystemClaims(image), k2);
    HandOversVanish(first, b.stages);
    hide BuilderOk, KernelClaims, SystemClaims, SigningCert, NextIssuer;
    assert keys + [Public(k2)] == [Public(b.k0), Public(b.k1), Public(k2)];
    assert [added][1..] == [];
    assert RunStages(first, [added]) == WithLayer(first, SystemClaims(image), k2);
  }

  /** On a genuine root, the verdict is that on the extracted values. */
  lemma GenuineVerified(e: Evidence, x: Extracted, b: Boot, vcek: Option<Vcek>, ask: nat, sha: Blob -> seq<byte>,
                        matches: Extracted -> bool)
    requires Genuine(b, vcek, ask, sha) && VerifyDiceChain(e) == Some(x)
    requires e.rootLayer == Some(RootLayer(b.platform, b.report, KeyBlob(VerifyingKeyToCose(Public(b.k0)))))
    ensures Verify(e, vcek, ask, sha, matches) == if matches(x) then Some(x) else None
  {
    hide VerifyDiceChain, VerifyingKeyToCose;
  }

  /**
   An honest boot of Oak Containers, on a genuine chip or outside of a TEE, is accepted
   exactly if what was measured and the keys that were certified match; and these are
   what is returned.
   */
  lemma HonestContainersVerify(b: Boot, image: Blob, k2: SigningKey, bundle: Blob, config: Blob, vcek: Option<Vcek>,
                               ask: nat, sha: Blob -> seq<byte>, matches: Extracted -> bool)
    requires IsContainersBoot(b, image, k2) && Genuine(b, vcek, ask, sha)
    ensures var e := BootEvidence(b, ContainerClaims(bundle, config));
            var x := Extracted(b.report, OakContainers(b.kernel, image, bundle, config), b.kem, b.vk);
            e.Some? && Verify(e.value, vcek, ask, sha, matches) == if matches(x) then Some(x) else None
  {
    hide Stage0, RunStages, LayersAdded, KernelClaims, SystemClaims, ContainerClaims, SigningCert, KemCert, BuilderOk,
      ExtractMeasured, EncryptionKeyOf, CertifiedKey, FoldLayers, SignedBy, ReportSigned, VerifyingKeyToCose, RootKey,
      Verify;
    ContainersLayers(b, image, k2);
    var last := RunStages(Stage0(b.kernel, b.k0, b.k1, b.platform, b.report), b.stages).value;
    FinishedVerifies(last, [Public(b.k0), Public(b.k1), Public(k2)], ContainerClaims(bundle, config),
                     b.kem, b.vk, b.groupKem, b.groupVk);
    ContainersMeasured(b.kernel, image, bundle, config, b.k0, b.k1, k2, b.kem);
    var e := BootEvidence(b, ContainerClaims(bundle, config)).value;
    var x := Extracted(b.report, OakContainers(b.kernel, image, bundle, config), b.kem, b.vk);
    assert VerifyDiceChain(e) == Some(x);
    GenuineVerified(e, x, b, vcek, ask, sha, matches);
  }

  lemma ContainersMeasured(m: KernelLayer, image: Blob, bundle: Blob, config: Blob,
                           k0: SigningKey, k1: SigningKey, k2: SigningKey, kem: Blob)
    requires m.rawCmdLine.Some?
    ensures ExtractMeasured([SigningCert(k0, VerifyingKeyId(Public(k0)), Public(k1), KernelClaims(m)),
                             SigningCert(k1, VerifyingKeyId(Public(k1)), Public(k2), SystemClaims(image))],
                            KemCert(k2, VerifyingKeyId(Public(k2)), kem, ContainerClaims(bundle, config)))
            == Some(OakContainers(m, image, bundle, config))
  {
    var id0, id1, id2 := VerifyingKeyId(Public(k0)), VerifyingKeyId(Public(k1)), VerifyingKeyId(Public(k2));
    SigningCertLinks(k0, id0, Public(k1), KernelClaims(m));
    SigningCertLinks(k1, id1, Public(k2), SystemClaims(image));
    KemCertCarriesKey(k2, id2, kem, ContainerClaims(bundle, config));
    KernelReadsBack(m, id0, VerifyingKeyToCose(Public(k1)), id1);
    SystemReadsBack(image, id1, VerifyingKeyToCose(Public(k2)), id2);
    FinalReadsBack(CONTAINER_IMAGE_LAYER_ID, LAYER_3_CODE_MEASUREMENT_ID, bundle, config, id2,
                   HpkeKeyToCose(kem), KemKeyId(kem));
    hide ClaimsOfCert, ExtractKernel, ExtractSystem, ExtractFinal, ClaimsFor, KernelClaims, SystemClaims,
      FinalClaims, SigningCert, KemCert, VerifyingKeyToCose, HpkeKeyToCose;
  }

  lemma RestrictedKernelLayers(b: Boot)
    requires IsRestrictedKernelBoot(b)
    ensures var last := RunStages(Stage0(b.kernel, b.k0, b.k1, b.platform, b.report), b.stages);
            && last.Some? && last.value.signingKey == b.k1
            && BuilderOk(last.value, [Public(b.k0), Public(b.k1)])
            && last.value.evidence.rootLayer ==
               Some(RootLayer(b.platform, b.report, KeyBlob(VerifyingKeyToCose(Public(b.k0)))))
            && last.value.evidence.layers ==
               [SigningCert(b.k0, VerifyingKeyId(Public(b.k0)), Public(b.k1), KernelClaims(b.kernel))]
  {
    hide KernelClaims, SigningCert, BuilderOk, VerifyingKeyToCose;
    Stage0StartsChain(b.kernel, b.k0, b.k1, b.platform, b.report);
    HandOversVanish(Stage0(b.kernel, b.k0, b.k1, b.platform, b.report), b.stages);
  }

  /** An honest boot of an enclave application on the restricted kernel is accepted likewise. */
  lemma HonestRestrictedKernelVerify(b: Boot, binary: Blob, vcek: Option<Vcek>, ask: nat,
                                     sha: Blob -> seq<byte>, matches: Extracted -> bool)
    requires IsRestrictedKernelBoot(b) && Genuine(b, vcek, ask, sha)
    ensures var e := BootEvidence(b, ApplicationClaims(binary));
            var x := Extracted(b.report, OakRestrictedKernel(b.kernel, binary, Raw([])), b.kem, b.vk);
            e.Some? && Verify(e.value, vcek, ask, sha, matches) == if matches(x) then Some(x) else None
  {
    hide Stage0, RunStages, LayersAdded, KernelClaims, FinalClaims, SigningCert, KemCert, BuilderOk,
      ExtractMeasured, EncryptionKeyOf, CertifiedKey, FoldLayers, SignedBy, ReportSigned, VerifyingKeyToCose, RootKey,
      Verify;
    RestrictedKernelLayers(b);
    var last := RunStages(Stage0(b.kernel, b.k0, b.k1, b.platform, b.report), b.stages).value;
    FinishedVerifies(last, [Public(b.k0), Public(b.k1)], ApplicationClaims(binary),
                     b.kem, b.vk, b.groupKem, b.groupVk);
    RestrictedKernelMeasured(b.kernel, binary, b.k0, b.k1, b.kem);
    var e := BootEvidence(b, ApplicationClaims(binary)).value;
    var x := Extracted(b.report, OakRestrictedKernel(b.kernel, binary, Raw([])), b.kem, b.vk);
    assert VerifyDiceChain(e) == Some(x);
    GenuineVerified(e, x, b, vcek, ask, sha, matches);
  }

  lemma RestrictedKernelMeasured(m: KernelLayer, binary: Blob, k0: SigningKey, k1: SigningKey, kem: Blob)
    requires m.rawCmdLine.Some?
    ensures ExtractMeasured([SigningCert(k0, VerifyingKeyId(Public(k0)), Public(k1), KernelClaims(m))],
                            KemCert(k1, VerifyingKeyId(Public(k1)), kem, ApplicationClaims(binary)))
            == Some(OakRestrictedKernel(m, binary, Raw([])))
  {
    var id0, id1 := VerifyingKeyId(Public(k0)), VerifyingKeyId(Public(k1));
    SigningCertLinks(k0, id0, Public(k1), KernelClaims(m));
    KemCertCarriesKey(k1, id1, kem, ApplicationClaims(binary));
    KernelReadsBack(m, id0, VerifyingKeyToCose(Public(k1)), id1);
    FinalReadsBack(ENCLAVE_APPLICATION_LAYER_ID, LAYER_2_CODE_MEASUREMENT_ID, binary, Raw([]), id1,
                   HpkeKeyToCose(kem), KemKeyId(kem));
    hide ClaimsOfCert, ExtractKernel, ExtractFinal, ClaimsFor, KernelClaims, FinalClaims, SigningCert, KemCert,
      VerifyingKeyToCose, HpkeKeyToCose;
  }
}
