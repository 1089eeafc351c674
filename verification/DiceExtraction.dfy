/**
 Exactly what the verifier reads from certificates: which claims, under which numbers, in
 which form. Anything missing, repeated or malformed is covered by the other direction.
 */
module DiceExtraction {
  import opened Bytes
  import opened Cose
  import opened Dice
  import opened DiceVerifier

  /** The first claim with the private-use number that is a map. */
  ghost predicate FirstMap(rest: Claims, id: int, entries: seq<(Value, Value)>)
  {
    exists i | 0 <= i < |rest| ::
      && rest[i] == (PrivateUse(id), Map(entries))
      && forall j | 0 <= j < i :: !(rest[j].0 == PrivateUse(id) && rest[j].1.Map?)
  }

  lemma {:induction false} LayerExactly(rest: Claims, id: int, entries: seq<(Value, Value)>)
    ensures FindLayer(rest, id) == Some(entries) <==> FirstMap(rest, id, entries)
  {
    if rest == [] {
    } else if rest[0].0 == PrivateUse(id) && rest[0].1.Map? {
      if rest[0].1.entries == entries { assert rest[0] == (PrivateUse(id), Map(entries)); }
    } else {
      var tail := rest[1..];
      LayerExactly(tail, id, entries);
      if i :| 0 <= i < |tail| && tail[i] == (PrivateUse(id), Map(entries)) &&
              forall j | 0 <= j < i :: !(tail[j].0 == PrivateUse(id) && tail[j].1.Map?) {
        assert rest[i + 1] == (PrivateUse(id), Map(entries));
        assert forall j | 0 < j < i + 1 :: rest[j] == tail[j - 1];
      }
      if i :| 0 <= i < |rest| && rest[i] == (PrivateUse(id), Map(entries)) &&
              forall j | 0 <= j < i :: !(rest[j].0 == PrivateUse(id) && rest[j].1.Map?) {
        assert tail[i - 1] == (PrivateUse(id), Map(entries));
        assert forall j | 0 <= j < i - 1 :: tail[j] == rest[j + 1];
      }
    }
  }

  /** The first value under the number. */
  ghost predicate FirstUnder(values: seq<(Value, Value)>, id: int, v: Value)
  {
    exists i | 0 <= i < |values| ::
      values[i] == (Integer(id), v) && forall j | 0 <= j < i :: values[j].0 != Integer(id)
  }

  ghost predicate NoneUnder(values: seq<(Value, Value)>, id: int)
  {
    forall i | 0 <= i < |values| :: values[i].0 != Integer(id)
  }

  lemma {:induction false} ValueExactly(values: seq<(Value, Value)>, id: int, v: Value)
    ensures FindValue(values, id) == Some(v) <==> FirstUnder(values, id, v)
    ensures FindValue(values, id) == None <==> NoneUnder(values, id)
  {
    if values == [] {
    } else if values[0].0 == Integer(id) {
      if values[0].1 == v { assert values[0] == (Integer(id), v); }
    } else {
      var tail := values[1..];
      ValueExactly(tail, id, v);
      assert forall j | 0 < j < |values| :: values[j] == tail[j - 1];
      assert forall j | 0 <= j < |tail| :: tail[j] == values[j + 1];
      if i :| 0 <= i < |tail| && tail[i] == (Integer(id), v) && forall j | 0 <= j < i :: tail[j].0 != Integer(id) {
        assert values[i + 1] == (Integer(id), v);
      }
      if i :| 0 <= i < |values| && values[i] == (Integer(id), v) &&
              forall j | 0 <= j < i :: values[j].0 != Integer(id) {
        assert tail[i - 1] == (Integer(id), v);
      }
    }
  }

  /** A map of SHA2-256 byte strings only; the last one is the digest, and none is an empty one. */
  ghost predicate HoldsDigest(v: Value, d: Blob)
  {
    && v.Map?
    && (forall i | 0 <= i < |v.entries| :: v.entries[i].0 == Integer(-4670572) && v.entries[i].1.Bytes?)
    && d == if v.entries == [] then Raw([]) else v.entries[|v.entries| - 1].1.blob
  }

  ghost predicate MeasuredAs(values: seq<(Value, Value)>, id: int, d: Blob)
  {
    exists v :: FirstUnder(values, id, v) && HoldsDigest(v, d)
  }

  lemma DigestExactly(values: seq<(Value, Value)>, id: int, d: Blob)
    ensures DigestOf(values, id) == Some(d) <==> MeasuredAs(values, id, d)
  {
    hide FindValue, DigestFrom, FirstUnder;
    var found := FindValue(values, id);
    if found.Some? {
      ValueExactly(values, id, found.value);
      if found.value.Map? { LastDigestCounts(found.value.entries, Raw([])); }
    }
    if v :| FirstUnder(values, id, v) && HoldsDigest(v, d) {
      ValueExactly(values, id, v);
      LastDigestCounts(v.entries, Raw([]));
    }
  }

  ghost predicate CmdLineIn(values: seq<(Value, Value)>, text: Option<string>)
  {
    if text.Some? then FirstUnder(values, -4670573, Text(text.value)) else NoneUnder(values, -4670573)
  }

  /** All six digests of a kernel layer, and its command line if there is one. */
  ghost predicate HoldsKernel(vs: seq<(Value, Value)>, k: KernelLayer)
  {
    && MeasuredAs(vs, -4670561, k.kernelImage) && MeasuredAs(vs, -4670562, k.cmdLine)
    && MeasuredAs(vs, -4670563, k.setupData) && MeasuredAs(vs, -4670564, k.initRamFs)
    && MeasuredAs(vs, -4670565, k.memoryMap) && MeasuredAs(vs, -4670566, k.acpi)
    && CmdLineIn(vs, k.rawCmdLine)
  }

  lemma KernelValuesExactly(claims: ClaimsSet, vs: seq<(Value, Value)>, k: KernelLayer)
    requires FindLayer(claims.rest, KERNEL_LAYER_ID) == Some(vs)
    ensures ExtractKernel(claims) == Some(k) <==> HoldsKernel(vs, k)
  {
    hide FindLayer, FindValue, DigestOf, MeasuredAs, FirstUnder, NoneUnder;
    DigestExactly(vs, KERNEL_MEASUREMENT_ID, k.kernelImage);
    DigestExactly(vs, KERNEL_COMMANDLINE_MEASUREMENT_ID, k.cmdLine);
    DigestExactly(vs, SETUP_DATA_MEASUREMENT_ID, k.setupData);
    DigestExactly(vs, INITRD_MEASUREMENT_ID, k.initRamFs);
    DigestExactly(vs, MEMORY_MAP_MEASUREMENT_ID, k.memoryMap);
    DigestExactly(vs, ACPI_MEASUREMENT_ID, k.acpi);
    ValueExactly(vs, KERNEL_COMMANDLINE_ID, Text(if k.rawCmdLine.Some? then k.rawCmdLine.value else ""));
  }

  /** A kernel layer is extracted exactly if the claims hold all of it. */
  lemma KernelExactly(claims: ClaimsSet, k: KernelLayer)
    ensures ExtractKernel(claims) == Some(k) <==>
            exists vs :: FirstMap(claims.rest, -4670555, vs) && HoldsKernel(vs, k)
  {
    hide HoldsKernel, FirstMap, FindLayer, FindValue, DigestOf;
    var found := FindLayer(claims.rest, KERNEL_LAYER_ID);
    if found.Some? {
      LayerExactly(claims.rest, KERNEL_LAYER_ID, found.value);
      KernelValuesExactly(claims, found.value, k);
    }
    if vs :| FirstMap(claims.rest, -4670555, vs) && HoldsKernel(vs, k) {
      LayerExactly(claims.rest, KERNEL_LAYER_ID, vs);
    }
  }

  lemma SystemExactly(claims: ClaimsSet, image: Blob)
    ensures ExtractSystem(claims) == Some(image) <==>
            exists vs :: FirstMap(claims.rest, -4670557, vs) && MeasuredAs(vs, -4670567, image)
  {
    hide FirstMap, FindLayer, DigestOf, MeasuredAs;
    var found := FindLayer(claims.rest, SYSTEM_IMAGE_LAYER_ID);
    if found.Some? {
      LayerExactly(claims.rest, SYSTEM_IMAGE_LAYER_ID, found.value);
      DigestExactly(found.value, LAYER_2_CODE_MEASUREMENT_ID, image);
    }
    if vs :| FirstMap(claims.rest, -4670557, vs) && MeasuredAs(vs, -4670567, image) {
      LayerExactly(claims.rest, SYSTEM_IMAGE_LAYER_ID, vs);
      DigestExactly(vs, LAYER_2_CODE_MEASUREMENT_ID, image);
    }
  }

  lemma FinalExactly(claims: ClaimsSet, layerId: int, codeId: int, code: Blob, config: Blob)
    ensures ExtractFinal(claims, layerId, codeId) == Some((code, config)) <==>
            exists vs :: FirstMap(claims.rest, layerId, vs) && MeasuredAs(vs, codeId, code) &&
                         MeasuredAs(vs, -4670570, config)
  {
    hide FirstMap, FindLayer, DigestOf, MeasuredAs;
    var found := FindLayer(claims.rest, layerId);
    if found.Some? {
      LayerExactly(claims.rest, layerId, found.value);
      DigestExactly(found.value, codeId, code);
      DigestExactly(found.value, FINAL_LAYER_CONFIG_MEASUREMENT_ID, config);
    }
    if vs :| FirstMap(claims.rest, layerId, vs) && MeasuredAs(vs, codeId, code) &&
             MeasuredAs(vs, -4670570, config) {
      LayerExactly(claims.rest, layerId, vs);
      DigestExactly(vs, codeId, code);
      DigestExactly(vs, FINAL_LAYER_CONFIG_MEASUREMENT_ID, config);
    }
  }

  /** A container and an enclave application are told apart by number. */
  lemma ContainerExactly(claims: ClaimsSet, bundle: Blob, config: Blob)
    ensures ExtractFinal(claims, CONTAINER_IMAGE_LAYER_ID, LAYER_3_CODE_MEASUREMENT_ID) == Some((bundle, config)) <==>
            exists vs :: FirstMap(claims.rest, -4670559, vs) && MeasuredAs(vs, -4670569, bundle) &&
                         MeasuredAs(vs, -4670570, config)
  {
    FinalExactly(claims, CONTAINER_IMAGE_LAYER_ID, LAYER_3_CODE_MEASUREMENT_ID, bundle, config);
  }

  lemma ApplicationExactly(claims: ClaimsSet, binary: Blob, config: Blob)
    ensures ExtractFinal(claims, ENCLAVE_APPLICATION_LAYER_ID, LAYER_2_CODE_MEASUREMENT_ID) == Some((binary, config))
            <==> exists vs :: FirstMap(claims.rest, -4670556, vs) && MeasuredAs(vs, -4670567, binary) &&
                              MeasuredAs(vs, -4670570, config)
  {
    FinalExactly(claims, ENCLAVE_APPLICATION_LAYER_ID, LAYER_2_CODE_MEASUREMENT_ID, binary, config);
  }

  /** The blob is a certificate with these claims. */
  predicate Claiming(b: Blob, claims: ClaimsSet)
  {
    b.CertBlob? && b.cert.payload == Some(ClaimsBlob(claims))
  }

  lemma ClaimsExactly(b: Blob, claims: ClaimsSet)
    ensures ClaimsOfCert(b) == Some(claims) <==> Claiming(b, claims)
  {
  }

  /** The first byte string among the claims under the number of the public key. */
  ghost predicate FirstKey(rest: Claims, key: Blob)
  {
    exists i | 0 <= i < |rest| ::
      && rest[i] == (PrivateUse(-4670552), Bytes(key))
      && forall j | 0 <= j < i :: !(rest[j].0 == PrivateUse(-4670552) && rest[j].1.Bytes?)
  }

  lemma {:induction false} KeyClaimExactly(rest: Claims, key: Blob)
    ensures FindKeyClaim(rest) == Some(key) <==> FirstKey(rest, key)
  {
    if rest == [] {
    } else if rest[0].0 == PrivateUse(-4670552) && rest[0].1.Bytes? {
      if rest[0].1.blob == key { assert rest[0] == (PrivateUse(-4670552), Bytes(key)); }
    } else {
      KeyClaimExactly(rest[1..], key);
      FirstKeyBehind(rest, key);
    }
  }

  lemma FirstKeyBehind(rest: Claims, key: Blob)
    requires rest != [] && !(rest[0].0 == PrivateUse(-4670552) && rest[0].1.Bytes?)
    ensures FirstKey(rest, key) <==> FirstKey(rest[1..], key)
  {
    var id, tail := PrivateUse(-4670552), rest[1..];
    if i :| 0 <= i < |tail| && tail[i] == (id, Bytes(key)) &&
            forall j | 0 <= j < i :: !(tail[j].0 == id && tail[j].1.Bytes?) {
      assert rest[i + 1] == (id, Bytes(key));
      assert forall j | 0 < j < i + 1 :: rest[j] == tail[j - 1];
    }
    if i :| 0 <= i < |rest| && rest[i] == (id, Bytes(key)) &&
            forall j | 0 <= j < i :: !(rest[j].0 == id && rest[j].1.Bytes?) {
      assert tail[i - 1] == (id, Bytes(key));
      assert forall j | 0 <= j < i - 1 :: tail[j] == rest[j + 1];
    }
  }

  /** The key of a certificate is a serialized COSE key in its first key claim. */
  ghost predicate Carries(b: Blob, key: CoseKey)
  {
    exists claims :: Claiming(b, claims) && FirstKey(claims.rest, KeyBlob(key))
  }

  lemma CarriedKey(b: Blob, key: CoseKey)
    ensures (ClaimsOfCert(b).Some? && PublicKeyFromClaims(ClaimsOfCert(b).value) == Some(key)) <==> Carries(b, key)
  {
    hide FirstKey, FindKeyClaim;
    if ClaimsOfCert(b).Some? {
      ClaimsExactly(b, ClaimsOfCert(b).value);
      KeyClaimExactly(ClaimsOfCert(b).value.rest, KeyBlob(key));
    }
    if claims :| Claiming(b, claims) && FirstKey(claims.rest, KeyBlob(key)) {
      KeyClaimExactly(claims.rest, KeyBlob(key));
    }
  }

  /** A certificate certifies a verifying or an encryption key exactly if it carries one that can be read so. */
  lemma CertifiedExactly(b: Blob, vk: VerifyingKey, kem: Blob)
    ensures CertifiedKey(b) == Some(vk) <==> exists key :: Carries(b, key) && CoseToVerifyingKey(key) == Some(vk)
    ensures EncryptionKeyOf(b) == Some(kem) <==> exists key :: Carries(b, key) && CoseToHpkeKey(key) == Some(kem)
  {
    hide Carries, ClaimsOfCert, PublicKeyFromClaims, CoseToVerifyingKey, CoseToHpkeKey;
    if ClaimsOfCert(b).Some? && PublicKeyFromClaims(ClaimsOfCert(b).value).Some? {
      CarriedKey(b, PublicKeyFromClaims(ClaimsOfCert(b).value).value);
    }
    if key :| Carries(b, key) && CoseToVerifyingKey(key) == Some(vk) { CarriedKey(b, key); }
    if key :| Carries(b, key) && CoseToHpkeKey(key) == Some(kem) { CarriedKey(b, key); }
  }

  /** The next issuer is the subject of the last layer, and an error without one. */
  lemma NextIssuerExactly(e: Evidence, id: Id)
    ensures NextIssuer(e) == Some(id) <==>
            e.layers != [] && exists claims :: Claiming(e.layers[|e.layers| - 1], claims) && claims.subject == Some(id)
  {
    hide ClaimsOfCert;
    if e.layers != [] {
      var last := e.layers[|e.layers| - 1];
      if ClaimsOfCert(last).Some? { ClaimsExactly(last, ClaimsOfCert(last).value); }
      if claims :| Claiming(last, claims) && claims.subject == Some(id) { ClaimsExactly(last, claims); }
    }
  }

  /** Both builder operations fail exactly when there is nobody to issue as. */
  lemma BuilderFailsExactly(b: Builder, additional: Claims, newKey: SigningKey, kem: Blob, vk: VerifyingKey,
                            groupKem: Option<Blob>, groupVk: Option<VerifyingKey>)
    ensures WithLayer(b, additional, newKey).None? <==> NextIssuer(b.evidence).None?
    ensures WithApplicationKeys(b, additional, kem, vk, groupKem, groupVk).None? <==> NextIssuer(b.evidence).None?
  {
    hide NextIssuer;
  }

  /** A builder is restored exactly from what it was serialized to. */
  lemma RestoredExactly(d: DiceData, b: Builder)
    ensures FromDiceData(d) == Some(b) <==> d == DiceData(Some(b.evidence), Some(b.signingKey))
    ensures FromDiceData(Serialized(b)) == Some(b)
  {
  }
}
