/** Verification of a candidate image against a registry that may answer anything. */
module ReleaseCandidate {
  import opened Wrappers
  import opened Text
  import opened Json
  import opened ReleaseIdentity
  import opened ReleaseManifest

  const OCI_CONFIG := "application/vnd.oci.image.config.v1+json"
  const LAYER_MEDIA_TYPES := {
    "application/vnd.oci.image.layer.v1.tar", "application/vnd.oci.image.layer.v1.tar+gzip",
    "application/vnd.oci.image.layer.v1.tar+zstd"
  }
  const RUNNABLE_KEYS := {"schemaVersion", "mediaType", "config", "layers", "annotations"}
  const DESCRIPTOR_KEYS := {"mediaType", "digest", "size"}

  /** A successful response; bytes are modelled as text. */
  datatype Response = Response(body: string, contentType: string, contentDigest: string)

  /** What the registry says during one verification; None is any other status. */
  datatype Answers = Answers(
    manifest: (string, string) -> Option<Response>, head: (string, string) -> Option<(int, string)>,
    blob: (string, string) -> Option<string>)

  /** Which release is expected, and how bytes are read. */
  datatype Setting = Setting(
    id: Identity, inventory: seq<string>, inherited: string -> map<string, Value>, codec: Codec, sha256: Hash)

  /** Two different texts with one hash. */
  predicate Collides(sha256: Hash, a: string, b: string) {
    a != b && sha256(a) == sha256(b)
  }

  function MediaType(header: string): string {
    Lower(Strip(Split(header, ';')[0]))
  }

  /** `get_manifest` by digest: the bytes have the digest, or nothing is returned. */
  function GetManifest(s: Setting, answers: Answers, service: string, digest: string): Option<Response> {
    match answers.manifest(service, digest)
    case None => None
    case Some(r) =>
      if MediaType(r.contentType) in {OCI_INDEX, OCI_MANIFEST} && DigestText(Str(r.contentDigest))
         && s.sha256(r.body) == r.contentDigest && r.contentDigest == digest
      then Some(r) else None
  }

  function ParseObject(codec: Codec, body: string): Option<Value> {
    var v := codec.loads(body);
    if v.Some? && v.value.Obj? then v else None
  }

  /** `_manifest_object` */
  function ManifestObject(s: Setting, r: Response, digest: string): Option<Value> {
    if s.sha256(r.body) != digest || MediaType(r.contentType) != OCI_MANIFEST then None
    else
      var v := ParseObject(s.codec, r.body);
      if v.Some? && PyEq(Get(v.value, "schemaVersion"), Int(2)) && PyEq(Get(v.value, "mediaType"), Str(OCI_MANIFEST))
      then v else None
  }

  /** A descriptor with exactly the three fields, a digest and a positive size. */
  predicate Descriptor(v: Value) {
    HasKeys(v, DESCRIPTOR_KEYS) && DigestText(Get(v, "digest")) && PositiveInt(Get(v, "size"))
  }

  predicate LayerOk(s: Setting, answers: Answers, service: string, layer: Value) {
    && Descriptor(layer) && Get(layer, "mediaType").Str? && Get(layer, "mediaType").s in LAYER_MEDIA_TYPES
    && answers.head(service, Get(layer, "digest").s)
       == Some((Get(layer, "size").n, Get(layer, "digest").s))
  }

  function Annotations(s: Setting, service: string): Value {
    Obj(map[
      "io.omega.release.service" := Str(service), "org.opencontainers.image.revision" := Str(s.id.sourceSha),
      "org.opencontainers.image.source" := Str("https://github.com/" + s.id.repository),
      "org.opencontainers.image.version" := Str(s.id.tag), "io.omega.release.run-id" := Str(Decimal(
        if s.id.runId >= 0 then s.id.runId else 0))])
  }

  function Labels(s: Setting, service: string): Value {
    Obj(s.inherited(service) + Annotations(s, service).fields)
  }

  /** The runnable manifest's own fields. */
  predicate RunnableOk(s: Setting, service: string, manifest: Value) {
    && HasKeys(manifest, RUNNABLE_KEYS) && PyEq(Get(manifest, "annotations"), Annotations(s, service))
    && Descriptor(Get(manifest, "config")) && PyEq(Get(Get(manifest, "config"), "mediaType"), Str(OCI_CONFIG))
    && Get(manifest, "layers").Arr? && Get(manifest, "layers").items != []
  }

  ghost predicate LayersOk(s: Setting, answers: Answers, service: string, layers: seq<Value>) {
    && (forall i :: 0 <= i < |layers| ==> LayerOk(s, answers, service, layers[i]))
    && forall i, j :: 0 <= i < j < |layers| ==> Get(layers[i], "digest") != Get(layers[j], "digest")
  }

  /** `get_blob` and the checks on the image configuration. */
  predicate ConfigOk(s: Setting, answers: Answers, service: string, config: Value) {
    && Descriptor(config)
    && var body := answers.blob(service, Get(config, "digest").s);
       && body.Some? && |body.value| == Get(config, "size").n && s.sha256(body.value) == Get(config, "digest").s
       && var v := ParseObject(s.codec, body.value);
          && v.Some? && PyEq(Get(v.value, "architecture"), Str("amd64")) && PyEq(Get(v.value, "os"), Str("linux"))
          && PyEq(Get(Get(v.value, "config"), "Labels"), Labels(s, service))
  }

  function DigestsOf(layers: seq<Value>): (digests: seq<Value>)
    ensures |digests| == |layers| && forall i :: 0 <= i < |layers| ==> digests[i] == Get(layers[i], "digest")
  {
    if layers == [] then [] else DigestsOf(layers[..|layers| - 1]) + [Get(layers[|layers| - 1], "digest")]
  }

  function ReceiptOf(s: Setting, service: string, digest: string, size: int, config: Value, layers: seq<Value>): Value {
    Obj(map[
      "schema_version" := Int(2), "kind" := Str("omega-release-image-candidate"),
      "repository" := Str(s.id.repository), "build_run_id" := Int(s.id.runId), "source_sha" := Str(s.id.sourceSha),
      "release_tag" := Str(s.id.tag), "service" := Str(service), "image" := Str(ImageOf(s.id.owner, service)),
      "digest" := Str(digest), "manifest_media_type" := Str(OCI_MANIFEST), "manifest_size" := Int(size),
      "config_digest" := Get(config, "digest"), "layer_digests" := Arr(DigestsOf(layers))])
  }

  /** The registry's answers satisfy every check for this digest. */
  ghost predicate Accepted(s: Setting, answers: Answers, service: string, digest: string) {
    && service in s.inventory && DigestText(Str(digest))
    && var r := GetManifest(s, answers, service, digest);
       && r.Some? && ManifestObject(s, r.value, digest).Some?
       && var m := ManifestObject(s, r.value, digest).value;
          && RunnableOk(s, service, m) && LayersOk(s, answers, service, Get(m, "layers").items)
          && ConfigOk(s, answers, service, Get(m, "config"))
  }

  /** The receipt those answers give. */
  ghost function AcceptedReceipt(s: Setting, answers: Answers, service: string, digest: string): Value
    requires Accepted(s, answers, service, digest)
  {
    var r := GetManifest(s, answers, service, digest).value;
    var m := ManifestObject(s, r, digest).value;
    ReceiptOf(s, service, digest, |r.body|, Get(m, "config"), Get(m, "layers").items)
  }

  /** `verify_candidate` */
  method VerifyCandidate(s: Setting, answers: Answers, service: string, digest: string) returns (r: Option<Value>)
    ensures r.Some? <==> Accepted(s, answers, service, digest)
    ensures r.Some? ==> r.value == AcceptedReceipt(s, answers, service, digest)
  {
    hide GetManifest, ManifestObject, RunnableOk, LayerOk, ConfigOk, DigestText, ReceiptOf;
    if service !in s.inventory || !DigestText(Str(digest)) {
      return None;
    }
    var result := GetManifest(s, answers, service, digest);
    if result.None? {
      return None;
    }
    var manifest := ManifestObject(s, result.value, digest);
    if manifest.None? || !RunnableOk(s, service, manifest.value) {
      return None;
    }
    LayersAreList(s, service, manifest.value);
    var config, layers := Get(manifest.value, "config"), Get(manifest.value, "layers").items;
    var ok := CheckLayers(s, answers, service, layers);
    if !ok || !ConfigOk(s, answers, service, config) {
      return None;
    }
    return Some(ReceiptOf(s, service, digest, |result.value.body|, config, layers));
  }

  lemma LayersAreList(s: Setting, service: string, manifest: Value)
    requires RunnableOk(s, service, manifest)
    ensures Get(manifest, "layers").Arr?
  {
  }

  method CheckLayers(s: Setting, answers: Answers, service: string, layers: seq<Value>) returns (ok: bool)
    ensures ok <==> LayersOk(s, answers, service, layers)
  {
    hide LayerOk;
    var seen: set<Value> := {};
    for i := 0 to |layers|
      invariant LayersOk(s, answers, service, layers[..i])
      invariant forall d :: d in seen <==> exists j :: 0 <= j < i && Get(layers[j], "digest") == d
    {
      var digest := Get(layers[i], "digest");
      if !LayerOk(s, answers, service, layers[i]) || digest in seen {
        return false;
      }
      seen := seen + {digest};
    }
    assert layers[..|layers|] == layers;
    return true;
  }

  // ----- The receipt depends on the digest alone -----

  /** The manifest bytes the registry gave. */
  ghost function ManifestBytes(s: Setting, answers: Answers, service: string, digest: string): string
    requires Accepted(s, answers, service, digest)
  {
    GetManifest(s, answers, service, digest).value.body
  }

  /**
   * Two verifications of one digest that succeed return equal receipts, whatever the two registries answer; or else
   * the two manifests they gave are a collision of the hash.
   */
  lemma ReceiptIsDetermined(s: Setting, one: Answers, other: Answers, service: string, digest: string)
    requires Accepted(s, one, service, digest) && Accepted(s, other, service, digest)
    ensures || AcceptedReceipt(s, one, service, digest) == AcceptedReceipt(s, other, service, digest)
            || Collides(s.sha256, ManifestBytes(s, one, service, digest), ManifestBytes(s, other, service, digest))
  {
    hide RunnableOk, LayerOk, LayersOk, ConfigOk, DigestText, ReceiptOf, MediaType, PyEq;
    var a := GetManifest(s, one, service, digest).value;
    var b := GetManifest(s, other, service, digest).value;
    assert s.sha256(a.body) == s.sha256(b.body);
  }

  lemma ReceiptFields(s: Setting, service: string, digest: string, size: int, config: Value, layers: seq<Value>)
    ensures var v := ReceiptOf(s, service, digest, size, config, layers);
            && Get(v, "schema_version") == Int(2) && Get(v, "kind") == Str("omega-release-image-candidate")
            && Get(v, "repository") == Str(s.id.repository) && Get(v, "build_run_id") == Int(s.id.runId)
            && Get(v, "source_sha") == Str(s.id.sourceSha) && Get(v, "release_tag") == Str(s.id.tag)
            && Get(v, "service") == Str(service) && Get(v, "image") == Str(ImageOf(s.id.owner, service))
  {
    hide ImageOf, DigestsOf;
    ReceiptHasKeys(s, service, digest, size, config, layers);
    var v := ReceiptOf(s, service, digest, size, config, layers);
    assert "kind" in v.fields && "repository" in v.fields && "build_run_id" in v.fields && "source_sha" in v.fields;
    assert "release_tag" in v.fields && "service" in v.fields && "image" in v.fields && "schema_version" in v.fields;
  }

  lemma ReceiptEvidence(s: Setting, service: string, digest: string, size: int, config: Value, layers: seq<Value>)
    ensures var v := ReceiptOf(s, service, digest, size, config, layers);
            && Get(v, "digest") == Str(digest) && Get(v, "manifest_media_type") == Str(OCI_MANIFEST)
            && Get(v, "manifest_size") == Int(size) && Get(v, "config_digest") == Get(config, "digest")
            && Get(v, "layer_digests") == Arr(DigestsOf(layers))
  {
    hide ImageOf, DigestsOf;
    ReceiptHasKeys(s, service, digest, size, config, layers);
    var v := ReceiptOf(s, service, digest, size, config, layers);
    assert "digest" in v.fields && "manifest_media_type" in v.fields && "manifest_size" in v.fields;
    assert "config_digest" in v.fields && "layer_digests" in v.fields;
  }

  lemma ReceiptHasKeys(s: Setting, service: string, digest: string, size: int, config: Value, layers: seq<Value>)
    ensures HasKeys(ReceiptOf(s, service, digest, size, config, layers), RECEIPT_KEYS)
  {
    hide ImageOf, DigestsOf, Get;
    var v := ReceiptOf(s, service, digest, size, config, layers);
    forall k ensures k in v.fields.Keys <==> k in RECEIPT_KEYS {
    }
  }

  /** The receipt of a verification passes the check every stored receipt has to pass. */
  lemma AcceptedReceiptIsValid(s: Setting, answers: Answers, service: string, digest: string)
    requires s.codec.loads("").None? && Accepted(s, answers, service, digest)
    ensures ValidReceipt(AcceptedReceipt(s, answers, service, digest), s.id, service)
    ensures Get(AcceptedReceipt(s, answers, service, digest), "digest") == Str(digest)
  {
    hide ReceiptOf, MediaType, PyEq, DigestText, HasKeys, ImageOf, Annotations, Labels;
    var r := GetManifest(s, answers, service, digest).value;
    var m := ManifestObject(s, r, digest).value;
    var config, layers := Get(m, "config"), Get(m, "layers").items;
    ReceiptFields(s, service, digest, |r.body|, config, layers);
    ReceiptEvidence(s, service, digest, |r.body|, config, layers);
    ReceiptHasKeys(s, service, digest, |r.body|, config, layers);
    assert r.body != "";
    forall i | 0 <= i < |layers| ensures DigestText(Get(layers[i], "digest")) {
      assert LayerOk(s, answers, service, layers[i]);
    }
    ReceiptScalars(AcceptedReceipt(s, answers, service, digest), s.id, service);
  }

  lemma ReceiptScalars(v: Value, id: Identity, service: string)
    requires Get(v, "schema_version") == Int(2) && Get(v, "kind") == Str("omega-release-image-candidate")
    requires Get(v, "repository") == Str(id.repository) && Get(v, "build_run_id") == Int(id.runId)
    requires Get(v, "source_sha") == Str(id.sourceSha) && Get(v, "release_tag") == Str(id.tag)
    requires Get(v, "service") == Str(service) && Get(v, "image") == Str(ImageOf(id.owner, service))
    requires Get(v, "manifest_media_type") == Str(OCI_MANIFEST)
    ensures ValidReceipt(v, id, service) <==>
            && HasKeys(v, RECEIPT_KEYS) && DigestText(Get(v, "digest")) && DigestText(Get(v, "config_digest"))
            && LayerList(Get(v, "layer_digests")) && PositiveInt(Get(v, "manifest_size"))
  {
    hide HasKeys, DigestText, LayerList, ImageOf;
  }

  /** `load_receipt`: the stored receipt, if it is valid and a fresh verification gives an equal one. */
  method LoadReceipt(s: Setting, stored: Option<Value>, answers: Answers, service: string)
    returns (r: Result<Option<Value>, ManifestError>)
    ensures stored.None? ==> r == Success(None)
    ensures stored.Some? ==>
              (r.Success? <==>
                 && ValidReceipt(stored.value, s.id, service)
                 && Accepted(s, answers, service, Get(stored.value, "digest").s)
                 && PyEq(AcceptedReceipt(s, answers, service, Get(stored.value, "digest").s), stored.value))
    ensures stored.Some? && r.Success? ==> r.value == stored
  {
    hide Accepted, AcceptedReceipt, PyEq;
    if stored.None? {
      return Success(None);
    }
    if !ValidReceipt(stored.value, s.id, service) {
      return Failure(InvalidImage);
    }
    var actual := VerifyCandidate(s, answers, service, Get(stored.value, "digest").s);
    if actual.None? || !PyEq(actual.value, stored.value) {
      return Failure(InvalidImage);
    }
    return Success(stored);
  }

  /**
   * A receipt once written is valid and matches every later verification that succeeds, so it is always loaded again,
   * unless the two registries gave a collision of the hash. JSON text is never empty.
   */
  lemma WrittenReceiptLoads(s: Setting, first: Answers, later: Answers, service: string, digest: string)
    requires s.codec.loads("").None?
    requires Accepted(s, first, service, digest) && Accepted(s, later, service, digest)
    ensures var stored := AcceptedReceipt(s, first, service, digest);
            && ValidReceipt(stored, s.id, service) && Get(stored, "digest") == Str(digest)
            && (|| PyEq(AcceptedReceipt(s, later, service, digest), stored)
                || Collides(s.sha256, ManifestBytes(s, first, service, digest),
                            ManifestBytes(s, later, service, digest)))
  {
    hide Accepted, AcceptedReceipt, ValidReceipt, PyEq;
    AcceptedReceiptIsValid(s, first, service, digest);
    ReceiptIsDetermined(s, first, later, service, digest);
    PyEqReflexive(AcceptedReceipt(s, first, service, digest));
  }
}
