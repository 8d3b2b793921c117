/** The release manifest: written by one script, checked by two others. */
module ReleaseManifest {
  import opened Wrappers
  import opened Text
  import opened Sorting
  import opened Json
  import opened ReleaseIdentity

  const MANIFEST_KEYS :=
    {"schema_version", "kind", "repository", "release_tag", "source_sha", "build_run_id", "images"}

  const IMAGE_KEYS := {
    "schema_version", "service", "image", "release_tag", "source_sha", "build_run_id", "digest", "digest_reference",
    "manifest_media_type", "manifest_size"
  }

  const RECEIPT_KEYS := {
    "schema_version", "kind", "repository", "build_run_id", "source_sha", "release_tag", "service", "image", "digest",
    "manifest_media_type", "manifest_size", "config_digest", "layer_digests"
  }

  type Hash = string -> string

  predicate HasKeys(v: Value, keys: set<string>) {
    v.Obj? && v.fields.Keys == keys
  }

  /** `DIGEST_RE` */
  predicate DigestText(v: Value) {
    v.Str? && |v.s| > 7 && v.s[..7] == "sha256:" && Hex(v.s[7..], 64)
  }

  predicate PositiveInt(v: Value) {
    v.Int? && v.n > 0
  }

  // ----- Receipts -----

  predicate LayerList(v: Value) {
    && v.Arr? && v.items != [] && (forall i :: 0 <= i < |v.items| ==> DigestText(v.items[i]))
    && forall i, j :: 0 <= i < j < |v.items| ==> v.items[i] != v.items[j]
  }

  /** `validate_receipt` */
  predicate ValidReceipt(v: Value, id: Identity, service: string) {
    && HasKeys(v, RECEIPT_KEYS)
    && PyEq(Get(v, "schema_version"), Int(2)) && PyEq(Get(v, "kind"), Str("omega-release-image-candidate"))
    && PyEq(Get(v, "repository"), Str(id.repository)) && PyEq(Get(v, "build_run_id"), Int(id.runId))
    && PyEq(Get(v, "source_sha"), Str(id.sourceSha)) && PyEq(Get(v, "release_tag"), Str(id.tag))
    && PyEq(Get(v, "service"), Str(service)) && PyEq(Get(v, "image"), Str(ImageOf(id.owner, service)))
    && PyEq(Get(v, "manifest_media_type"), Str(OCI_MANIFEST))
    && DigestText(Get(v, "digest")) && DigestText(Get(v, "config_digest")) && LayerList(Get(v, "layer_digests"))
    && PositiveInt(Get(v, "manifest_size"))
  }

  // ----- Writing -----

  /** `digest_reference` as the three scripts spell it. */
  function Pinned(image: string, digest: Value): Value {
    Str(image + "@" + if digest.Str? then digest.s else "")
  }

  /** `_image_entry` */
  function ImageEntry(id: Identity, receipt: Value): Value {
    var service := Get(receipt, "service");
    var image := ImageOf(id.owner, if service.Str? then service.s else "");
    Obj(map[
      "schema_version" := Int(2), "service" := service, "image" := Str(image), "release_tag" := Str(id.tag),
      "source_sha" := Str(id.sourceSha), "build_run_id" := Int(id.runId), "digest" := Get(receipt, "digest"),
      "digest_reference" := Pinned(image, Get(receipt, "digest")),
      "manifest_media_type" := Get(receipt, "manifest_media_type"), "manifest_size" := Get(receipt, "manifest_size")])
  }

  function ImageEntries(id: Identity, receipts: seq<Value>): (entries: seq<Value>)
    ensures |entries| == |receipts|
    ensures forall i :: 0 <= i < |receipts| ==> entries[i] == ImageEntry(id, receipts[i])
  {
    if receipts == [] then []
    else ImageEntries(id, receipts[..|receipts| - 1]) + [ImageEntry(id, receipts[|receipts| - 1])]
  }

  function ManifestOf(id: Identity, images: seq<Value>): Value {
    Obj(map[
      "schema_version" := Int(2), "kind" := Str("omega-release-manifest"), "repository" := Str(id.repository),
      "release_tag" := Str(id.tag), "source_sha" := Str(id.sourceSha), "build_run_id" := Int(id.runId),
      "images" := Arr(images)])
  }

  datatype Asset = Asset(name: string, body: string)

  function ManifestName(tag: string): string {
    "omega-release-manifest-" + tag + ".json"
  }

  function ChecksumText(body: string, name: string, sha256: Hash): string {
    sha256(body) + "  " + name + "\n"
  }

  /** `write_manifest`: the manifest and its checksum, unless some receipt is missing. */
  method WriteManifest(
    id: Identity, inventory: seq<string>, loadReceipt: string -> Option<Value>, codec: Codec, sha256: Hash)
    returns (r: Option<(Asset, Asset)>)
    ensures r.Some? <==> forall i :: 0 <= i < |inventory| ==> loadReceipt(inventory[i]).Some?
    ensures r.Some? ==> exists receipts :: Collected(inventory, loadReceipt, receipts)
                                           && r.value == Written(id, receipts, codec, sha256)
  {
    var receipts := [];
    for i := 0 to |inventory|
      invariant |receipts| == i
      invariant forall j :: 0 <= j < i ==> loadReceipt(inventory[j]) == Some(receipts[j])
    {
      var receipt := loadReceipt(inventory[i]);
      if receipt.None? {
        return None;
      }
      receipts := receipts + [receipt.value];
    }
    assert Collected(inventory, loadReceipt, receipts);
    var name := ManifestName(id.tag);
    var body := codec.dumps(ManifestOf(id, ImageEntries(id, receipts)));
    return Some((Asset(name, body), Asset(name + ".sha256", ChecksumText(body, name, sha256))));
  }

  ghost predicate Collected(inventory: seq<string>, loadReceipt: string -> Option<Value>, receipts: seq<Value>) {
    && |receipts| == |inventory|
    && forall i :: 0 <= i < |inventory| ==> loadReceipt(inventory[i]) == Some(receipts[i])
  }

  ghost function Written(id: Identity, receipts: seq<Value>, codec: Codec, sha256: Hash): (Asset, Asset) {
    var name, body := ManifestName(id.tag), codec.dumps(ManifestOf(id, ImageEntries(id, receipts)));
    (Asset(name, body), Asset(name + ".sha256", ChecksumText(body, name, sha256)))
  }

  // ----- Loading -----

  /** What the caller expects the manifest to be bound to. */
  datatype Expected = Expected(repository: string, tag: string, sourceSha: string, runId: int)

  /** One turn of the loop in `load_manifest`. */
  predicate LoadsImage(image: Value, manifest: Value, owner: string, service: string) {
    && HasKeys(image, IMAGE_KEYS)
    && PyEq(Get(image, "schema_version"), Int(2)) && PyEq(Get(image, "service"), Str(service))
    && PyEq(Get(image, "release_tag"), Get(manifest, "release_tag"))
    && PyEq(Get(image, "source_sha"), Get(manifest, "source_sha"))
    && PyEq(Get(image, "build_run_id"), Get(manifest, "build_run_id"))
    && PyEq(Get(image, "image"), Str(ImageOf(owner, service)))
    && PyEq(Get(image, "manifest_media_type"), Str(OCI_MANIFEST)) && PositiveInt(Get(image, "manifest_size"))
    && DigestText(Get(image, "digest"))
    && PyEq(Get(image, "digest_reference"), Pinned(ImageOf(owner, service), Get(image, "digest")))
  }

  predicate LoadsHeader(v: Value, e: Expected) {
    && HasKeys(v, MANIFEST_KEYS)
    && PyEq(Get(v, "schema_version"), Int(2)) && PyEq(Get(v, "kind"), Str("omega-release-manifest"))
    && PositiveInt(Get(v, "build_run_id"))
    && PyEq(Get(v, "repository"), Str(e.repository)) && PyEq(Get(v, "release_tag"), Str(e.tag))
    && PyEq(Get(v, "source_sha"), Str(e.sourceSha)) && Get(v, "build_run_id").n == e.runId
  }

  /** The structural checks of `load_manifest`. */
  ghost predicate Loads(v: Value, e: Expected, inventory: seq<string>) {
    && LoadsHeader(v, e) && Get(v, "images").Arr? && |Get(v, "images").items| == |inventory|
    && forall i :: 0 <= i < |inventory| ==>
         LoadsImage(Get(v, "images").items[i], v, Lower(RepositoryOwner(e.repository)), inventory[i])
  }

  datatype ManifestError =
    | NotCanonical | WrongName | WrongChecksum | InvalidHeader | InvalidInventory | InvalidImage

  /** `_strict_json` */
  function StrictJson(raw: string, codec: Codec): Option<Value> {
    var v := codec.loads(raw);
    if v.None? || !v.value.Obj? || codec.dumps(v.value) != raw then None else v
  }

  /** `load_manifest`: the digest reference of each service. */
  method LoadManifest(
    manifest: Asset, checksum: Asset, e: Expected, inventory: seq<string>, codec: Codec, sha256: Hash)
    returns (r: Result<map<string, Value>, ManifestError>)
    ensures r.Success? <==>
              && StrictJson(manifest.body, codec).Some?
              && manifest.name == ManifestName(e.tag) && checksum.name == manifest.name + ".sha256"
              && checksum.body == ChecksumText(manifest.body, manifest.name, sha256)
              && Loads(StrictJson(manifest.body, codec).value, e, inventory)
    ensures r.Success? && Distinct(inventory) ==>
              && (forall service :: service in r.value <==> service in inventory)
              && forall i :: 0 <= i < |inventory| ==>
                   r.value[inventory[i]]
                   == Get(Get(StrictJson(manifest.body, codec).value, "images").items[i], "digest_reference")
  {
    hide StrictJson, LoadsHeader, LoadsImage, PyEq, Lower;
    var parsed := StrictJson(manifest.body, codec);
    if parsed.None? {
      return Failure(NotCanonical);
    }
    var v := parsed.value;
    if manifest.name != ManifestName(e.tag) {
      return Failure(WrongName);
    }
    if checksum.body != ChecksumText(manifest.body, manifest.name, sha256)
       || checksum.name != manifest.name + ".sha256" {
      return Failure(WrongChecksum);
    }
    if !LoadsHeader(v, e) {
      return Failure(InvalidHeader);
    }
    var images := Get(v, "images");
    if !images.Arr? || |images.items| != |inventory| {
      return Failure(InvalidInventory);
    }
    var byService: map<string, Value> := map[];
    for i := 0 to |inventory|
      invariant forall j :: 0 <= j < i ==>
        LoadsImage(images.items[j], v, Lower(RepositoryOwner(e.repository)), inventory[j])
      invariant forall service :: service in byService <==> service in inventory[..i]
      invariant Distinct(inventory) ==>
        forall j :: 0 <= j < i ==>
          inventory[j] in byService && byService[inventory[j]] == Get(images.items[j], "digest_reference")
    {
      if !LoadsImage(images.items[i], v, Lower(RepositoryOwner(e.repository)), inventory[i]) {
        return Failure(InvalidImage);
      }
      byService := byService[inventory[i] := Get(images.items[i], "digest_reference")];
      assert inventory[..i + 1] == inventory[..i] + [inventory[i]];
    }
    assert inventory[..|inventory|] == inventory;
    return Success(byService);
  }

  // ----- The selector's check -----

  /** The dictionary `_manifest_v2_is_canonical` compares an entry with. */
  function CanonicalEntry(
    image: string, service: string, tag: string, commit: string, runId: Value, digest: Value, size: Value): Value
  {
    Obj(map[
      "schema_version" := Int(2), "service" := Str(service), "image" := Str(image), "release_tag" := Str(tag),
      "source_sha" := Str(commit), "build_run_id" := runId, "digest" := digest,
      "digest_reference" := Pinned(image, digest), "manifest_media_type" := Str(OCI_MANIFEST),
      "manifest_size" := size])
  }

  predicate SelectsImage(
    entry: Value, owner: string, service: string, tag: string, commit: string, runId: Value)
  {
    && HasKeys(entry, IMAGE_KEYS) && DigestText(Get(entry, "digest")) && PositiveInt(Get(entry, "manifest_size"))
    && PyEq(entry, CanonicalEntry(ImageOf(owner, service), service, tag, commit, runId, Get(entry, "digest"),
                                  Get(entry, "manifest_size")))
  }

  /** `_manifest_v2_is_canonical` for a full inventory. */
  ghost predicate Selects(v: Value, repository: string, tag: string, commit: string, inventory: seq<string>) {
    && HasKeys(v, MANIFEST_KEYS)
    && PyEq(Get(v, "schema_version"), Int(2)) && PyEq(Get(v, "kind"), Str("omega-release-manifest"))
    && PyEq(Get(v, "repository"), Str(repository)) && PyEq(Get(v, "release_tag"), Str(tag))
    && PyEq(Get(v, "source_sha"), Str(commit)) && PositiveInt(Get(v, "build_run_id"))
    && Get(v, "images").Arr? && |Get(v, "images").items| == |inventory|
    && forall i :: 0 <= i < |inventory| ==>
         SelectsImage(Get(v, "images").items[i], RepositoryOwner(repository), inventory[i], tag, commit,
                      Get(v, "build_run_id"))
  }

  // ----- Writer and readers -----

  lemma EntryFields(id: Identity, receipt: Value)
    requires Get(receipt, "service").Str?
    ensures var e, image := ImageEntry(id, receipt), ImageOf(id.owner, Get(receipt, "service").s);
            && HasKeys(e, IMAGE_KEYS)
            && Get(e, "schema_version") == Int(2) && Get(e, "service") == Get(receipt, "service")
            && Get(e, "image") == Str(image) && Get(e, "release_tag") == Str(id.tag)
            && Get(e, "source_sha") == Str(id.sourceSha) && Get(e, "build_run_id") == Int(id.runId)
            && Get(e, "digest") == Get(receipt, "digest")
            && Get(e, "digest_reference") == Pinned(image, Get(receipt, "digest"))
            && Get(e, "manifest_media_type") == Get(receipt, "manifest_media_type")
            && Get(e, "manifest_size") == Get(receipt, "manifest_size")
  {
    hide ImageOf, Pinned;
    var e := ImageEntry(id, receipt);
    forall k ensures k in e.fields.Keys <==> k in IMAGE_KEYS {
    }
  }

  lemma ManifestFields(id: Identity, images: seq<Value>)
    ensures var v := ManifestOf(id, images);
            && HasKeys(v, MANIFEST_KEYS)
            && Get(v, "schema_version") == Int(2) && Get(v, "kind") == Str("omega-release-manifest")
            && Get(v, "repository") == Str(id.repository) && Get(v, "release_tag") == Str(id.tag)
            && Get(v, "source_sha") == Str(id.sourceSha) && Get(v, "build_run_id") == Int(id.runId)
            && Get(v, "images") == Arr(images)
  {
    var v := ManifestOf(id, images);
    forall k ensures k in v.fields.Keys <==> k in MANIFEST_KEYS {
    }
  }

  /** The entry written for a valid receipt passes the loader. */
  lemma WrittenImageLoads(id: Identity, receipt: Value, service: string, manifest: Value)
    requires Valid(id) && ValidReceipt(receipt, id, service)
    requires Get(manifest, "release_tag") == Str(id.tag) && Get(manifest, "source_sha") == Str(id.sourceSha)
    requires Get(manifest, "build_run_id") == Int(id.runId)
    ensures LoadsImage(ImageEntry(id, receipt), manifest, Lower(RepositoryOwner(id.repository)), service)
    ensures Get(ImageEntry(id, receipt), "digest_reference")
         == Pinned(ImageOf(id.owner, service), Get(receipt, "digest"))
  {
    hide ImageEntry, DigestText, LayerList, Lower, RepositoryShape, ImageOf, Pinned, HasKeys;
    EntryFields(id, receipt);
    PyEqReflexive(Pinned(ImageOf(id.owner, service), Get(receipt, "digest")));
  }

  ghost predicate ValidReceipts(receipts: seq<Value>, id: Identity, inventory: seq<string>) {
    && |receipts| == |inventory|
    && forall i :: 0 <= i < |inventory| ==> ValidReceipt(receipts[i], id, inventory[i])
  }

  function ExpectedOf(id: Identity): Expected {
    Expected(id.repository, id.tag, id.sourceSha, id.runId)
  }

  /**
   * If the written manifest is read back as it was printed, `load_manifest` accepts what `write_manifest` wrote, and
   * the loaded reference of each service is its image at the receipt's digest.
   */
  lemma WrittenManifestLoads(
    id: Identity, receipts: seq<Value>, inventory: seq<string>, codec: Codec, sha256: Hash)
    requires Valid(id) && ValidReceipts(receipts, id, inventory)
    requires ReadsBack(codec, ManifestOf(id, ImageEntries(id, receipts)))
    ensures var (manifest, checksum) := Written(id, receipts, codec, sha256);
            && StrictJson(manifest.body, codec).Some?
            && manifest.name == ManifestName(id.tag) && checksum.name == manifest.name + ".sha256"
            && checksum.body == ChecksumText(manifest.body, manifest.name, sha256)
            && var v := StrictJson(manifest.body, codec).value;
               && Loads(v, ExpectedOf(id), inventory)
               && forall i :: 0 <= i < |inventory| ==>
                    Get(Get(v, "images").items[i], "digest_reference")
                    == Pinned(ImageOf(id.owner, inventory[i]), Get(receipts[i], "digest"))
  {
    hide ValidReceipt, ImageEntry, LoadsImage, ImageOf, Pinned, ManifestName, ChecksumText, RepositoryShape, Lower;
    var images := ImageEntries(id, receipts);
    var v := ManifestOf(id, images);
    ManifestFields(id, images);
    forall i | 0 <= i < |inventory|
      ensures LoadsImage(images[i], v, Lower(RepositoryOwner(id.repository)), inventory[i])
      ensures Get(images[i], "digest_reference") == Pinned(ImageOf(id.owner, inventory[i]), Get(receipts[i], "digest"))
    {
      WrittenImageLoads(id, receipts[i], inventory[i], v);
    }
  }

  /** The selector's one dictionary comparison says what the loader's field checks say. */
  lemma SameImages(entry: Value, manifest: Value, owner: string, service: string, tag: string, commit: string)
    requires Get(manifest, "release_tag") == Str(tag) && Get(manifest, "source_sha") == Str(commit)
    ensures LoadsImage(entry, manifest, owner, service) <==>
            SelectsImage(entry, owner, service, tag, commit, Get(manifest, "build_run_id"))
  {
    hide DigestText, ImageOf, Pinned, CanonicalEntry, HasKeys, PyEq, PositiveInt;
    var runId, digest, size := Get(manifest, "build_run_id"), Get(entry, "digest"), Get(entry, "manifest_size");
    var other := CanonicalEntry(ImageOf(owner, service), service, tag, commit, runId, digest, size);
    CanonicalFields(ImageOf(owner, service), service, tag, commit, runId, digest, size);
    PyEqReflexive(digest);
    PyEqReflexive(size);
    if HasKeys(entry, IMAGE_KEYS) {
      EqByFields(entry, other);
    }
  }

  lemma CanonicalFields(
    image: string, service: string, tag: string, commit: string, runId: Value, digest: Value, size: Value)
    ensures var e := CanonicalEntry(image, service, tag, commit, runId, digest, size);
            && HasKeys(e, IMAGE_KEYS)
            && Get(e, "schema_version") == Int(2) && Get(e, "service") == Str(service)
            && Get(e, "image") == Str(image) && Get(e, "release_tag") == Str(tag)
            && Get(e, "source_sha") == Str(commit) && Get(e, "build_run_id") == runId
            && Get(e, "digest") == digest && Get(e, "digest_reference") == Pinned(image, digest)
            && Get(e, "manifest_media_type") == Str(OCI_MANIFEST) && Get(e, "manifest_size") == size
  {
    hide Pinned;
    var e := CanonicalEntry(image, service, tag, commit, runId, digest, size);
    forall k ensures k in e.fields.Keys <==> k in IMAGE_KEYS {
    }
  }

  /** Two entries are equal when their ten fields are. */
  lemma EqByFields(a: Value, b: Value)
    requires HasKeys(a, IMAGE_KEYS) && HasKeys(b, IMAGE_KEYS)
    ensures PyEq(a, b) <==>
            && SameField(a, b, "schema_version") && SameField(a, b, "service") && SameField(a, b, "image")
            && SameField(a, b, "release_tag") && SameField(a, b, "source_sha") && SameField(a, b, "build_run_id")
            && SameField(a, b, "digest") && SameField(a, b, "digest_reference")
            && SameField(a, b, "manifest_media_type") && SameField(a, b, "manifest_size")
  {
    EqByKeys(a, b);
    hide PyEq, Get, SameField;
    assert forall k :: k in a.fields.Keys <==> k in IMAGE_KEYS;
  }

  predicate SameField(a: Value, b: Value, key: string) {
    PyEq(Get(a, key), Get(b, key))
  }

  lemma EqByKeys(a: Value, b: Value)
    requires a.Obj? && b.Obj? && a.fields.Keys == b.fields.Keys
    ensures PyEq(a, b) <==> forall k :: k in a.fields.Keys ==> SameField(a, b, k)
  {
  }

  /** For a repository whose owner is lower case the two readers accept the same manifests. */
  lemma ReadersAgree(v: Value, e: Expected, inventory: seq<string>)
    requires Lower(RepositoryOwner(e.repository)) == RepositoryOwner(e.repository)
    ensures Loads(v, e, inventory) <==>
            Selects(v, e.repository, e.tag, e.sourceSha, inventory) && Get(v, "build_run_id") == Int(e.runId)
  {
    hide LoadsImage, SelectsImage, Lower, HasKeys;
    PyEqString(Get(v, "release_tag"), e.tag);
    PyEqString(Get(v, "source_sha"), e.sourceSha);
    if Get(v, "release_tag") == Str(e.tag) && Get(v, "source_sha") == Str(e.sourceSha) && Get(v, "images").Arr?
       && |Get(v, "images").items| == |inventory| {
      forall i | 0 <= i < |inventory|
        ensures LoadsImage(Get(v, "images").items[i], v, RepositoryOwner(e.repository), inventory[i]) <==>
                SelectsImage(Get(v, "images").items[i], RepositoryOwner(e.repository), inventory[i], e.tag,
                             e.sourceSha, Get(v, "build_run_id"))
      {
        SameImages(Get(v, "images").items[i], v, RepositoryOwner(e.repository), inventory[i], e.tag, e.sourceSha);
      }
    }
  }

  /** For any other repository no manifest passes both: the loader lowers the owner and the selector does not. */
  lemma ReadersDisagree(v: Value, e: Expected, inventory: seq<string>)
    requires Lower(RepositoryOwner(e.repository)) != RepositoryOwner(e.repository) && inventory != []
    ensures !(Loads(v, e, inventory) && Selects(v, e.repository, e.tag, e.sourceSha, inventory))
  {
    hide LoadsHeader, Lower, HasKeys, DigestText;
    if Loads(v, e, inventory) {
      var image := Get(v, "images").items[0];
      var loader, selector := Lower(RepositoryOwner(e.repository)), RepositoryOwner(e.repository);
      assert LoadsImage(image, v, loader, inventory[0]);
      PyEqString(Get(image, "image"), ImageOf(loader, inventory[0]));
      OwnersShow(loader, selector, inventory[0]);
      SelectedImage(image, selector, inventory[0], e.tag, e.sourceSha, Get(v, "build_run_id"));
    }
  }

  lemma OwnersShow(a: string, b: string, service: string)
    ensures ImageOf(a, service) == ImageOf(b, service) ==> a == b
  {
    var x, y := ImageOf(a, service), ImageOf(b, service);
    if x == y {
      assert |a| == |b|;
      assert a == x[8..8 + |a|];
      assert b == y[8..8 + |b|];
    }
  }

  lemma SelectedImage(entry: Value, owner: string, service: string, tag: string, commit: string, runId: Value)
    ensures SelectsImage(entry, owner, service, tag, commit, runId) ==>
              Get(entry, "image") == Str(ImageOf(owner, service))
  {
    hide DigestText, ImageOf, Pinned, CanonicalEntry, HasKeys, PyEq, PositiveInt;
    CanonicalFields(ImageOf(owner, service), service, tag, commit, runId, Get(entry, "digest"),
                    Get(entry, "manifest_size"));
    if HasKeys(entry, IMAGE_KEYS) {
      EqByFields(entry, CanonicalEntry(ImageOf(owner, service), service, tag, commit, runId, Get(entry, "digest"),
                                       Get(entry, "manifest_size")));
    }
    PyEqString(Get(entry, "image"), ImageOf(owner, service));
  }
}
