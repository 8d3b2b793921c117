/**
 * Who a release is: repository, owner, commit, tag and workflow run. A digest is the SHA-256 of the bytes it names;
 * it is modelled as those bytes, so two digests are equal only when the bytes are.
 */
module ReleaseIdentity {
  import opened Wrappers
  import opened Text
  import opened SemVer

  type Bytes = seq<bv8>

  datatype Digest = Sha256(body: Bytes)

  datatype Identity = Identity(repository: string, owner: string, sourceSha: string, tag: string, runId: int)

  predicate Alphanumeric(c: char) {
    '0' <= c <= '9' || 'A' <= c <= 'Z' || 'a' <= c <= 'z'
  }

  predicate OwnerPart(s: string) {
    1 <= |s| <= 39 && Alphanumeric(s[0]) && forall c :: c in s ==> Alphanumeric(c) || c == '-'
  }

  /** `REPOSITORY_RE.fullmatch` */
  predicate RepositoryShape(repository: string) {
    var parts := Split(repository, '/');
    && |parts| == 2 && OwnerPart(parts[0])
    && 1 <= |parts[1]| <= 100 && forall c :: c in parts[1] ==> Alphanumeric(c) || c in "_.-"
  }

  function RepositoryOwner(repository: string): string {
    Split(repository, '/')[0]
  }

  /** The owner expression, and the check against "--". */
  predicate OwnerShape(owner: string) {
    && OwnerPart(owner) && Alphanumeric(owner[|owner| - 1])
    && forall i :: 0 <= i < |owner| - 1 ==> !(owner[i] == '-' && owner[i + 1] == '-')
  }

  predicate Hex(s: string, n: nat) {
    |s| == n && forall c :: c in s ==> '0' <= c <= '9' || 'a' <= c <= 'f'
  }

  /** `ReleaseIdentity.create` */
  function Create(repository: string, owner: string, sourceSha: string, tag: string, runId: int): (r: Option<Identity>)
    ensures r.Some? ==> Valid(r.value)
  {
    if !RepositoryShape(repository) || Lower(RepositoryOwner(repository)) != Lower(owner) || !OwnerShape(owner)
       || !Hex(sourceSha, 40) || Parse(tag).None? || runId <= 0 then None
    else Some(Identity(repository, Lower(owner), sourceSha, tag, runId))
  }

  /** What every identity in use satisfies. */
  predicate Valid(id: Identity) {
    && RepositoryShape(id.repository) && id.owner == Lower(RepositoryOwner(id.repository))
    && Hex(id.sourceSha, 40) && Parse(id.tag).Some? && id.runId > 0
  }

  const OCI_INDEX := "application/vnd.oci.image.index.v1+json"
  const OCI_MANIFEST := "application/vnd.oci.image.manifest.v1+json"

  function ImageOf(owner: string, service: string): string {
    "ghcr.io/" + owner + "/" + service
  }

  function Image(id: Identity, service: string): string {
    ImageOf(id.owner, service)
  }

  /** The two names a release gives each image. */
  function FinalNames(id: Identity): seq<string> {
    [id.tag, "sha-" + id.sourceSha]
  }

  /** A strict tag starts with v, so the two names never coincide. */
  lemma FinalNamesDiffer(id: Identity)
    requires Valid(id)
    ensures FinalNames(id)[0] != FinalNames(id)[1]
  {
    assert id.tag[0] == 'v' && ("sha-" + id.sourceSha)[0] == 's';
  }
}
