/** The choice of the previous release. */
module PreviousRelease {
  import opened Wrappers
  import opened Sorting
  import opened SemVer
  import opened CommitHistory

  /** The versions the parser produces. */
  type Parsed = v: Version | ValidPre(v.pre) witness Version(0, 0, 0, None)

  /** What `cat-file` says of an object; peeled is the commit it resolves to. */
  datatype Object =
    | CommitObject
    | TagObject(target: string, kind: string, name: string, peeled: Option<Commit>)
    | OtherObject

  datatype Repository = Repository(
    shallow: bool, dag: Dag, tags: seq<string>, tagCommit: map<string, Commit>, refs: map<string, string>,
    objects: map<string, Object>)

  type TrustVerifier = (string, Commit) -> bool

  // ----- The ordinary path -----

  datatype Candidate = Candidate(distance: nat, version: Parsed, tag: string, commit: Commit)

  ghost predicate Eligible(repo: Repository, current: Option<string>, parent: Commit, tag: string)
    requires Acyclic(repo.dag)
  {
    && tag in repo.tags && Parse(tag).Some? && current != Some(tag)
    && tag in repo.tagCommit && repo.tagCommit[tag] in Ancestors(repo.dag, parent)
  }

  ghost predicate TrustedTag(
    repo: Repository, current: Option<string>, parent: Commit, trust: TrustVerifier, tag: string)
    requires Acyclic(repo.dag)
  {
    Eligible(repo, current, parent, tag) && trust(tag, repo.tagCommit[tag])
  }

  function DistanceOf(repo: Repository, parent: Commit, tag: string): nat
    requires Acyclic(repo.dag) && tag in repo.tagCommit
  {
    Distance(repo.dag, repo.tagCommit[tag], parent)
  }

  /** The trusted tag nearest to the parent, the highest version among those equally near. */
  ghost predicate Best(repo: Repository, current: Option<string>, parent: Commit, trust: TrustVerifier, tag: string)
    requires Acyclic(repo.dag)
  {
    && TrustedTag(repo, current, parent, trust, tag)
    && forall other :: TrustedTag(repo, current, parent, trust, other) ==>
         || DistanceOf(repo, parent, tag) < DistanceOf(repo, parent, other)
         || (DistanceOf(repo, parent, tag) == DistanceOf(repo, parent, other)
             && (other == tag || Lt(Parse(other).value, Parse(tag).value)))
  }

  /** No trusted tag lies between the chosen one and the parent. */
  lemma BestIsNearest(
    repo: Repository, current: Option<string>, parent: Commit, trust: TrustVerifier, tag: string, other: string)
    requires Acyclic(repo.dag) && Best(repo, current, parent, trust, tag)
    requires TrustedTag(repo, current, parent, trust, other)
    ensures repo.tagCommit[tag] != repo.tagCommit[other] ==>
              repo.tagCommit[tag] !in Ancestors(repo.dag, repo.tagCommit[other])
  {
    var c, o := repo.tagCommit[tag], repo.tagCommit[other];
    if c != o && c in Ancestors(repo.dag, o) {
      AncestorsAreFarther(repo.dag, c, o, parent);
    }
  }

  /** There is only one such tag. */
  lemma BestIsUnique(
    repo: Repository, current: Option<string>, parent: Commit, trust: TrustVerifier, a: string, b: string)
    requires Acyclic(repo.dag) && Best(repo, current, parent, trust, a) && Best(repo, current, parent, trust, b)
    ensures a == b
  {
    hide Lt, Parse, Distance;
    var va, vb := Parse(a).value, Parse(b).value;
    LtIsStrictTotalOrder(va, vb, va);
  }

  predicate HigherVersion(a: Candidate, b: Candidate) {
    Lt(b.version, a.version)
  }

  lemma HigherVersionOrders()
    ensures StrictWeakOrder(HigherVersion)
  {
    hide Lt;
    forall a: Candidate, b: Candidate ensures HigherVersion(a, b) ==> !HigherVersion(b, a) {
      LtIsStrictTotalOrder(a.version, b.version, a.version);
    }
    forall a: Candidate, b: Candidate, c: Candidate
      ensures !HigherVersion(b, a) && !HigherVersion(c, b) ==> !HigherVersion(c, a)
    {
      LtIsStrictTotalOrder(a.version, b.version, c.version);
      LtIsStrictTotalOrder(c.version, b.version, a.version);
      LtIsStrictTotalOrder(a.version, c.version, b.version);
      LtIsStrictTotalOrder(b.version, c.version, a.version);
    }
  }

  function AtDistance(candidates: seq<Candidate>, d: nat): seq<Candidate> {
    if candidates == [] then []
    else
      var last := candidates[|candidates| - 1];
      AtDistance(candidates[..|candidates| - 1], d) + if last.distance == d then [last] else []
  }

  lemma {:induction false} AtDistanceMembers(candidates: seq<Candidate>, d: nat)
    ensures forall c :: c in AtDistance(candidates, d) <==> c in candidates && c.distance == d
  {
    if candidates != [] {
      AtDistanceMembers(candidates[..|candidates| - 1], d);
      assert candidates == candidates[..|candidates| - 1] + [candidates[|candidates| - 1]];
    }
  }

  predicate Nearer(a: nat, b: nat) {
    a < b
  }

  /** `sorted({candidate[0] for candidate in candidates})` */
  method SortedDistances(candidates: seq<Candidate>) returns (distances: seq<nat>)
    ensures forall i, j :: 0 <= i < j < |distances| ==> distances[i] < distances[j]
    ensures forall d :: d in distances <==> exists c :: c in candidates && c.distance == d
  {
    var rest, listed := set c | c in candidates :: c.distance, [];
    while rest != {}
      invariant forall d :: (exists c :: c in candidates && c.distance == d) <==> d in rest || d in listed
      invariant Distinct(listed) && forall d :: d in listed ==> d !in rest
    {
      var d :| d in rest;
      rest, listed := rest - {d}, listed + [d];
    }
    distances := Sort(listed, Nearer);
    SortOrders(listed, Nearer);
    SortDistinct(listed, Nearer);
    SortMembers(listed, Nearer);
    forall i, j | 0 <= i < j < |distances| ensures distances[i] < distances[j] {
      assert !Nearer(distances[j], distances[i]) && distances[i] != distances[j];
    }
  }

  function CandidateFor(repo: Repository, parent: Commit, tag: string): Candidate
    requires Acyclic(repo.dag) && tag in repo.tagCommit && Parse(tag).Some?
  {
    Candidate(DistanceOf(repo, parent, tag), Parse(tag).value, tag, repo.tagCommit[tag])
  }

  /** The candidates are exactly the eligible tags among those listed. */
  ghost predicate Gathered(
    repo: Repository, current: Option<string>, parent: Commit, tags: seq<string>, candidates: seq<Candidate>)
    requires Acyclic(repo.dag)
  {
    && (forall c :: c in candidates ==>
          && c.tag in tags && Eligible(repo, current, parent, c.tag) && c == CandidateFor(repo, parent, c.tag))
    && forall tag :: tag in tags && Eligible(repo, current, parent, tag) ==>
         CandidateFor(repo, parent, tag) in candidates
  }

  method GatherCandidates(repo: Repository, current: Option<string>, parent: Commit)
    returns (candidates: seq<Candidate>)
    requires Acyclic(repo.dag)
    ensures Gathered(repo, current, parent, repo.tags, candidates)
  {
    candidates := [];
    for i := 0 to |repo.tags|
      invariant Gathered(repo, current, parent, repo.tags[..i], candidates)
    {
      hide Gathered, CandidateFor, Parse, Ancestors, Distance;
      var tag := repo.tags[i];
      assert repo.tags[..i + 1] == repo.tags[..i] + [tag];
      GatherOne(repo, current, parent, repo.tags[..i], tag, candidates);
      if Parse(tag).Some? && current != Some(tag) && tag in repo.tagCommit
         && repo.tagCommit[tag] in Ancestors(repo.dag, parent) {
        candidates := candidates + [CandidateFor(repo, parent, tag)];
      }
    }
    assert repo.tags[..|repo.tags|] == repo.tags;
  }

  lemma GatherOne(
    repo: Repository, current: Option<string>, parent: Commit, tags: seq<string>, tag: string,
    candidates: seq<Candidate>)
    requires Acyclic(repo.dag) && Gathered(repo, current, parent, tags, candidates) && tag in repo.tags
    ensures Eligible(repo, current, parent, tag) ==>
              Gathered(repo, current, parent, tags + [tag], candidates + [CandidateFor(repo, parent, tag)])
    ensures !Eligible(repo, current, parent, tag) ==> Gathered(repo, current, parent, tags + [tag], candidates)
  {
    hide Parse, Ancestors, Distance;
    assert forall t :: t in tags + [tag] <==> t in tags || t == tag;
    if Eligible(repo, current, parent, tag) {
      var c := CandidateFor(repo, parent, tag);
      assert forall x :: x in candidates + [c] <==> x in candidates || x == c;
    }
  }

  method FirstTrusted(candidates: seq<Candidate>, trust: TrustVerifier) returns (found: Option<nat>)
    ensures match found
            case None => forall i :: 0 <= i < |candidates| ==> !trust(candidates[i].tag, candidates[i].commit)
            case Some(n) => && n < |candidates| && trust(candidates[n].tag, candidates[n].commit)
                            && forall i :: 0 <= i < n ==> !trust(candidates[i].tag, candidates[i].commit)
  {
    for i := 0 to |candidates|
      invariant forall j :: 0 <= j < i ==> !trust(candidates[j].tag, candidates[j].commit)
    {
      if trust(candidates[i].tag, candidates[i].commit) {
        return Some(i);
      }
    }
    return None;
  }

  ghost predicate NoneTrusted(candidates: seq<Candidate>, trust: TrustVerifier, distances: seq<nat>) {
    forall c :: c in candidates && c.distance in distances ==> !trust(c.tag, c.commit)
  }

  /** The ordinary path of `select_previous_release`. */
  method SelectOrdinary(repo: Repository, current: Option<string>, parent: Commit, trust: TrustVerifier)
    returns (r: Option<(Commit, string)>)
    requires Acyclic(repo.dag)
    ensures r.None? <==> forall tag :: !TrustedTag(repo, current, parent, trust, tag)
    ensures r.Some? ==> Best(repo, current, parent, trust, r.value.1) && r.value.0 == repo.tagCommit[r.value.1]
  {
    hide Best, Gathered, Parse, Distance, Ancestors, AtDistance, HigherVersion;
    var candidates := GatherCandidates(repo, current, parent);
    var distances := SortedDistances(candidates);
    HigherVersionOrders();
    for k := 0 to |distances|
      invariant NoneTrusted(candidates, trust, distances[..k])
    {
      var near := AtDistance(candidates, distances[k]);
      var ranked := Sort(near, HigherVersion);
      AtDistanceMembers(candidates, distances[k]);
      SortMembers(near, HigherVersion);
      SortOrders(near, HigherVersion);
      var found := FirstTrusted(ranked, trust);
      if found.Some? {
        FoundIsBest(repo, current, parent, trust, candidates, distances, k, ranked, found.value);
        return Some((ranked[found.value].commit, ranked[found.value].tag));
      }
      assert distances[..k + 1] == distances[..k] + [distances[k]];
      assert forall c :: c in candidates && c.distance == distances[k] ==> c in ranked;
    }
    NothingFound(repo, current, parent, trust, candidates, distances);
    return None;
  }

  lemma NothingFound(
    repo: Repository, current: Option<string>, parent: Commit, trust: TrustVerifier, candidates: seq<Candidate>,
    distances: seq<nat>)
    requires Acyclic(repo.dag) && Gathered(repo, current, parent, repo.tags, candidates)
    requires forall c :: c in candidates ==> c.distance in distances
    requires NoneTrusted(candidates, trust, distances[..|distances|])
    ensures forall tag :: !TrustedTag(repo, current, parent, trust, tag)
  {
    hide Parse, Ancestors, Distance;
    assert distances[..|distances|] == distances;
    forall tag | Eligible(repo, current, parent, tag) ensures !trust(tag, repo.tagCommit[tag]) {
      assert CandidateFor(repo, parent, tag) in candidates;
    }
  }

  /** The first trusted candidate, nearest distance first and highest version first, is the best tag. */
  lemma FoundIsBest(
    repo: Repository, current: Option<string>, parent: Commit, trust: TrustVerifier, candidates: seq<Candidate>,
    distances: seq<nat>, k: nat, ranked: seq<Candidate>, n: nat)
    requires Acyclic(repo.dag) && Gathered(repo, current, parent, repo.tags, candidates)
    requires k < |distances| && NoneTrusted(candidates, trust, distances[..k])
    requires forall i, j :: 0 <= i < j < |distances| ==> distances[i] < distances[j]
    requires forall c :: c in candidates ==> c.distance in distances
    requires forall c :: c in ranked <==> c in candidates && c.distance == distances[k]
    requires Ordered(ranked, HigherVersion)
    requires n < |ranked| && trust(ranked[n].tag, ranked[n].commit)
    requires forall i :: 0 <= i < n ==> !trust(ranked[i].tag, ranked[i].commit)
    ensures Best(repo, current, parent, trust, ranked[n].tag) && ranked[n].commit == repo.tagCommit[ranked[n].tag]
    ensures TrustedTag(repo, current, parent, trust, ranked[n].tag)
  {
    hide Parse, Ancestors, Distance, Lt;
    var chosen := ranked[n];
    assert chosen in ranked && chosen in candidates;
    forall other | TrustedTag(repo, current, parent, trust, other)
      ensures || chosen.distance < DistanceOf(repo, parent, other)
              || (chosen.distance == DistanceOf(repo, parent, other)
                  && (other == chosen.tag || Lt(Parse(other).value, chosen.version)))
    {
      var o := CandidateFor(repo, parent, other);
      assert o in candidates && trust(o.tag, o.commit);
      forall m | 0 <= m < k ensures distances[m] != o.distance {
        assert distances[..k][m] == distances[m];
      }
      var m :| 0 <= m < |distances| && distances[m] == o.distance;
      if o.distance == distances[k] {
        var j :| 0 <= j < |ranked| && ranked[j] == o;
        assert j >= n;
        if j > n {
          assert !HigherVersion(ranked[j], ranked[n]);
          LtIsStrictTotalOrder(o.version, chosen.version, o.version);
          if o.version == chosen.version {
            ParseInjective(other, chosen.tag);
          }
        }
      }
    }
  }
}
