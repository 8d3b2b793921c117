/** Recovery of a built candidate from the package versions of its service. */
module PackageRecovery {
  import opened Wrappers
  import opened Json
  import opened ReleaseIdentity
  import opened ReleaseManifest
  import opened ReleaseCandidate

  const PAGE_SIZE := 100
  const MAX_PACKAGE_PAGES := 20

  /** `get_manifest` with allow_absent: it raises, finds nothing, or returns bytes. */
  datatype Lookup = Raised | NotThere | Found(response: Response)

  /**
   * What the package and registry services answer: each page of versions, None for a failed call or a status other than
   * 200, and manifests by digest.
   */
  datatype Services = Services(pages: nat -> Option<Response>, lookup: string -> Lookup, answers: Answers)

  predicate AllObjects(items: seq<Value>) {
    forall i :: 0 <= i < |items| ==> items[i].Obj?
  }

  /** `_list_page`: None when it raises. */
  function ListPage(s: Setting, services: Services, n: nat): Option<seq<Value>> {
    match services.pages(n)
    case None => None
    case Some(r) =>
      if MediaType(r.contentType) !in {"application/json", "application/vnd.github+json"} then None
      else match s.codec.loads(r.body)
        case Some(Arr(items)) => if AllObjects(items) then Some(items) else None
        case _ => None
  }

  datatype Examined = Skip | Match(digest: string) | Raise

  /** The body of the loop over versions, before the candidate is verified. */
  function Examine(s: Setting, services: Services, service: string, version: Value): Examined {
    var name := Get(version, "name");
    if !DigestText(name) then Skip
    else match services.lookup(name.s)
      case Raised => Raise
      case NotThere => Skip
      case Found(r) =>
        if MediaType(r.contentType) != OCI_MANIFEST then Skip
        else
          var v := ParseObject(s.codec, r.body);
          if v.None? then Raise
          else if PyEq(Get(v.value, "annotations"), Annotations(s, service)) then Match(name.s) else Skip
  }

  /** Nothing raises, and every match verifies. */
  ghost predicate AllFine(s: Setting, services: Services, service: string, versions: seq<Value>) {
    forall i :: 0 <= i < |versions| ==>
      match Examine(s, services, service, versions[i])
      case Skip => true
      case Match(digest) => Accepted(s, services.answers, service, digest)
      case Raise => false
  }

  /** The digests that match this release's annotations. */
  ghost function MatchingDigests(s: Setting, services: Services, service: string, versions: seq<Value>): set<string> {
    set v | v in versions && Examine(s, services, service, v).Match? :: Examine(s, services, service, v).digest
  }

  /** The versions of the first n pages. */
  function Versions(s: Setting, services: Services, n: nat): seq<Value> {
    if n == 0 then []
    else
      var page := ListPage(s, services, n);
      Versions(s, services, n - 1) + if page.Some? then page.value else []
  }

  ghost predicate FullPage(s: Setting, services: Services, n: nat) {
    var page := ListPage(s, services, n);
    page.Some? && |page.value| >= PAGE_SIZE
  }

  /** Page n is listed and is the first that is not full. */
  ghost predicate LastPage(s: Setting, services: Services, n: nat) {
    && 1 <= n <= MAX_PACKAGE_PAGES && ListPage(s, services, n).Some? && !FullPage(s, services, n)
    && forall k: nat :: 1 <= k < n ==> FullPage(s, services, k)
  }

  /** Every version of every page up to the last was examined, and at most one digest matched. */
  ghost predicate Recovers(s: Setting, services: Services, service: string, n: nat) {
    && LastPage(s, services, n) && AllFine(s, services, service, Versions(s, services, n))
    && |MatchingDigests(s, services, service, Versions(s, services, n))| <= 1
  }

  ghost predicate Recorded(
    s: Setting, services: Services, service: string, versions: seq<Value>, matches: map<string, Value>)
  {
    && AllFine(s, services, service, versions)
    && matches.Keys == MatchingDigests(s, services, service, versions)
    && forall d :: d in matches ==>
         Accepted(s, services.answers, service, d)
         && matches[d] == AcceptedReceipt(s, services.answers, service, d)
  }

  /** The verification of one version. */
  method ExamineOne(
    s: Setting, services: Services, service: string, version: Value, matches: map<string, Value>,
    ghost before: seq<Value>) returns (r: Option<map<string, Value>>)
    requires Recorded(s, services, service, before, matches)
    ensures r.Some? <==> AllFine(s, services, service, before + [version])
    ensures r.Some? ==> Recorded(s, services, service, before + [version], r.value)
  {
    hide Examine, Accepted, AcceptedReceipt;
    var step := Examine(s, services, service, version);
    ghost var all := before + [version];
    assert all[|before|] == version;
    assert forall i :: 0 <= i < |before| ==> all[i] == before[i];
    assert forall v :: v in all <==> v in before || v == version;
    match step {
      case Raise => return None;
      case Skip =>
        assert MatchingDigests(s, services, service, all) == MatchingDigests(s, services, service, before);
        return Some(matches);
      case Match(digest) =>
        var receipt := VerifyCandidate(s, services.answers, service, digest);
        if receipt.None? {
          return None;
        }
        assert MatchingDigests(s, services, service, all)
            == MatchingDigests(s, services, service, before) + {digest};
        return Some(matches[digest := receipt.value]);
    }
  }

  /** `recover`: the one candidate of this run, none, or an error. */
  method Recover(s: Setting, services: Services, service: string) returns (r: Option<Option<Value>>)
    ensures r.Some? <==> exists n: nat :: Recovers(s, services, service, n)
    ensures forall n: nat :: r.Some? && Recovers(s, services, service, n) ==>
              var digests := MatchingDigests(s, services, service, Versions(s, services, n));
              && (r.value.None? <==> digests == {})
              && (r.value.Some? ==>
                    exists d :: digests == {d} && Accepted(s, services.answers, service, d)
                                && r.value.value == AcceptedReceipt(s, services.answers, service, d))
  {
    hide Examine, Accepted, AcceptedReceipt, AllFine, MatchingDigests, Recorded, ListPage;
    var matches: map<string, Value> := map[];
    var n := 0;
    NothingRecorded(s, services, service);
    while n < MAX_PACKAGE_PAGES
      invariant 0 <= n <= MAX_PACKAGE_PAGES
      invariant forall k: nat :: 1 <= k <= n ==> FullPage(s, services, k)
      invariant Recorded(s, services, service, Versions(s, services, n), matches)
    {
      n := n + 1;
      var page := ListPage(s, services, n);
      if page.None? {
        NeverListed(s, services, service, n);
        return None;
      }
      var versions := page.value;
      ghost var before := Versions(s, services, n - 1);
      assert versions[..0] == [] && before + [] == before;
      for i := 0 to |versions|
        invariant Recorded(s, services, service, before + versions[..i], matches)
      {
        hide Versions;
        assert before + versions[..i] + [versions[i]] == before + versions[..i + 1];
        var one := ExamineOne(s, services, service, versions[i], matches, before + versions[..i]);
        if one.None? {
          NeverFine(s, services, service, n, i + 1);
          return None;
        }
        matches := one.value;
      }
      assert versions[..|versions|] == versions;
      if |versions| < PAGE_SIZE {
        OnlyLastPage(s, services, n);
        RecordedMatches(s, services, service, Versions(s, services, n), matches);
        if |matches| > 1 {
          return None;
        }
        assert Recovers(s, services, service, n);
        if matches.Keys == {} {
          return Some(None);
        }
        var d :| d in matches;
        OneKey(matches.Keys, d);
        return Some(Some(matches[d]));
      }
    }
    return None;
  }

  lemma NothingRecorded(s: Setting, services: Services, service: string)
    ensures Recorded(s, services, service, Versions(s, services, 0), map[])
  {
  }

  lemma RecordedMatches(
    s: Setting, services: Services, service: string, versions: seq<Value>, matches: map<string, Value>)
    requires Recorded(s, services, service, versions, matches)
    ensures matches.Keys == MatchingDigests(s, services, service, versions)
    ensures |matches| == |MatchingDigests(s, services, service, versions)|
    ensures AllFine(s, services, service, versions)
    ensures forall d :: d in matches ==>
              Accepted(s, services.answers, service, d)
              && matches[d] == AcceptedReceipt(s, services.answers, service, d)
  {
    hide AllFine, MatchingDigests, Accepted, AcceptedReceipt;
    assert |matches| == |matches.Keys|;
  }

  lemma OnlyLastPage(s: Setting, services: Services, n: nat)
    requires LastPage(s, services, n)
    ensures forall m: nat :: LastPage(s, services, m) <==> m == n
  {
  }

  lemma OneKey(keys: set<string>, d: string)
    requires d in keys && |keys| <= 1
    ensures keys == {d}
  {
    assert |keys - {d}| == 0;
  }

  lemma {:induction false} VersionsPrefix(s: Setting, services: Services, n: nat, m: nat)
    requires n <= m
    ensures Versions(s, services, n) <= Versions(s, services, m)
  {
    if n < m {
      VersionsPrefix(s, services, n, m - 1);
    }
  }

  /** A page that cannot be listed after full pages ends the scan. */
  lemma NeverListed(s: Setting, services: Services, service: string, n: nat)
    requires 1 <= n && ListPage(s, services, n).None? && forall k: nat :: 1 <= k < n ==> FullPage(s, services, k)
    ensures forall m: nat :: !Recovers(s, services, service, m)
  {
    hide ListPage, AllFine, MatchingDigests;
    assert !FullPage(s, services, n);
  }

  /** A version that raises, or a match that does not verify, spoils every later end of the scan. */
  lemma NeverFine(s: Setting, services: Services, service: string, n: nat, i: nat)
    requires 1 <= n && (forall k: nat :: 1 <= k < n ==> FullPage(s, services, k))
    requires var page := ListPage(s, services, n);
             && page.Some? && i <= |page.value|
             && !AllFine(s, services, service, Versions(s, services, n - 1) + page.value[..i])
    ensures forall m: nat :: !Recovers(s, services, service, m)
  {
    hide Examine, Accepted, ListPage;
    var page := ListPage(s, services, n).value;
    forall m: nat | LastPage(s, services, m) ensures !AllFine(s, services, service, Versions(s, services, m)) {
      assert m >= n;
      VersionsPrefix(s, services, n, m);
      var some, all := Versions(s, services, n - 1) + page[..i], Versions(s, services, m);
      assert some <= Versions(s, services, n);
      assert forall j :: 0 <= j < |some| ==> some[j] == all[j];
    }
  }
}
