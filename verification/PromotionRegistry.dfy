/** `promote` and `verify_final` against a registry whose PUTs carry If-None-Match: * (section 13.1.2 of RFC 9110). */
module PromotionRegistry {
  import opened Wrappers
  import opened Sorting
  import opened ReleaseIdentity
  import opened Promotion

  /** What a run may rely on besides the references: manifests by digest, and candidates that pass verification. */
  datatype Evidence = Evidence(stored: set<(string, Digest)>, verified: set<(string, Digest)>)

  predicate CandidatesFetch(e: Evidence, images: seq<Receipt>) {
    forall n :: 0 <= n < |images| ==>
      (images[n].service, images[n].digest) in e.stored && |images[n].digest.body| == images[n].size
  }

  predicate CandidatesVerify(e: Evidence, images: seq<Receipt>) {
    forall n :: 0 <= n < |images| ==> (images[n].service, images[n].digest) in e.verified
  }

  /** The condition under which promoting needs nothing but PUTs. */
  predicate Promotable(refs: Refs, e: Evidence, id: Identity, intent: Intent, inventory: seq<string>) {
    && AcceptsIntent(id, intent, inventory)
    && (forall n :: 0 <= n < |intent.images| ==> AcceptsReceipt(id, intent.images[n]))
    && CandidatesFetch(e, intent.images) && CandidatesVerify(e, intent.images)
    && Agrees(refs, Plan(id, intent.images))
  }

  /** The registry after some prefix of the plan has been bound, and nothing else. */
  ghost predicate BoundPrefix(refs: Refs, plan: seq<Binding>, after: Refs) {
    exists k :: 0 <= k <= |plan| && after == Bind(refs, plan[..k])
  }

  lemma NothingBound(refs: Refs, plan: seq<Binding>)
    ensures Bind(refs, plan[..0]) == refs && Absent(refs, plan[..0]) == 0 && Agrees(refs, plan[..0])
    ensures BoundPrefix(refs, plan, refs)
  {
    assert refs == Bind(refs, plan[..0]);
  }

  class Registry {
    var refs: Refs
    const evidence: Evidence

    constructor (refs: Refs, evidence: Evidence)
      ensures this.refs == refs && this.evidence == evidence
    {
      this.refs, this.evidence := refs, evidence;
    }

    /** `get_manifest` by digest. */
    method GetCandidate(service: string, digest: Digest) returns (body: Option<Bytes>)
      ensures body == if (service, digest) in evidence.stored then Some(digest.body) else None
    {
      body := if (service, digest) in evidence.stored then Some(digest.body) else None;
    }

    /** `get_manifest` by name, reduced to the digest of what it returns. */
    method GetReference(ref: Reference) returns (current: Option<Digest>)
      ensures current == if ref in refs then Some(refs[ref]) else None
    {
      current := if ref in refs then Some(refs[ref]) else None;
    }

    method PutManifest(ref: Reference, body: Bytes, mediaType: string, expected: Digest)
      returns (r: Result<(), PromotionError>)
      modifies this`refs
      ensures r.Success? <==> mediaType in {OCI_INDEX, OCI_MANIFEST} && Sha256(body) == expected && ref !in old(refs)
      ensures refs == if r.Success? then old(refs)[ref := expected] else old(refs)
    {
      if mediaType !in {OCI_INDEX, OCI_MANIFEST} || Sha256(body) != expected {
        return Failure(InvalidPut);
      }
      if ref in refs {
        return Failure(PutRefused);
      }
      refs := refs[ref := expected];
      return Success(());
    }

    /** One final reference: leave it, bind it, or refuse. */
    method BindReference(b: Binding, body: Bytes, mediaType: string) returns (r: Result<bool, PromotionError>)
      requires mediaType == OCI_INDEX && Sha256(body) == b.digest
      modifies this`refs
      ensures r.Failure? <==> b.ref in old(refs) && old(refs)[b.ref] != b.digest
      ensures r.Success? ==> (r.value <==> b.ref !in old(refs))
      ensures refs == if b.ref in old(refs) then old(refs) else old(refs)[b.ref := b.digest]
    {
      var current := GetReference(b.ref);
      if current.Some? {
        return if current.value != b.digest then Failure(ReferenceConflict) else Success(false);
      }
      var put := PutManifest(b.ref, body, mediaType, b.digest);
      match put {
        case Failure(error) => return Failure(error);
        case Success(_) =>
      }
      var verified := GetReference(b.ref);
      if verified != Some(b.digest) {
        return Failure(ReferenceNotBound);
      }
      return Success(true);
    }

    method VerifyFinal(id: Identity, intent: Intent, inventory: seq<string>) returns (r: Result<(), PromotionError>)
      ensures r.Success? <==>
              && |intent.images| == |inventory|
              && (forall n :: 0 <= n < |intent.images| ==> AcceptsReceipt(id, intent.images[n]))
              && CandidatesVerify(evidence, intent.images)
              && AllBound(refs, Plan(id, intent.images))
    {
      hide Plan, Image;
      var images, plan := intent.images, Plan(id, intent.images);
      if |images| != |inventory| {
        return Failure(Incomplete);
      }
      var verified, n := 0, 0;
      while n < |images|
        invariant 0 <= n <= |images| && verified == 2 * n
        invariant forall m :: 0 <= m < n ==> AcceptsReceipt(id, images[m])
        invariant CandidatesVerify(evidence, images[..n])
        invariant AllBound(refs, plan[..2 * n])
      {
        var receipt := images[n];
        PlanAt(id, images, n, 0);
        PlanAt(id, images, n, 1);
        if !AcceptsReceipt(id, receipt) {
          return Failure(InvalidReceipt);
        }
        if (receipt.service, receipt.digest) !in evidence.verified {
          return Failure(CandidateRejected);
        }
        var names, j := FinalNames(id), 0;
        while j < 2
          invariant 0 <= j <= 2 && verified == 2 * n + j && AllBound(refs, plan[..2 * n + j])
        {
          var current := GetReference(Reference(id.owner, receipt.service, names[j]));
          if current != Some(receipt.digest) {
            assert plan[2 * n + j].ref !in refs || refs[plan[2 * n + j].ref] != plan[2 * n + j].digest;
            return Failure(ReferenceNotBound);
          }
          verified, j := verified + 1, j + 1;
        }
        n := n + 1;
      }
      assert images[..n] == images && plan[..2 * n] == plan;
      return if verified != 2 * |inventory| then Failure(Incomplete) else Success(());
    }

    /**
     * Binds the plan in order. It succeeds exactly when the starting state is Promotable and the injected failure,
     * if any, is not reached; it then returns the number of references that were absent. A failing run has bound
     * some prefix of the plan and changed nothing else.
     */
    method Promote(id: Identity, intent: Intent, inventory: seq<string>, failureAfterPut: Option<int>)
      returns (r: Result<nat, PromotionError>)
      requires Valid(id) && Distinct(inventory)
      modifies this`refs
      ensures BoundPrefix(old(refs), Plan(id, intent.images), refs)
      ensures r.Success? <==>
              && Promotable(old(refs), evidence, id, intent, inventory)
              && !(failureAfterPut.Some? && 1 <= failureAfterPut.value <= Absent(old(refs), Plan(id, intent.images)))
      ensures r.Success? ==>
                var plan := Plan(id, intent.images);
                refs == Bind(old(refs), plan) && AllBound(refs, plan) && r.value == Absent(old(refs), plan)
    {
      hide Bind, Absent, Agrees, AllBound, Plan, Image;
      var images := intent.images;
      ghost var plan := Plan(id, images);
      ghost var before := refs;
      NothingBound(before, plan);
      var expected :- ExpectedIntent(id, images, inventory);
      if intent != expected {
        return Failure(IntentDiffers);
      }
      assert Services(images) == inventory;
      PlanRefsDistinct(id, images);
      var puts, n := 0, 0;
      while n < |images|
        invariant 0 <= n <= |images|
        invariant forall m :: 0 <= m < n ==> AcceptsReceipt(id, images[m])
        invariant CandidatesFetch(evidence, images[..n])
        invariant Agrees(before, plan[..2 * n])
        invariant refs == Bind(before, plan[..2 * n]) && puts == Absent(before, plan[..2 * n])
        invariant failureAfterPut.Some? && failureAfterPut.value >= 1 ==> puts < failureAfterPut.value
      {
        var receipt := images[n];
        if !AcceptsReceipt(id, receipt) {
          return Failure(InvalidReceipt);
        }
        var candidate := GetCandidate(receipt.service, receipt.digest);
        if candidate.None? {
          return Failure(CandidateMissing);
        }
        if |candidate.value| != receipt.size || Sha256(candidate.value) != receipt.digest {
          return Failure(CandidateChanged);
        }
        var names, j := FinalNames(id), 0;
        while j < 2
          invariant 0 <= j <= 2
          invariant Agrees(before, plan[..2 * n + j])
          invariant refs == Bind(before, plan[..2 * n + j]) && puts == Absent(before, plan[..2 * n + j])
          invariant failureAfterPut.Some? && failureAfterPut.value >= 1 ==> puts < failureAfterPut.value
        {
          ghost var k := 2 * n + j;
          PlanAt(id, images, n, j);
          NextBinding(before, plan, k);
          var b := Binding(Reference(id.owner, receipt.service, names[j]), receipt.digest);
          var put :- BindReference(b, candidate.value, receipt.mediaType);
          assert refs == Bind(before, plan[..k + 1]);
          if put {
            puts := puts + 1;
            if failureAfterPut == Some(puts) {
              AbsentPrefix(before, plan, k + 1);
              return Failure(InjectedFailure);
            }
          }
          j := j + 1;
        }
        n := n + 1;
      }
      assert images[..n] == images && plan[..2 * n] == plan;
      BoundIffAgreed(before, plan);
      var _ :- VerifyFinal(id, intent, inventory);
      return Success(puts);
    }
  }

  /** What happens to the registry, the count and the agreement at the k-th binding. */
  lemma NextBinding(refs: Refs, plan: seq<Binding>, k: nat)
    requires DistinctRefs(plan) && k < |plan|
    ensures var b, so := plan[k], Bind(refs, plan[..k]);
            && Bind(refs, plan[..k + 1]) == (if b.ref in so then so else so[b.ref := b.digest])
            && (b.ref in so <==> b.ref in refs) && (b.ref in so ==> so[b.ref] == refs[b.ref])
            && Absent(refs, plan[..k + 1]) == Absent(refs, plan[..k]) + (if b.ref in refs then 0 else 1)
            && (Agrees(refs, plan[..k + 1]) <==>
                  Agrees(refs, plan[..k]) && (b.ref in refs ==> refs[b.ref] == b.digest))
            && (Agrees(refs, plan) ==>
                  Agrees(refs, plan[..k + 1]) && (b.ref in refs ==> refs[b.ref] == b.digest))
            && BoundPrefix(refs, plan, so)
  {
    assert plan[..k + 1][..k] == plan[..k];
    BindKeeps(refs, plan[..k]);
    RefsOfPrefix(plan, k, k);
    AgreesPrefix(refs, plan, k);
  }

  lemma AgreesPrefix(refs: Refs, plan: seq<Binding>, k: nat)
    requires k < |plan|
    ensures Agrees(refs, plan[..k + 1]) <==>
            Agrees(refs, plan[..k]) && (plan[k].ref in refs ==> refs[plan[k].ref] == plan[k].digest)
    ensures Agrees(refs, plan) ==> Agrees(refs, plan[..k + 1])
  {
    assert plan[..k + 1] == plan[..k] + [plan[k]];
    if Agrees(refs, plan[..k + 1]) {
      assert forall n :: 0 <= n < k ==> plan[..k][n] == plan[..k + 1][n];
      assert plan[..k + 1][k] == plan[k];
    }
  }

  lemma {:induction false} AbsentPrefix(refs: Refs, plan: seq<Binding>, k: nat)
    requires k <= |plan|
    ensures Absent(refs, plan[..k]) <= Absent(refs, plan)
  {
    if k < |plan| {
      assert plan[..|plan| - 1][..k] == plan[..k];
      AbsentPrefix(refs, plan[..|plan| - 1], k);
    } else {
      assert plan[..k] == plan;
    }
  }
}
