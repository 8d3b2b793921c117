/** Release promotion: a sealed intent, and the bindings of final references it asks for. */
module Promotion {
  import opened Wrappers
  import opened Sorting
  import opened ReleaseIdentity

  datatype Receipt = Receipt(
    schemaVersion: int, kind: string, repository: string, runId: int, sourceSha: string, tag: string,
    service: string, image: string, digest: Digest, mediaType: string, size: int, runnable: Digest,
    attestation: Digest)

  datatype Intent = Intent(
    schemaVersion: int, kind: string, repository: string, runId: int, sourceSha: string, tag: string,
    images: seq<Receipt>)

  datatype PromotionError =
    | InvalidInventory | IntentDiffers | InvalidReceipt | CandidateMissing | CandidateChanged | ReferenceConflict
    | InvalidPut | PutRefused | ReferenceNotBound | CandidateRejected | Incomplete | InjectedFailure

  datatype Reference = Reference(owner: string, service: string, name: string)

  /** A final reference and the digest it must end up naming. */
  datatype Binding = Binding(ref: Reference, digest: Digest)

  type Refs = map<Reference, Digest>

  function Services(images: seq<Receipt>): (r: seq<string>)
    ensures |r| == |images|
  {
    seq(|images|, i requires 0 <= i < |images| => images[i].service)
  }

  /** `_intent`, for any inventory of services. */
  function ExpectedIntent(id: Identity, images: seq<Receipt>, inventory: seq<string>): Result<Intent, PromotionError> {
    if Services(images) != inventory then Failure(InvalidInventory)
    else Success(Intent(1, "omega-release-promotion-intent", id.repository, id.runId, id.sourceSha, id.tag, images))
  }

  predicate AcceptsIntent(id: Identity, intent: Intent, inventory: seq<string>) {
    ExpectedIntent(id, intent.images, inventory) == Success(intent)
  }

  /** `validate_receipt` */
  predicate AcceptsReceipt(id: Identity, r: Receipt) {
    && r.schemaVersion == 1 && r.kind == "omega-release-image-candidate" && r.repository == id.repository
    && r.runId == id.runId && r.sourceSha == id.sourceSha && r.tag == id.tag
    && r.image == Image(id, r.service) && r.mediaType == OCI_INDEX && r.size > 0
  }

  /** Every reference the intent binds, in the order `promote` visits them. */
  function Plan(id: Identity, images: seq<Receipt>): (plan: seq<Binding>)
    ensures |plan| == 2 * |images|
  {
    if images == [] then []
    else
      var r := images[|images| - 1];
      Plan(id, images[..|images| - 1])
      + [Binding(Reference(id.owner, r.service, FinalNames(id)[0]), r.digest),
         Binding(Reference(id.owner, r.service, FinalNames(id)[1]), r.digest)]
  }

  lemma {:induction false} PlanAt(id: Identity, images: seq<Receipt>, n: nat, j: nat)
    requires n < |images| && j < 2
    ensures Plan(id, images)[2 * n + j]
         == Binding(Reference(id.owner, images[n].service, FinalNames(id)[j]), images[n].digest)
  {
    if n < |images| - 1 {
      PlanAt(id, images[..|images| - 1], n, j);
    }
  }

  ghost predicate DistinctRefs(plan: seq<Binding>) {
    forall m, n :: 0 <= m < n < |plan| ==> plan[m].ref != plan[n].ref
  }

  lemma PlanRefsDistinct(id: Identity, images: seq<Receipt>)
    requires Valid(id) && Distinct(Services(images))
    ensures DistinctRefs(Plan(id, images))
  {
    var plan := Plan(id, images);
    FinalNamesDiffer(id);
    forall m, n | 0 <= m < n < |plan| ensures plan[m].ref != plan[n].ref {
      PlanAt(id, images, m / 2, m % 2);
      PlanAt(id, images, n / 2, n % 2);
      assert m / 2 < n / 2 ==> Services(images)[m / 2] != Services(images)[n / 2];
    }
  }

  /** Binding, in order, exactly the references still absent. */
  function Bind(refs: Refs, plan: seq<Binding>): Refs {
    if plan == [] then refs
    else
      var before, b := Bind(refs, plan[..|plan| - 1]), plan[|plan| - 1];
      if b.ref in before then before else before[b.ref := b.digest]
  }

  /** How many references of the plan are still absent. */
  function Absent(refs: Refs, plan: seq<Binding>): nat {
    if plan == [] then 0
    else Absent(refs, plan[..|plan| - 1]) + if plan[|plan| - 1].ref in refs then 0 else 1
  }

  /** No reference already names something else. */
  predicate Agrees(refs: Refs, plan: seq<Binding>) {
    forall n :: 0 <= n < |plan| && plan[n].ref in refs ==> refs[plan[n].ref] == plan[n].digest
  }

  predicate AllBound(refs: Refs, plan: seq<Binding>) {
    forall n :: 0 <= n < |plan| ==> plan[n].ref in refs && refs[plan[n].ref] == plan[n].digest
  }

  function RefsOf(plan: seq<Binding>): set<Reference> {
    if plan == [] then {} else RefsOf(plan[..|plan| - 1]) + {plan[|plan| - 1].ref}
  }

  lemma {:induction false} RefsOfPrefix(plan: seq<Binding>, n: nat, k: nat)
    requires DistinctRefs(plan) && n <= |plan| && k < |plan|
    ensures plan[k].ref in RefsOf(plan[..n]) <==> k < n
  {
    if n > 0 {
      RefsOfPrefix(plan, n - 1, k);
      assert plan[..n][..n - 1] == plan[..n - 1];
    }
  }

  /** Binding keeps what is there and adds the plan's references. */
  lemma {:induction false} BindKeeps(refs: Refs, plan: seq<Binding>)
    ensures var after := Bind(refs, plan);
            after.Keys == refs.Keys + RefsOf(plan) && forall k :: k in refs ==> after[k] == refs[k]
  {
    if plan != [] {
      BindKeeps(refs, plan[..|plan| - 1]);
    }
  }

  lemma {:induction false} BindValue(refs: Refs, plan: seq<Binding>, n: nat, k: nat)
    requires DistinctRefs(plan) && k < n <= |plan|
    ensures var b, after := plan[k], Bind(refs, plan[..n]);
            b.ref in after && after[b.ref] == if b.ref in refs then refs[b.ref] else b.digest
  {
    var before := plan[..n - 1];
    assert plan[..n][..n - 1] == before;
    BindKeeps(refs, before);
    if k < n - 1 {
      BindValue(refs, plan, n - 1, k);
    } else {
      RefsOfPrefix(plan, n - 1, k);
    }
  }

  /** After binding, the whole plan is bound exactly when nothing disagreed before. */
  lemma BoundIffAgreed(refs: Refs, plan: seq<Binding>)
    requires DistinctRefs(plan)
    ensures AllBound(Bind(refs, plan), plan) <==> Agrees(refs, plan)
  {
    assert plan[..|plan|] == plan;
    forall k | 0 <= k < |plan|
      ensures var b, after := plan[k], Bind(refs, plan);
              b.ref in after && after[b.ref] == if b.ref in refs then refs[b.ref] else b.digest
    {
      BindValue(refs, plan, |plan|, k);
    }
  }

  /** References that plan[..n] bound are the ones missing no more. */
  lemma {:induction false} AbsentAfter(refs: Refs, plan: seq<Binding>, n: nat, m: nat)
    requires DistinctRefs(plan) && n <= |plan| && m <= |plan|
    ensures Absent(Bind(refs, plan[..n]), plan[..m]) + Absent(refs, plan[..if n < m then n else m])
         == Absent(refs, plan[..m])
  {
    if m > 0 {
      AbsentAfter(refs, plan, n, m - 1);
      assert plan[..m][..m - 1] == plan[..m - 1];
      BindKeeps(refs, plan[..n]);
      RefsOfPrefix(plan, n, m - 1);
    }
  }

  /** Binding a prefix again, or going on from it, is binding the longer of the two. */
  lemma {:induction false} BindTwice(refs: Refs, plan: seq<Binding>, n: nat, m: nat)
    requires DistinctRefs(plan) && n <= |plan| && m <= |plan|
    ensures Bind(Bind(refs, plan[..n]), plan[..m]) == Bind(refs, plan[..if n < m then m else n])
  {
    if m > 0 {
      BindTwice(refs, plan, n, m - 1);
      assert plan[..m][..m - 1] == plan[..m - 1];
      BindKeeps(refs, plan[..n]);
      RefsOfPrefix(plan, n, m - 1);
    }
  }

  lemma AgreesAfter(refs: Refs, plan: seq<Binding>, n: nat)
    requires DistinctRefs(plan) && n <= |plan| && Agrees(refs, plan)
    ensures Agrees(Bind(refs, plan[..n]), plan)
  {
    BindKeeps(refs, plan[..n]);
    forall k | 0 <= k < |plan| && plan[k].ref in Bind(refs, plan[..n])
      ensures Bind(refs, plan[..n])[plan[k].ref] == plan[k].digest
    {
      RefsOfPrefix(plan, n, k);
      if k < n {
        BindValue(refs, plan, n, k);
      }
    }
  }

  /**
   * Crash and resume: after any prefix was bound, a full run binds exactly the references still absent, reaches the
   * same registry as an uninterrupted run, and the two runs together PUT each absent reference once.
   */
  lemma ResumeCompletes(refs: Refs, plan: seq<Binding>, n: nat)
    requires DistinctRefs(plan) && n <= |plan|
    ensures Bind(Bind(refs, plan[..n]), plan) == Bind(refs, plan)
    ensures Absent(refs, plan[..n]) + Absent(Bind(refs, plan[..n]), plan) == Absent(refs, plan)
    ensures Agrees(refs, plan) ==> Agrees(Bind(refs, plan[..n]), plan)
  {
    assert plan[..|plan|] == plan;
    BindTwice(refs, plan, n, |plan|);
    AbsentAfter(refs, plan, n, |plan|);
    if Agrees(refs, plan) {
      AgreesAfter(refs, plan, n);
    }
  }

  /** The registry after a series of runs, the i-th of which crashed once it had visited cuts[i] references. */
  function AfterCrashes(refs: Refs, plan: seq<Binding>, cuts: seq<nat>): Refs
    requires forall i :: 0 <= i < |cuts| ==> cuts[i] <= |plan|
    decreases |cuts|
  {
    if cuts == [] then refs else AfterCrashes(Bind(refs, plan[..cuts[0]]), plan, cuts[1..])
  }

  /** How many PUTs those runs made. */
  function PutsOverCrashes(refs: Refs, plan: seq<Binding>, cuts: seq<nat>): nat
    requires forall i :: 0 <= i < |cuts| ==> cuts[i] <= |plan|
    decreases |cuts|
  {
    if cuts == [] then 0
    else Absent(refs, plan[..cuts[0]]) + PutsOverCrashes(Bind(refs, plan[..cuts[0]]), plan, cuts[1..])
  }

  /** However often it crashes, promotion PUTs each absent reference once in all and ends where one run would. */
  lemma {:induction false} CrashesCostNothing(refs: Refs, plan: seq<Binding>, cuts: seq<nat>)
    requires DistinctRefs(plan) && forall i :: 0 <= i < |cuts| ==> cuts[i] <= |plan|
    ensures var last := AfterCrashes(refs, plan, cuts);
            && Bind(last, plan) == Bind(refs, plan)
            && PutsOverCrashes(refs, plan, cuts) + Absent(last, plan) == Absent(refs, plan)
            && (Agrees(refs, plan) ==> Agrees(last, plan))
    decreases |cuts|
  {
    if cuts != [] {
      ResumeCompletes(refs, plan, cuts[0]);
      CrashesCostNothing(Bind(refs, plan[..cuts[0]]), plan, cuts[1..]);
    }
  }
}
