/** What the promotion protocol guarantees about the images of the intents. */
module PromotionIntents {
  import opened Sorting
  import opened ReleaseIdentity
  import opened Promotion
  import opened PromotionProtocol

  /** The promoter holds the intent of this release for the whole inventory, and its plan is that of the intent. */
  ghost predicate Promotes(p: Promoter, id: Identity, inventory: seq<string>) {
    && Valid(id) && Distinct(inventory) && p.runId == id.runId
    && AcceptsIntent(id, p.intent, inventory) && p.plan == Plan(id, p.intent.images)
  }

  function FinalReference(id: Identity, r: Receipt, j: nat): Reference
    requires j < 2
  {
    Reference(id.owner, r.service, FinalNames(id)[j])
  }

  lemma PlanOfIntent(p: Promoter, id: Identity, inventory: seq<string>)
    requires Promotes(p, id, inventory)
    ensures DistinctRefs(p.plan) && |p.plan| == 2 * |p.intent.images|
    ensures forall n, j :: 0 <= n < |p.intent.images| && 0 <= j < 2 ==>
              p.plan[2 * n + j] == Binding(FinalReference(id, p.intent.images[n], j), p.intent.images[n].digest)
  {
    hide Valid, Plan;
    PlanRefsDistinct(id, p.intent.images);
    forall n, j | 0 <= n < |p.intent.images| && 0 <= j < 2
      ensures p.plan[2 * n + j] == Binding(FinalReference(id, p.intent.images[n], j), p.intent.images[n].digest)
    {
      PlanAt(id, p.intent.images, n, j);
    }
  }

  lemma SamePromoter(states: seq<System>, who: seq<nat>, n: nat, i: nat)
    requires Execution(states, who) && n < |states| && i < |states[0].promoters|
    ensures i < |states[n].promoters|
    ensures states[n].promoters[i].(phase := Load) == states[0].promoters[i].(phase := Load)
  {
    ExecutionsGrow(states, who, 0, n);
  }

  /** From the moment a promoter returns, both final references of every image of its intent name that image. */
  lemma ReturnedIntentIsBound(
    states: seq<System>, who: seq<nat>, m: nat, n: nat, i: nat, id: Identity, inventory: seq<string>)
    requires Execution(states, who) && m <= n < |states|
    requires i < |states[m].promoters| && states[m].promoters[i].phase.Returned?
    requires Promotes(states[m].promoters[i], id, inventory)
    ensures forall r, j :: r in states[m].promoters[i].intent.images && 0 <= j < 2 ==>
              BoundAt(states[n], Binding(FinalReference(id, r, j), r.digest))
  {
    hide Execution, Promotes;
    var p := states[m].promoters[i];
    PlanOfIntent(p, id, inventory);
    ReturnedIsBound(states, who, m, n, i);
    forall r, j | r in p.intent.images && 0 <= j < 2
      ensures BoundAt(states[n], Binding(FinalReference(id, r, j), r.digest))
    {
      var a :| 0 <= a < |p.intent.images| && p.intent.images[a] == r;
      assert p.plan[2 * a + j] == Binding(FinalReference(id, r, j), r.digest);
    }
  }

  /** Two intents with different images for one final reference never both return. */
  lemma DisagreeingIntentsNeverBothReturn(
    states: seq<System>, who: seq<nat>, n: nat, i: nat, k: nat, id: Identity, other: Identity,
    inventory: seq<string>, others: seq<string>, r: Receipt, q: Receipt, j: nat, l: nat)
    requires Execution(states, who) && n < |states| && i < |states[n].promoters| && k < |states[n].promoters|
    requires Promotes(states[n].promoters[i], id, inventory) && Promotes(states[n].promoters[k], other, others)
    requires r in states[n].promoters[i].intent.images && q in states[n].promoters[k].intent.images && j < 2 && l < 2
    requires FinalReference(id, r, j) == FinalReference(other, q, l) && r.digest != q.digest
    ensures !(states[n].promoters[i].phase.Returned? && states[n].promoters[k].phase.Returned?)
  {
    hide Execution, Promotes, FinalReference;
    if states[n].promoters[i].phase.Returned? {
      ReturnedIntentIsBound(states, who, n, n, i, id, inventory);
      assert BoundAt(states[n], Binding(FinalReference(id, r, j), r.digest));
    }
    if states[n].promoters[k].phase.Returned? {
      ReturnedIntentIsBound(states, who, n, n, k, other, others);
      assert BoundAt(states[n], Binding(FinalReference(other, q, l), q.digest));
    }
  }

  /** Promoters of one run that confirmed their intent or bound something are of one release and have one plan. */
  lemma OnePlanPerRun(
    states: seq<System>, who: seq<nat>, n: nat, i: nat, k: nat, id: Identity, other: Identity,
    inventory: seq<string>, others: seq<string>)
    requires Execution(states, who) && n < |states| && i < |states[n].promoters| && k < |states[n].promoters|
    requires Promotes(states[n].promoters[i], id, inventory) && Promotes(states[n].promoters[k], other, others)
    requires id.runId == other.runId && Acted(states[n], i) && Acted(states[n], k)
    ensures id == other && inventory == others && states[n].promoters[i].plan == states[n].promoters[k].plan
  {
    hide Execution, Acted, Plan, RepositoryShape;
    OneSealedIntentPerRun(states, who, n, i, k);
  }

  /** Every reference bound on the way names the digest of an image of that service in a run's sealed intent. */
  lemma BoundBySealedImage(
    states: seq<System>, who: seq<nat>, m: nat, k: Reference, ids: nat -> Identity, inventory: seq<string>)
    requires Execution(states, who) && m < |states| && k in states[m].refs && k !in states[0].refs
    requires forall i :: 0 <= i < |states[0].promoters| ==> Promotes(states[0].promoters[i], ids(i), inventory)
    ensures exists i: nat, r :: SealedImage(states[m], i, r) && r.digest == states[m].refs[k]
                                && (k == FinalReference(ids(i), r, 0) || k == FinalReference(ids(i), r, 1))
  {
    hide Execution, Promotes, FinalReference;
    BoundOnceForever(states, who, m, m, k);
    var s := states[m];
    var a :| 0 <= a < |s.puts| && s.puts[a].binding == Binding(k, s.refs[k]) && HoldsSealedIntent(s, s.puts[a].who)
             && s.puts[a].binding in s.promoters[s.puts[a].who].plan;
    var i := s.puts[a].who;
    ExecutionsGrow(states, who, 0, m);
    hide Grows;
    SamePromoter(states, who, m, i);
    assert Promotes(states[0].promoters[i], ids(i), inventory);
    PromisedImage(states[0].promoters[i], ids(i), inventory, Binding(k, s.refs[k]));
    var r :| r in s.promoters[i].intent.images && r.digest == s.refs[k]
             && (k == FinalReference(ids(i), r, 0) || k == FinalReference(ids(i), r, 1));
    assert SealedImage(s, i, r);
  }

  /** Every binding of a plan is that of an image of the intent. */
  lemma PromisedImage(p: Promoter, id: Identity, inventory: seq<string>, b: Binding)
    requires Promotes(p, id, inventory) && b in p.plan
    ensures exists r :: r in p.intent.images && r.digest == b.digest
                        && (b.ref == FinalReference(id, r, 0) || b.ref == FinalReference(id, r, 1))
  {
    hide Promotes, FinalReference;
    PlanOfIntent(p, id, inventory);
    var n :| 0 <= n < |p.plan| && p.plan[n] == b;
    var a, j := n / 2, n % 2;
    var r := p.intent.images[a];
    assert p.plan[2 * a + j] == Binding(FinalReference(id, r, j), r.digest);
    assert r in p.intent.images && j in {0, 1};
  }

  /** The receipt is among the images of the intent that promoter i's run has sealed. */
  ghost predicate SealedImage(s: System, i: nat, r: Receipt) {
    && i < |s.promoters|
    && var sealed := Artifacts(s, s.promoters[i].runId); sealed != [] && r in sealed[0].images
  }

  /**
   * A re-run of a release whose sealed intent is its own completes when left alone, PUTting exactly the references
   * still absent, if no final reference of its images names something else.
   */
  lemma IntentRerunCompletes(s: System, i: nat, id: Identity, inventory: seq<string>)
    requires i < |s.promoters| && s.promoters[i].phase == Load && Promotes(s.promoters[i], id, inventory)
    requires Artifacts(s, s.promoters[i].runId) == [s.promoters[i].intent]
    requires forall r, j :: r in s.promoters[i].intent.images && 0 <= j < 2 && FinalReference(id, r, j) in s.refs ==>
               s.refs[FinalReference(id, r, j)] == r.digest
    ensures CanStep(s, i) && CanStep(Step(s, i), i) && Step(Step(s, i), i) == Confirmed(s, i)
    ensures Completed(s, Alone(Confirmed(s, i), i), i)
  {
    hide Promotes, Step, Alone, Completed, Confirmed, FinalReference;
    var p := s.promoters[i];
    PlanOfIntent(p, id, inventory);
    forall b | 0 <= b < |p.plan| && p.plan[b].ref in s.refs ensures s.refs[p.plan[b].ref] == p.plan[b].digest {
      assert b == 2 * (b / 2) + b % 2;
      var r := p.intent.images[b / 2];
      assert p.plan[b] == Binding(FinalReference(id, r, b % 2), r.digest);
    }
    RerunCompletes(s, i);
  }
}
