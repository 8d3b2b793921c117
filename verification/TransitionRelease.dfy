/** `select_previous_release` with its ledger of transition releases. */
module TransitionRelease {
  import opened Wrappers
  import opened Text
  import opened CommitHistory
  import opened PreviousRelease

  /** A tag of the ledger, its tag object and the commit it marks. */
  datatype Marker = Marker(tag: string, tagObject: string, commit: Commit)

  /** failed lists the failed releases between the base and the current release, oldest first. */
  datatype Transition = Transition(base: Marker, failed: seq<Marker>)

  datatype SelectError =
    | ShallowHistory | UnknownHead | NoAuthority | NoVerifier | WrongLedger | NotDirectlyAtop | MarkerMismatch
    | BrokenChain | BaseNotAncestor | ContradictoryEvidence | NoneTrusted

  const FAILED_MARKERS := 11

  /** `rev-parse --verify ref^{commit}` */
  function Peel(repo: Repository, ref: string): Option<Commit> {
    if ref !in repo.refs || repo.refs[ref] !in repo.objects then None
    else match repo.objects[repo.refs[ref]]
      case TagObject(_, _, _, peeled) => peeled
      case CommitObject => Some(repo.refs[ref])
      case OtherObject => None
  }

  /** A reference to an annotated tag object. */
  predicate Annotated(repo: Repository, ref: string) {
    ref in repo.refs && repo.refs[ref] in repo.objects && repo.objects[repo.refs[ref]].TagObject?
  }

  /** The current marker is an annotated tag of that name on the head commit. */
  predicate CurrentMarked(repo: Repository, root: string, tag: string, head: Commit) {
    var ref := root + "/current";
    && Annotated(repo, ref) && Peel(repo, ref) == Some(head)
    && var o := repo.objects[repo.refs[ref]]; o.target == head && o.kind == "commit" && o.name == tag
  }

  /** The reference is the annotated tag object the ledger names, and marks the ledger's commit. */
  predicate Marked(repo: Repository, ref: string, m: Marker) {
    Annotated(repo, ref) && repo.refs[ref] == m.tagObject && Peel(repo, ref) == Some(m.commit)
  }

  function FailedRef(root: string, i: nat): string {
    root + "/failed-" + Decimal(i)
  }

  function Commits(markers: seq<Marker>): (commits: seq<Commit>)
    ensures |commits| == |markers| && forall i :: 0 <= i < |commits| ==> commits[i] == markers[i].commit
  {
    if markers == [] then [] else Commits(markers[..|markers| - 1]) + [markers[|markers| - 1].commit]
  }

  ghost predicate FailedMarked(repo: Repository, root: string, failed: seq<Marker>) {
    forall i: nat :: i < |failed| ==> Marked(repo, FailedRef(root, i), failed[i])
  }

  /** Each failed release has the one before it as its only parent. */
  ghost predicate DirectChain(dag: Dag, failed: seq<Marker>) {
    forall i :: 1 <= i < |failed| ==>
      failed[i].commit in dag.parents && dag.parents[failed[i].commit] == [failed[i - 1].commit]
  }

  /** Everything the transition path checks. */
  ghost predicate TransitionHolds(
    repo: Repository, head: Commit, tag: string, root: string, t: Transition, trust: TrustVerifier)
    requires Acyclic(repo.dag) && head in repo.dag.parents
  {
    && |t.failed| == FAILED_MARKERS
    && repo.dag.parents[head] == [t.failed[|t.failed| - 1].commit]
    && CurrentMarked(repo, root, tag, head)
    && FailedMarked(repo, root, t.failed)
    && Marked(repo, root + "/base", t.base)
    && DirectChain(repo.dag, t.failed)
    && t.base.commit in Ancestors(repo.dag, t.failed[0].commit)
    && forall i :: 0 <= i < |t.failed| ==> !trust(t.failed[i].tag, t.failed[i].commit)
  }

  /**
   * What those checks give: between the head and the oldest failed release there is nothing but the failed releases,
   * and the base is an ancestor of both.
   */
  lemma TransitionHistory(
    repo: Repository, head: Commit, tag: string, root: string, t: Transition, trust: TrustVerifier)
    requires Acyclic(repo.dag) && head in repo.dag.parents && TransitionHolds(repo, head, tag, root, t, trust)
    ensures t.base.commit in Ancestors(repo.dag, head) && t.base.commit != head
    ensures Ancestors(repo.dag, head)
         == {head} + Elements(Commits(t.failed)) + Ancestors(repo.dag, t.failed[0].commit)
    ensures |Ancestors(repo.dag, head) - Ancestors(repo.dag, t.failed[0].commit)| == FAILED_MARKERS
  {
    hide Ancestors, CurrentMarked, FailedMarked, Marked, Chain, Elements, Commits;
    var chain := Commits(t.failed);
    var first, below := t.failed[0].commit, t.failed[|t.failed| - 1].commit;
    AncestorsExist(repo.dag, t.base.commit, first);
    ChainOfFailed(repo.dag, t.failed);
    ChainAncestors(repo.dag, chain);
    SingleParent(repo.dag, head, below);
    OneMoreOnTop(Ancestors(repo.dag, head), Ancestors(repo.dag, below), Ancestors(repo.dag, first), Elements(chain),
                 head);
  }

  lemma ChainOfFailed(dag: Dag, failed: seq<Marker>)
    requires failed != [] && failed[0].commit in dag.parents && DirectChain(dag, failed)
    ensures Chain(dag, Commits(failed))
  {
  }

  lemma AncestorsExist(dag: Dag, a: Commit, c: Commit)
    requires Acyclic(dag) && a in Ancestors(dag, c)
    ensures c in dag.parents
  {
  }

  /** The checks of the transition path, in the order the code makes them. */
  method CheckTransition(
    repo: Repository, head: Commit, tag: string, root: string, t: Transition, trust: TrustVerifier)
    returns (r: Result<(Commit, string), SelectError>)
    requires Acyclic(repo.dag) && head in repo.dag.parents
    ensures r.Success? <==> TransitionHolds(repo, head, tag, root, t, trust)
    ensures r.Success? ==> r.value == (t.base.commit, t.base.tag)
  {
    hide Ancestors, CurrentMarked, Marked, FailedMarked, DirectChain;
    if |t.failed| != FAILED_MARKERS {
      return Failure(WrongLedger);
    }
    if !CurrentMarked(repo, root, tag, head) {
      return Failure(MarkerMismatch);
    }
    var marked := ResolveFailed(repo, root, t.failed);
    if !marked || !Marked(repo, root + "/base", t.base) {
      return Failure(MarkerMismatch);
    }
    if repo.dag.parents[head] != [t.failed[|t.failed| - 1].commit] {
      return Failure(NotDirectlyAtop);
    }
    var direct := ValidateChain(repo.dag, t.failed);
    if !direct {
      return Failure(BrokenChain);
    }
    if t.base.commit !in Ancestors(repo.dag, t.failed[0].commit) {
      return Failure(BaseNotAncestor);
    }
    for i := 0 to |t.failed|
      invariant forall j :: 0 <= j < i ==> !trust(t.failed[j].tag, t.failed[j].commit)
    {
      if trust(t.failed[i].tag, t.failed[i].commit) {
        return Failure(ContradictoryEvidence);
      }
    }
    return Success((t.base.commit, t.base.tag));
  }

  method ResolveFailed(repo: Repository, root: string, failed: seq<Marker>) returns (ok: bool)
    ensures ok <==> FailedMarked(repo, root, failed)
  {
    hide Marked, FailedRef;
    for i := 0 to |failed|
      invariant forall j: nat :: j < i ==> Marked(repo, FailedRef(root, j), failed[j])
    {
      if !Marked(repo, FailedRef(root, i), failed[i]) {
        return false;
      }
    }
    return true;
  }

  method ValidateChain(dag: Dag, failed: seq<Marker>) returns (ok: bool)
    ensures ok <==> DirectChain(dag, failed)
  {
    var i := 1;
    while i < |failed|
      invariant 1 <= i
      invariant forall j :: 1 <= j < i && j < |failed| ==>
        failed[j].commit in dag.parents && dag.parents[failed[j].commit] == [failed[j - 1].commit]
    {
      var newer := failed[i].commit;
      if newer !in dag.parents || dag.parents[newer] != [failed[i - 1].commit] {
        return false;
      }
      i := i + 1;
    }
    return true;
  }

  predicate OnLedger(current: Option<string>, transitions: map<string, Transition>) {
    current.Some? && current.value in transitions
  }

  method SelectPreviousRelease(
    repo: Repository, head: Commit, current: Option<string>, transitions: map<string, Transition>,
    roots: map<string, string>, verifier: Option<TrustVerifier>)
    returns (r: Result<(Commit, string), SelectError>)
    requires Acyclic(repo.dag) && "" !in transitions
    ensures repo.shallow || head !in repo.dag.parents ==> r.Failure?
    ensures !repo.shallow && head in repo.dag.parents && OnLedger(current, transitions) ==>
              var t := transitions[current.value];
              && (r.Success? <==>
                    && current.value in roots && verifier.Some?
                    && TransitionHolds(repo, head, current.value, roots[current.value], t, verifier.value))
              && (r.Success? ==> r.value == (t.base.commit, t.base.tag))
    ensures !repo.shallow && head in repo.dag.parents && !OnLedger(current, transitions) ==>
              if repo.dag.parents[head] == [] then r == Success((head, "none"))
              else
                var parent := repo.dag.parents[head][0];
                && (r.Success? <==> verifier.Some?
                                    && exists tag :: TrustedTag(repo, current, parent, verifier.value, tag))
                && (r.Success? ==> Best(repo, current, parent, verifier.value, r.value.1)
                                   && r.value.0 == repo.tagCommit[r.value.1])
  {
    hide Best, TrustedTag, CurrentMarked, FailedMarked, Marked, DirectChain, Ancestors;
    if repo.shallow {
      return Failure(ShallowHistory);
    }
    if head !in repo.dag.parents {
      return Failure(UnknownHead);
    }
    if OnLedger(current, transitions) {
      if current.value !in roots {
        return Failure(NoAuthority);
      }
      if |repo.dag.parents[head]| != 1 {
        return Failure(NotDirectlyAtop);
      }
      if verifier.None? {
        return Failure(NoVerifier);
      }
      r := CheckTransition(repo, head, current.value, roots[current.value], transitions[current.value], verifier.value);
      return;
    }
    if repo.dag.parents[head] == [] {
      return Success((head, "none"));
    }
    if verifier.None? {
      return Failure(NoneTrusted);
    }
    var best := SelectOrdinary(repo, current, repo.dag.parents[head][0], verifier.value);
    r := if best.Some? then Success(best.value) else Failure(NoneTrusted);
  }
}
