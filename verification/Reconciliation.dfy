/**
 * The pipeline-run reconciler: manifests, rows, and what one apply-mode transaction does to the table.
 * A fingerprint is the hash of every field of its expectation; it is modelled as those fields, so no two
 * expectations share one.
 */
module Reconciliation {
  import opened Wrappers
  import opened Text
  import opened Sorting

  datatype Status =
    | Unknown | Queued | Scheduled | UpForRetry | Running | Succeeded | Noop | Skipped | SkippedExplicit
    | Partial | Blocked | Failed | Errored | UpstreamFailed | Cancelled | Removed

  function StatusText(s: Status): string {
    match s
    case Unknown => "unknown"
    case Queued => "queued"
    case Scheduled => "scheduled"
    case UpForRetry => "up_for_retry"
    case Running => "running"
    case Succeeded => "success"
    case Noop => "noop"
    case Skipped => "skipped"
    case SkippedExplicit => "skipped_explicit"
    case Partial => "partial"
    case Blocked => "blocked"
    case Failed => "failed"
    case Errored => "error"
    case UpstreamFailed => "upstream_failed"
    case Cancelled => "cancelled"
    case Removed => "removed"
  }

  function StatusRank(s: Status): int {
    match s
    case Unknown => 0
    case Queued => 10
    case Scheduled => 10
    case UpForRetry => 15
    case Running => 20
    case Succeeded => 30
    case Noop => 30
    case Skipped => 35
    case SkippedExplicit => 35
    case Partial => 40
    case Blocked => 50
    case _ => 60
  }

  const STATUSES: seq<Status> := [
    Unknown, Queued, Scheduled, UpForRetry, Running, Succeeded, Noop, Skipped, SkippedExplicit, Partial, Blocked,
    Failed, Errored, UpstreamFailed, Cancelled, Removed
  ]

  function FindStatus(text: string, among: seq<Status>): Option<Status> {
    if among == [] then None
    else if text == StatusText(among[0]) then Some(among[0])
    else FindStatus(text, among[1..])
  }

  /** The key of `STATUS_RANKS` that the text is, if any. */
  function StatusOf(text: string): Option<Status> {
    FindStatus(text, STATUSES)
  }

  predicate TerminalFailure(s: Option<Status>) {
    s.Some? && s.value in {Failed, Errored, UpstreamFailed, Cancelled, Removed}
  }

  /** `_normalized_status`, for a column that may be NULL. */
  function Normalized(status: Option<string>): string {
    if status.None? || status.value == "" || Strip(status.value) == "" then "unknown" else Lower(Strip(status.value))
  }

  /** `LOWER(COALESCE(status, 'unknown'))`, the form the UPDATE compares. */
  function SqlStatus(status: Option<string>): string {
    if status.None? then "unknown" else Lower(status.value)
  }

  // ----- Manifests -----

  datatype Evidence = Evidence(
    airflowState: Option<string>, httpStatus: Option<int>, blockedChildren: Option<int>,
    failedChildren: Option<int>, childRunIds: Option<seq<string>>, observedAt: Option<int>,
    orphanConfirmed: Option<bool>, retentionConfirmed: Option<bool>)

  datatype Reason = AirflowTerminalFailure | AirflowRunMissing | StaleOrphan | AggregateWithBlocks

  /** One run entry as decoded from JSON; None stands for a value of the wrong type. */
  datatype RawRun = RawRun(
    runId: string, tenant: Option<string>, workspace: Option<string>, expectedStatus: Option<string>,
    expectedStart: Option<Option<int>>, expectedFence: Option<int>, target: Option<string>,
    reason: Option<Reason>, evidence: Evidence)

  datatype Expectation = Expectation(
    runId: string, tenant: string, workspace: string, expectedStatus: Status, expectedStart: Option<int>,
    expectedFence: nat, target: Status, reason: Reason, evidence: Evidence)

  datatype ManifestError =
    | InvalidRunId | InvalidScope | UnsupportedStatus | UnsupportedTarget | NotMonotonic | UnsupportedReason
    | InvalidEvidence | ReasonMismatch | InvalidTimestamp | InvalidFence | EmptyManifest | DuplicateRunIds

  predicate SafeIdChar(c: char) {
    'A' <= c <= 'Z' || 'a' <= c <= 'z' || '0' <= c <= '9' || c in "_.:/@+-"
  }

  predicate SafeId(s: string) {
    && 1 <= |s| <= 256
    && ('A' <= s[0] <= 'Z' || 'a' <= s[0] <= 'z' || '0' <= s[0] <= '9')
    && forall i :: 1 <= i < |s| ==> SafeIdChar(s[i])
  }

  predicate NonNegative(n: Option<int>) {
    n.Some? ==> n.value >= 0
  }

  predicate EvidenceSupports(reason: Reason, e: Evidence) {
    match reason
    case AirflowTerminalFailure => e.airflowState.Some? && TerminalFailure(StatusOf(e.airflowState.value))
    case AirflowRunMissing => e.httpStatus == Some(404) && e.retentionConfirmed == Some(true)
    case StaleOrphan => e.orphanConfirmed == Some(true)
    case AggregateWithBlocks =>
      e.airflowState == Some("success") && e.blockedChildren.Some? && e.blockedChildren.value >= 1
  }

  function ValidateEvidence(reason: Reason, raw: Evidence): Result<Evidence, ManifestError> {
    if !(NonNegative(raw.blockedChildren) && NonNegative(raw.failedChildren) && NonNegative(raw.httpStatus)) then
      Failure(InvalidEvidence)
    else
      var state := if raw.airflowState.Some? then Some(Normalized(raw.airflowState)) else None;
      var clean := raw.(airflowState := state);
      if state.Some? && StatusOf(state.value).None? && state.value != "not_found" then Failure(InvalidEvidence)
      else if !EvidenceSupports(reason, clean) then Failure(InvalidEvidence)
      else if raw.childRunIds.Some? && !(forall id :: id in raw.childRunIds.value ==> SafeId(id)) then
        Failure(InvalidEvidence)
      else if raw.childRunIds.Some? && |raw.childRunIds.value| != |set id | id in raw.childRunIds.value| then
        Failure(InvalidEvidence)
      else Success(clean)
  }

  function LoadExpectation(raw: RawRun): (r: Result<Expectation, ManifestError>)
    ensures r.Success? ==> WellFormed(r.value) && EvidenceSupports(r.value.reason, r.value.evidence)
  {
    var runId := Strip(raw.runId);
    var expected := StatusOf(Normalized(raw.expectedStatus));
    var target := StatusOf(Normalized(raw.target));
    if !SafeId(runId) then Failure(InvalidRunId)
    else if raw.tenant.None? || raw.workspace.None? then Failure(InvalidScope)
    else if expected.None? then Failure(UnsupportedStatus)
    else if target.None? || target.value !in {Partial, Blocked, Failed} then Failure(UnsupportedTarget)
    else if StatusRank(target.value) <= StatusRank(expected.value) then Failure(NotMonotonic)
    else if raw.reason.None? then Failure(UnsupportedReason)
    else
      var evidence :- ValidateEvidence(raw.reason.value, raw.evidence);
      if !raw.reason.value.AggregateWithBlocks? && target.value != Failed then Failure(ReasonMismatch)
      else if raw.reason.value.AggregateWithBlocks? && target.value !in {Partial, Blocked} then Failure(ReasonMismatch)
      else if raw.expectedStart.None? then Failure(InvalidTimestamp)
      else if raw.expectedFence.None? || raw.expectedFence.value < 0 then Failure(InvalidFence)
      else Success(Expectation(runId, raw.tenant.value, raw.workspace.value, expected.value, raw.expectedStart.value,
                               raw.expectedFence.value, target.value, raw.reason.value, evidence))
  }

  /** What every expectation that leaves the loader satisfies, whatever its evidence. */
  predicate WellFormed(e: Expectation) {
    && e.target in {Partial, Blocked, Failed}
    && StatusRank(e.expectedStatus) < StatusRank(e.target)
    && (e.target == Failed <==> !e.reason.AggregateWithBlocks?)
  }

  function RunIds(es: seq<Expectation>): (ids: seq<string>)
    ensures |ids| == |es|
  {
    seq(|es|, i requires 0 <= i < |es| => es[i].runId)
  }

  /** The run ids an ordered list of expectations names. */
  function Names(es: seq<Expectation>): set<string> {
    if es == [] then {} else Names(es[..|es| - 1]) + {es[|es| - 1].runId}
  }

  lemma {:induction false} NamesMembers(es: seq<Expectation>)
    ensures forall k :: k in Names(es) <==> exists i :: 0 <= i < |es| && es[i].runId == k
  {
    if es != [] {
      var n := |es| - 1;
      NamesMembers(es[..n]);
      forall k ensures k in Names(es) <==> exists i :: 0 <= i < |es| && es[i].runId == k {
        if i :| 0 <= i < n && es[..n][i].runId == k {
          assert es[i].runId == k;
        }
        if i :| 0 <= i < |es| && es[i].runId == k {
          assert i < n ==> es[..n][i].runId == k;
        }
      }
    }
  }

  function LoadRuns(raws: seq<RawRun>): (r: Result<seq<Expectation>, ManifestError>)
    ensures r.Success? ==> forall e :: e in r.value ==> WellFormed(e)
  {
    if raws == [] then Success([])
    else
      var first :- LoadExpectation(raws[0]);
      var rest :- LoadRuns(raws[1..]);
      Success([first] + rest)
  }

  /** `load_manifest`, after JSON decoding and the root checks. */
  function LoadManifest(raws: seq<RawRun>): (r: Result<seq<Expectation>, ManifestError>)
    ensures r.Success? ==> Distinct(RunIds(r.value)) && forall e :: e in r.value ==> WellFormed(e)
  {
    if raws == [] then Failure(EmptyManifest)
    else
      var runs :- LoadRuns(raws);
      if exists i, j :: 0 <= i < j < |runs| && RunIds(runs)[i] == RunIds(runs)[j] then Failure(DuplicateRunIds)
      else Success(runs)
  }

  // ----- Rows -----

  datatype Fingerprint = Sha256(payload: Expectation)

  datatype Event = Event(
    fingerprint: Fingerprint, actor: string, changeId: string, reason: Reason, previous: Status, target: Status,
    expectedStart: Option<int>, expectedFence: nat, evidence: Evidence, appliedAt: int)

  /** An element of the `reconciliation` array: an event, or anything else. */
  datatype Item = Recorded(event: Event) | Foreign

  datatype Log = Missing | NotAnArray | Items(items: seq<Item>)

  /** The jsonb `extra` column. TextExtra is a JSON string that itself parses to an object. */
  datatype Extra = NullExtra | ObjectExtra(log: Log, others: string) | TextExtra(text: Log) | OtherExtra

  datatype Row = Row(
    tenant: string, workspace: string, status: Option<string>, startedAt: Option<int>, fence: Option<int>,
    finishedAt: Option<int>, errorMessage: Option<string>, lease: Option<int>, extra: Extra)

  datatype AuditRow = AuditRow(
    runId: string, fingerprint: Fingerprint, actor: string, changeId: string, reason: Reason, previous: Status,
    target: Status, tenant: string, workspace: string, expectedFence: nat)

  /** What a transaction is given besides its manifest. auditTable: `public.audit_events` exists. */
  datatype Context = Context(actor: string, changeId: string, now: int, auditTable: bool)

  datatype Conflict =
    | MissingRow | StatusChanged | StartChanged | FenceChanged | LostFence | DatabaseError | AuditTableMissing

  datatype Verdict = AlreadyApplied | Matched

  datatype RunResult = Kept(runId: string) | Applied(runId: string, fence: int)

  type Table = map<string, Row>

  function LogOf(extra: Extra): Log {
    match extra
    case ObjectExtra(log, _) => log
    case TextExtra(log) => log
    case _ => Missing
  }

  predicate HasFingerprint(log: Log, f: Fingerprint) {
    log.Items? && exists i :: 0 <= i < |log.items| && log.items[i].Recorded? && log.items[i].event.fingerprint == f
  }

  predicate IsAlreadyApplied(row: Row, e: Expectation) {
    Normalized(row.status) == StatusText(e.target) && HasFingerprint(LogOf(row.extra), Sha256(e))
  }

  predicate InScope(row: Row, e: Expectation) {
    row.tenant == e.tenant && row.workspace == e.workspace
  }

  /** `_select_row`: the row is visible only inside the expectation's own tenant and workspace. */
  predicate Selects(rows: Table, e: Expectation) {
    e.runId in rows && InScope(rows[e.runId], e)
  }

  /** `_verify_locked_row`: the Python guard. */
  function Verify(row: Row, e: Expectation): Result<Verdict, Conflict> {
    if IsAlreadyApplied(row, e) then Success(AlreadyApplied)
    else if Normalized(row.status) != StatusText(e.expectedStatus) then Failure(StatusChanged)
    else if row.startedAt != e.expectedStart then Failure(StartChanged)
    else if (if row.fence.Some? then row.fence.value else 0) != e.expectedFence then Failure(FenceChanged)
    else Success(Matched)
  }

  function EventOf(e: Expectation, ctx: Context): Event {
    Event(Sha256(e), ctx.actor, ctx.changeId, e.reason, e.expectedStatus, e.target, e.expectedStart,
          e.expectedFence, e.evidence, ctx.now)
  }

  /** The `jsonb_set` expression; None is the database error on a column that is not an object. */
  function AppendEvent(extra: Extra, event: Event): Option<Extra> {
    match extra
    case NullExtra => Some(ObjectExtra(Items([Recorded(event)]), ""))
    case ObjectExtra(Items(items), others) => Some(ObjectExtra(Items(items + [Recorded(event)]), others))
    case ObjectExtra(_, others) => Some(ObjectExtra(Items([Recorded(event)]), others))
    case _ => None
  }

  /** The guarded UPDATE, given that the scope matches. */
  function CasUpdate(row: Row, e: Expectation, ctx: Context): Result<Row, Conflict> {
    if SqlStatus(row.status) != StatusText(e.expectedStatus) || row.startedAt != e.expectedStart
       || row.fence != Some(e.expectedFence) then Failure(LostFence)
    else
      var extra := AppendEvent(row.extra, EventOf(e, ctx));
      if extra.None? then Failure(DatabaseError)
      else
        Success(row.(
                  status := Some(StatusText(e.target)),
                  finishedAt := if row.finishedAt.Some? then row.finishedAt else Some(ctx.now),
                  errorMessage := if row.errorMessage.Some? then row.errorMessage else Some(ReasonText(e.reason)),
                  lease := None, fence := Some(e.expectedFence + 1), extra := extra.value))
  }

  function ReasonText(reason: Reason): string {
    match reason
    case AirflowTerminalFailure => "airflow_terminal_failure"
    case AirflowRunMissing => "airflow_run_missing_after_retention"
    case StaleOrphan => "stale_orphan"
    case AggregateWithBlocks => "aggregate_completed_with_blocks"
  }

  function AuditOf(e: Expectation, ctx: Context): AuditRow {
    AuditRow(e.runId, Sha256(e), ctx.actor, ctx.changeId, e.reason, e.expectedStatus, e.target, e.tenant,
             e.workspace, e.expectedFence)
  }

  // ----- One transaction as a function of the table it starts from -----

  /** What a transaction holds so far: the table as it sees it, its audit rows, its results. */
  datatype Progress = Progress(rows: Table, audit: seq<AuditRow>, results: seq<RunResult>)

  function ApplyOne(p: Progress, e: Expectation, ctx: Context): Result<Progress, Conflict> {
    if !Selects(p.rows, e) then Failure(MissingRow)
    else
      var row := p.rows[e.runId];
      var verdict :- Verify(row, e);
      if verdict.AlreadyApplied? then Success(p.(results := p.results + [Kept(e.runId)]))
      else
        var updated :- CasUpdate(row, e, ctx);
        if !ctx.auditTable then Failure(AuditTableMissing)
        else Success(Progress(p.rows[e.runId := updated], p.audit + [AuditOf(e, ctx)],
                              p.results + [Applied(e.runId, updated.fence.value)]))
  }

  /** The loop of `reconcile` in apply mode, from the left. */
  function ApplyAll(rows: Table, es: seq<Expectation>, ctx: Context): (r: Result<Progress, Conflict>)
    ensures r.Success? ==> |r.value.results| == |es|
  {
    if es == [] then Success(Progress(rows, [], []))
    else
      var before :- ApplyAll(rows, es[..|es| - 1], ctx);
      ApplyOne(before, es[|es| - 1], ctx)
  }

  function DryRunOne(rows: Table, e: Expectation): Result<Verdict, Conflict> {
    if !Selects(rows, e) then Failure(MissingRow) else Verify(rows[e.runId], e)
  }

  function DryRunAll(rows: Table, es: seq<Expectation>): (r: Result<seq<Verdict>, Conflict>)
    ensures r.Success? ==> |r.value| == |es|
  {
    if es == [] then Success([])
    else
      var before :- DryRunAll(rows, es[..|es| - 1]);
      var verdict :- DryRunOne(rows, es[|es| - 1]);
      Success(before + [verdict])
  }

  // ----- The order of processing -----

  predicate ByRunId(a: Expectation, b: Expectation) {
    Less(a.runId, b.runId)
  }

  predicate StrictlyAscending(es: seq<Expectation>) {
    forall i, j :: 0 <= i < j < |es| ==> Less(es[i].runId, es[j].runId)
  }

  function SortByRunId(es: seq<Expectation>): seq<Expectation> {
    Sort(es, ByRunId)
  }

  /** A manifest without duplicate ids is processed in strictly ascending order, nothing lost. */
  lemma SortedManifest(es: seq<Expectation>)
    requires Distinct(RunIds(es))
    ensures StrictlyAscending(SortByRunId(es))
    ensures |SortByRunId(es)| == |es| && forall e :: e in SortByRunId(es) <==> e in es
  {
    LessIsTotalOrder();
    var s := SortByRunId(es);
    SortOrders(es, ByRunId);
    SortElements(es, ByRunId);
    SortMembers(es, ByRunId);
    assert forall i, j :: 0 <= i < j < |es| ==> RunIds(es)[i] != RunIds(es)[j];
    assert Distinct(es) by {
      forall i, j | 0 <= i < j < |es| ensures es[i] != es[j] {
        assert RunIds(es)[i] != RunIds(es)[j];
      }
    }
    SortDistinct(es, ByRunId);
    forall i, j | 0 <= i < j < |s| ensures Less(s[i].runId, s[j].runId) {
      assert !ByRunId(s[j], s[i]) && s[i] != s[j];
      assert s[i] in s && s[j] in s;
      var k :| 0 <= k < |es| && es[k] == s[i];
      var l :| 0 <= l < |es| && es[l] == s[j];
      assert RunIds(es)[k] == s[i].runId && RunIds(es)[l] == s[j].runId;
    }
  }
}
