/** What holds of every table that only reconciler transactions have written, however many and in any order. */
module ReconciliationHistory {
  import opened Wrappers
  import opened Sorting
  import opened Reconciliation
  import opened ReconciliationLaws

  datatype Attempt = Attempt(runs: seq<Expectation>, ctx: Context)

  datatype Store = Store(rows: Table, audit: seq<AuditRow>)

  /** One call of `reconcile` in apply mode. */
  function AfterOne(s: Store, a: Attempt): Store {
    match ApplyAll(s.rows, SortByRunId(a.runs), a.ctx)
    case Failure(_) => s
    case Success(p) => Store(p.rows, s.audit + p.audit)
  }

  function AfterAll(rows: Table, attempts: seq<Attempt>): Store {
    if attempts == [] then Store(rows, [])
    else AfterOne(AfterAll(rows, attempts[..|attempts| - 1]), attempts[|attempts| - 1])
  }

  /** The expectations recorded in a row, oldest first. */
  function TrailOf(items: seq<Item>): seq<Expectation> {
    if items == [] then []
    else
      var last := items[|items| - 1];
      TrailOf(items[..|items| - 1]) + if last.Recorded? then [last.event.fingerprint.payload] else []
  }

  function Trail(row: Row): seq<Expectation> {
    var log := LogOf(row.extra);
    if log.Items? then TrailOf(log.items) else []
  }

  /** The expectations the audit log names for one run, oldest first. */
  function AuditTrail(audit: seq<AuditRow>, runId: string): seq<Expectation> {
    if audit == [] then []
    else
      var last := audit[|audit| - 1];
      AuditTrail(audit[..|audit| - 1], runId) + if last.runId == runId then [last.fingerprint.payload] else []
  }

  /** Fences and target ranks strictly increase along a trail. */
  ghost predicate Climbs(trail: seq<Expectation>) {
    forall i, j :: 0 <= i < j < |trail| ==>
      trail[i].expectedFence < trail[j].expectedFence
      && StatusRank(trail[i].target) < StatusRank(trail[j].target)
  }

  ghost predicate RowConsistent(runId: string, row: Row) {
    var trail := Trail(row);
    && Climbs(trail)
    && (forall e :: e in trail ==> WellFormed(e) && e.runId == runId)
    && (trail != [] ==>
          && row.fence.Some? && trail[|trail| - 1].expectedFence < row.fence.value
          && Normalized(row.status) == StatusText(trail[|trail| - 1].target))
  }

  ghost predicate Consistent(s: Store) {
    && (forall a :: a in s.audit ==> a.runId in s.rows)
    && forall id :: id in s.rows ==> RowConsistent(id, s.rows[id]) && AuditTrail(s.audit, id) == Trail(s.rows[id])
  }

  lemma CasExtendsTrail(row: Row, e: Expectation, ctx: Context)
    requires CasUpdate(row, e, ctx).Success?
    ensures Trail(CasUpdate(row, e, ctx).value) == Trail(row) + [e]
  {
    var before := if row.extra.ObjectExtra? && row.extra.log.Items? then row.extra.log.items else [];
    var last := Recorded(EventOf(e, ctx));
    assert CasUpdate(row, e, ctx).value.extra.log.items == before + [last];
    assert (before + [last])[..|before|] == before;
    assert Trail(row) == TrailOf(before);
  }

  lemma CasKeepsRowConsistent(row: Row, e: Expectation, ctx: Context)
    requires RowConsistent(e.runId, row) && WellFormed(e)
    requires Verify(row, e) == Success(Matched) && CasUpdate(row, e, ctx).Success?
    ensures RowConsistent(e.runId, CasUpdate(row, e, ctx).value)
  {
    CasExtendsTrail(row, e, ctx);
    StatusReadsBack(e.target);
    var trail := Trail(row);
    if trail != [] {
      StatusTextInjective(trail[|trail| - 1].target, e.expectedStatus);
    }
    forall i | 0 <= i < |trail|
      ensures trail[i].expectedFence < e.expectedFence && StatusRank(trail[i].target) < StatusRank(e.target)
    {
      assert i < |trail| - 1 ==> StatusRank(trail[i].target) < StatusRank(trail[|trail| - 1].target);
    }
  }

  lemma AuditTrailAppend(audit: seq<AuditRow>, a: AuditRow, id: string)
    ensures AuditTrail(audit + [a], id) == AuditTrail(audit, id) + if a.runId == id then [a.fingerprint.payload] else []
  {
    assert (audit + [a])[..|audit|] == audit;
  }

  lemma RecordKeepsConsistent(s: Store, e: Expectation, row: Row, a: AuditRow)
    requires Consistent(s) && e.runId in s.rows
    requires RowConsistent(e.runId, row) && Trail(row) == Trail(s.rows[e.runId]) + [e]
    requires a.runId == e.runId && a.fingerprint == Sha256(e)
    ensures Consistent(Store(s.rows[e.runId := row], s.audit + [a]))
  {
    hide RowConsistent, AuditTrail, Trail;
    var after := Store(s.rows[e.runId := row], s.audit + [a]);
    forall id | id in after.rows
      ensures RowConsistent(id, after.rows[id]) && AuditTrail(after.audit, id) == Trail(after.rows[id])
    {
      AuditTrailAppend(s.audit, a, id);
      assert RowConsistent(id, s.rows[id]) && AuditTrail(s.audit, id) == Trail(s.rows[id]);
    }
  }

  /** One expectation, applied inside a transaction that follows the audit rows in earlier. */
  lemma StepKeepsConsistent(earlier: seq<AuditRow>, p: Progress, e: Expectation, ctx: Context)
    requires Consistent(Store(p.rows, earlier + p.audit)) && WellFormed(e)
    requires ApplyOne(p, e, ctx).Success?
    ensures var q := ApplyOne(p, e, ctx).value; Consistent(Store(q.rows, earlier + q.audit))
  {
    var s := Store(p.rows, earlier + p.audit);
    var q := ApplyOne(p, e, ctx).value;
    var row := p.rows[e.runId];
    if Verify(row, e) == Success(AlreadyApplied) {
      assert Store(q.rows, earlier + q.audit) == s;
    } else {
      var updated, a := CasUpdate(row, e, ctx).value, AuditOf(e, ctx);
      assert RowConsistent(e.runId, row);
      CasKeepsRowConsistent(row, e, ctx);
      CasExtendsTrail(row, e, ctx);
      RecordKeepsConsistent(s, e, updated, a);
      assert q.rows == p.rows[e.runId := updated] && q.audit == p.audit + [a];
      assert earlier + (p.audit + [a]) == earlier + p.audit + [a];
    }
  }

  lemma {:induction false} TransactionKeepsConsistent(s: Store, es: seq<Expectation>, ctx: Context)
    requires Consistent(s) && (forall e :: e in es ==> WellFormed(e)) && ApplyAll(s.rows, es, ctx).Success?
    ensures var p := ApplyAll(s.rows, es, ctx).value; Consistent(Store(p.rows, s.audit + p.audit))
  {
    if es != [] {
      TransactionKeepsConsistent(s, es[..|es| - 1], ctx);
      StepKeepsConsistent(s.audit, ApplyAll(s.rows, es[..|es| - 1], ctx).value, es[|es| - 1], ctx);
    } else {
      assert s.audit + [] == s.audit;
    }
  }

  ghost predicate Unreconciled(rows: Table) {
    forall id :: id in rows ==> Trail(rows[id]) == []
  }

  ghost predicate Loadable(attempts: seq<Attempt>) {
    forall i :: 0 <= i < |attempts| ==> forall e :: e in attempts[i].runs ==> WellFormed(e)
  }

  lemma {:induction false} HistoryIsConsistent(rows: Table, attempts: seq<Attempt>)
    requires Unreconciled(rows) && Loadable(attempts)
    ensures Consistent(AfterAll(rows, attempts))
  {
    if attempts != [] {
      var last := attempts[|attempts| - 1];
      HistoryIsConsistent(rows, attempts[..|attempts| - 1]);
      var s := AfterAll(rows, attempts[..|attempts| - 1]);
      SortMembers(last.runs, ByRunId);
      if ApplyAll(s.rows, SortByRunId(last.runs), last.ctx).Success? {
        TransactionKeepsConsistent(s, SortByRunId(last.runs), last.ctx);
      }
    }
  }

  lemma {:induction false} RanksSpread(trail: seq<Expectation>, i: nat)
    requires Climbs(trail) && (forall e :: e in trail ==> WellFormed(e)) && i < |trail|
    ensures 40 + 10 * i <= StatusRank(trail[i].target) <= 60
  {
    assert trail[i] in trail;
    if i > 0 {
      RanksSpread(trail, i - 1);
    }
  }

  ghost predicate Bounded(s: Store, id: string)
    requires id in s.rows
  {
    var trail := Trail(s.rows[id]);
    && Climbs(trail) && |trail| <= 3 && AuditTrail(s.audit, id) == trail
    && forall e :: e in trail ==>
      e.runId == id && s.rows[id].fence.Some? && e.expectedFence < s.rows[id].fence.value
  }

  lemma ConsistentIsBounded(s: Store, id: string)
    requires Consistent(s) && id in s.rows
    ensures Bounded(s, id)
  {
    hide TrailOf, AuditTrail, Normalized, WellFormed, StatusRank;
    var trail := Trail(s.rows[id]);
    assert RowConsistent(id, s.rows[id]);
    if trail != [] {
      RanksSpread(trail, |trail| - 1);
      forall i | 0 <= i < |trail| ensures trail[i].expectedFence < s.rows[id].fence.value {
        assert i < |trail| - 1 ==> trail[i].expectedFence < trail[|trail| - 1].expectedFence;
      }
    }
  }

  /**
   * Over any sequence of manifests, each run's recorded expectations have strictly increasing fences below the
   * live one and strictly increasing target ranks, so there are at most three, and the audit log lists the same
   * expectations in the same order.
   */
  lemma RunsClimbAtMostThreeTimes(rows: Table, attempts: seq<Attempt>, id: string)
    requires Unreconciled(rows) && Loadable(attempts) && id in AfterAll(rows, attempts).rows
    ensures Bounded(AfterAll(rows, attempts), id)
  {
    HistoryIsConsistent(rows, attempts);
    ConsistentIsBounded(AfterAll(rows, attempts), id);
  }

  /** The position of an audit row among its run's audit rows. */
  lemma {:induction false} PlaceInTrail(audit: seq<AuditRow>, i: nat)
    requires i < |audit|
    ensures var k := |AuditTrail(audit[..i], audit[i].runId)|;
            k < |AuditTrail(audit, audit[i].runId)|
            && AuditTrail(audit, audit[i].runId)[k] == audit[i].fingerprint.payload
  {
    var init := audit[..|audit| - 1];
    if i < |init| {
      PlaceInTrail(init, i);
      assert init[..i] == audit[..i];
    } else {
      assert audit[..i] == init;
    }
  }

  lemma {:induction false} TrailsGrow(audit: seq<AuditRow>, i: nat, j: nat)
    requires i < j < |audit| && audit[i].runId == audit[j].runId
    ensures |AuditTrail(audit[..i], audit[i].runId)| < |AuditTrail(audit[..j], audit[i].runId)|
  {
    assert audit[..j][..j - 1] == audit[..j - 1];
    if i < j - 1 {
      PlaceInTrail(audit[..j], i);
      assert audit[..j][..i] == audit[..i];
    }
  }

  /** Of all expectations for one run naming the same fence, at most one is ever committed, and at most once. */
  lemma OneCommitPerFence(rows: Table, attempts: seq<Attempt>, i: nat, j: nat)
    requires Unreconciled(rows) && Loadable(attempts)
    requires var audit := AfterAll(rows, attempts).audit; i < j < |audit| && audit[i].runId == audit[j].runId
    ensures var audit := AfterAll(rows, attempts).audit;
            audit[i].fingerprint.payload.expectedFence < audit[j].fingerprint.payload.expectedFence
  {
    HistoryIsConsistent(rows, attempts);
    var s := AfterAll(rows, attempts);
    var id := s.audit[i].runId;
    assert s.audit[i] in s.audit;
    PlaceInTrail(s.audit, i);
    PlaceInTrail(s.audit, j);
    TrailsGrow(s.audit, i, j);
    assert RowConsistent(id, s.rows[id]);
  }
}
