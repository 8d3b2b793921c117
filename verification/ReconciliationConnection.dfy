/** `reconcile` over a database connection: one transaction that commits whole or not at all. */
module ReconciliationConnection {
  import opened Wrappers
  import opened Reconciliation

  datatype Report = Results(runs: seq<RunResult>) | Verdicts(verdicts: seq<Verdict>)

  class Connection {
    // What other transactions see.
    var rows: Table
    var audit: seq<AuditRow>
    // What the open transaction sees.
    var openRows: Table
    var openAudit: seq<AuditRow>

    ghost predicate Idle()
      reads this
    {
      openRows == rows && openAudit == audit
    }

    constructor (rows: Table, audit: seq<AuditRow>)
      ensures Idle() && this.rows == rows && this.audit == audit
    {
      this.rows, openRows := rows, rows;
      this.audit, openAudit := audit, audit;
    }

    method Commit()
      modifies this
      ensures Idle() && rows == old(openRows) && audit == old(openAudit)
    {
      rows, audit := openRows, openAudit;
    }

    method Rollback()
      modifies this`openRows, this`openAudit
      ensures Idle()
    {
      openRows, openAudit := rows, audit;
    }

    method SelectRow(e: Expectation) returns (row: Option<Row>)
      ensures row == if Selects(openRows, e) then Some(openRows[e.runId]) else None
    {
      if e.runId in openRows && InScope(openRows[e.runId], e) {
        row := Some(openRows[e.runId]);
      } else {
        row := None;
      }
    }

    method AppendAudit(e: Expectation, ctx: Context) returns (r: Result<(), Conflict>)
      modifies this`openAudit
      ensures r.Success? <==> ctx.auditTable
      ensures openAudit == if ctx.auditTable then old(openAudit) + [AuditOf(e, ctx)] else old(openAudit)
      ensures r.Failure? ==> r.error == AuditTableMissing
    {
      if !ctx.auditTable {
        return Failure(AuditTableMissing);
      }
      openAudit := openAudit + [AuditOf(e, ctx)];
      return Success(());
    }

    method ApplyOne(e: Expectation, ctx: Context) returns (r: Result<RunResult, Conflict>)
      modifies this`openRows, this`openAudit
      ensures match Reconciliation.ApplyOne(Progress(old(openRows), old(openAudit), []), e, ctx)
              case Failure(error) => r == Failure(error)
              case Success(p) => r == Success(p.results[0]) && openRows == p.rows && openAudit == p.audit
    {
      var row := SelectRow(e);
      if row.None? {
        return Failure(MissingRow);
      }
      var verdict :- Verify(row.value, e);
      if verdict.AlreadyApplied? {
        return Success(Kept(e.runId));
      }
      var updated :- CasUpdate(row.value, e, ctx);
      openRows := openRows[e.runId := updated];
      var _ :- AppendAudit(e, ctx);
      return Success(Applied(e.runId, updated.fence.value));
    }

    method DryRunOne(e: Expectation) returns (r: Result<Verdict, Conflict>)
      ensures r == Reconciliation.DryRunOne(openRows, e)
    {
      var row := SelectRow(e);
      if row.None? {
        return Failure(MissingRow);
      }
      r := Verify(row.value, e);
    }

    /** The loop of `reconcile`; on an error the caller rolls back. */
    method RunAll(ordered: seq<Expectation>, apply: bool, ctx: Context) returns (r: Result<Report, Conflict>)
      requires Idle()
      modifies this`openRows, this`openAudit
      ensures apply ==>
                match ApplyAll(rows, ordered, ctx)
                case Failure(error) => r == Failure(error)
                case Success(p) =>
                  r == Success(Results(p.results)) && openRows == p.rows && openAudit == audit + p.audit
      ensures !apply ==>
                match DryRunAll(rows, ordered)
                case Failure(error) => r == Failure(error)
                case Success(verdicts) => r == Success(Verdicts(verdicts))
    {
      var results, verdicts := [], [];
      var i := 0;
      assert ordered[..0] == [] && openAudit[|audit|..] == [];
      while i < |ordered|
        invariant 0 <= i <= |ordered|
        invariant |openAudit| >= |audit| && openAudit[..|audit|] == audit
        invariant apply ==>
            ApplyAll(rows, ordered[..i], ctx) == Success(Progress(openRows, openAudit[|audit|..], results))
        invariant !apply ==> Idle() && DryRunAll(rows, ordered[..i]) == Success(verdicts)
      {
        assert ordered[..i + 1][..i] == ordered[..i];
        if apply {
          ghost var before := Progress(openRows, openAudit[|audit|..], results);
          assert openAudit == audit + before.audit;
          StepOnTop(audit, before, ordered[i], ctx);
          var one := ApplyOne(ordered[i], ctx);
          if one.Failure? {
            FailureSpreads(rows, ordered, i + 1, ctx);
            return Failure(one.error);
          }
          results := results + [one.value];
        } else {
          var one := DryRunOne(ordered[i]);
          if one.Failure? {
            DryRunFailureSpreads(rows, ordered, i + 1);
            return Failure(one.error);
          }
          verdicts := verdicts + [one.value];
        }
        i := i + 1;
      }
      assert ordered[..i] == ordered;
      assert openAudit == openAudit[..|audit|] + openAudit[|audit|..];
      return Success(if apply then Results(results) else Verdicts(verdicts));
    }

    /** All or nothing: an error leaves the committed table and audit log as they were, and so does a dry run. */
    method Reconcile(runs: seq<Expectation>, apply: bool, ctx: Context) returns (r: Result<Report, Conflict>)
      requires Idle()
      modifies this
      ensures Idle()
      ensures r.Failure? || !apply ==> rows == old(rows) && audit == old(audit)
      ensures apply ==>
                match ApplyAll(old(rows), SortByRunId(runs), ctx)
                case Failure(error) => r == Failure(error)
                case Success(p) => r == Success(Results(p.results)) && rows == p.rows && audit == old(audit) + p.audit
      ensures !apply ==>
                match DryRunAll(old(rows), SortByRunId(runs))
                case Failure(error) => r == Failure(error)
                case Success(verdicts) => r == Success(Verdicts(verdicts))
    {
      var ordered := SortByRunId(runs);
      r := RunAll(ordered, apply, ctx);
      if r.Success? && apply {
        Commit();
      } else {
        Rollback();
      }
    }
  }

  /** What is already in the audit log, and what was returned so far, does not change a step. */
  lemma StepOnTop(audit: seq<AuditRow>, p: Progress, e: Expectation, ctx: Context)
    ensures match ApplyOne(Progress(p.rows, audit + p.audit, []), e, ctx)
            case Failure(error) => ApplyOne(p, e, ctx) == Failure(error)
            case Success(q) =>
              && |q.audit| >= |audit| && q.audit[..|audit|] == audit
              && ApplyOne(p, e, ctx) == Success(Progress(q.rows, q.audit[|audit|..], p.results + [q.results[0]]))
  {
    var done := audit + p.audit;
    assert (done + [AuditOf(e, ctx)])[|audit|..] == p.audit + [AuditOf(e, ctx)];
    assert done[|audit|..] == p.audit;
  }

  /** The first conflict decides: later expectations are never reached. */
  lemma {:induction false} FailureSpreads(rows: Table, es: seq<Expectation>, n: nat, ctx: Context)
    requires n <= |es| && ApplyAll(rows, es[..n], ctx).Failure?
    ensures ApplyAll(rows, es, ctx) == ApplyAll(rows, es[..n], ctx)
  {
    if n < |es| {
      assert es[..|es| - 1][..n] == es[..n];
      FailureSpreads(rows, es[..|es| - 1], n, ctx);
    } else {
      assert es[..n] == es;
    }
  }

  lemma {:induction false} DryRunFailureSpreads(rows: Table, es: seq<Expectation>, n: nat)
    requires n <= |es| && DryRunAll(rows, es[..n]).Failure?
    ensures DryRunAll(rows, es) == DryRunAll(rows, es[..n])
  {
    if n < |es| {
      assert es[..|es| - 1][..n] == es[..n];
      DryRunFailureSpreads(rows, es[..|es| - 1], n);
    } else {
      assert es[..n] == es;
    }
  }
}
