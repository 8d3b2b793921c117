/** What a committed transaction guarantees, and how dry runs, re-runs and histories relate to it. */
module ReconciliationLaws {
  import opened Wrappers
  import opened Text
  import opened Reconciliation

  // ----- Status text -----

  lemma LowerOf(s: string)
    requires forall i :: 0 <= i < |s| ==> !('A' <= s[i] <= 'Z')
    ensures Lower(s) == s
  {
  }

  predicate PlainText(s: string) {
    s != [] && forall i :: 0 <= i < |s| ==> 'a' <= s[i] <= 'z' || s[i] == '_'
  }

  lemma StatusIsPlain(s: Status)
    ensures PlainText(StatusText(s))
  {
    match s
    case _ =>
  }

  lemma PlainReadsBack(text: string)
    requires PlainText(text)
    ensures Normalized(Some(text)) == text
  {
    StripTrims(text);
    LowerOf(text);
  }

  /** Every known status survives being written and read back. */
  lemma StatusReadsBack(s: Status)
    ensures Normalized(Some(StatusText(s))) == StatusText(s)
  {
    StatusIsPlain(s);
    PlainReadsBack(StatusText(s));
  }

  /** No two statuses share a text: their length, first or last letters tell them apart. */
  lemma StatusTextInjective(a: Status, b: Status)
    requires StatusText(a) == StatusText(b)
    ensures a == b
  {
    var text := StatusText(a);
    assert text[0] == StatusText(b)[0] && text[3] == StatusText(b)[3];
  }

  predicate Unpadded(status: Option<string>) {
    status.None? || (status.value != "" && Trimmed(status.value))
  }

  lemma BlankIsNotUnknown(s: string)
    requires Strip(s) == ""
    ensures Lower(s) != "unknown"
  {
    StripTrims(s);
    if |s| == 7 {
      assert IsSpace(s[0]) || IsSpace(s[6]);
      assert Lower(s)[0] == LowerChar(s[0]) && Lower(s)[6] == LowerChar(s[6]);
      assert "unknown"[0] == 'u' && "unknown"[6] == 'n';
    }
  }

  lemma StripShrinks(s: string)
    ensures |Strip(s)| <= |s|
    ensures |Strip(s)| == |s| ==> Strip(s) == s
  {
    StripLeftIsSuffix(s);
    StripRightIsPrefix(StripLeft(s));
  }

  /** The SQL guard and the Python guard see the same status exactly on unpadded, non-empty text. */
  lemma GuardsAgreeOnStatus(status: Option<string>)
    ensures SqlStatus(status) == Normalized(status) <==> Unpadded(status)
  {
    if status.Some? {
      var s := status.value;
      StripTrims(s);
      StripShrinks(s);
      if Strip(s) == "" {
        BlankIsNotUnknown(s);
        assert s == "" || !Trimmed(s);
      } else {
        assert Lower(s) == Lower(Strip(s)) ==> |Lower(s)| == |Lower(Strip(s))|;
      }
    }
  }

  // ----- One transaction -----

  ghost predicate StepSucceeds(rows: Table, e: Expectation, ctx: Context) {
    ApplyOne(Progress(rows, [], []), e, ctx).Success?
  }

  /** The audit rows of the expectations that were applied rather than kept. */
  function AuditsOf(es: seq<Expectation>, results: seq<RunResult>, ctx: Context): seq<AuditRow>
    requires |es| == |results|
  {
    if es == [] then []
    else
      var n := |es| - 1;
      AuditsOf(es[..n], results[..n], ctx) + if results[n].Applied? then [AuditOf(es[n], ctx)] else []
  }

  /** The i-th expectation's row and result, in terms of the table the transaction started from. */
  ghost predicate RowEffect(rows: Table, e: Expectation, ctx: Context, after: Table, result: RunResult) {
    && Selects(rows, e) && e.runId in after
    && var row := rows[e.runId];
       if Verify(row, e) == Success(AlreadyApplied) then after[e.runId] == row && result == Kept(e.runId)
       else
         && Verify(row, e) == Success(Matched)
         && CasUpdate(row, e, ctx) == Success(after[e.runId])
         && result == Applied(e.runId, e.expectedFence + 1)
  }

  ghost predicate Effect(rows: Table, es: seq<Expectation>, ctx: Context, p: Progress) {
    && p.rows.Keys == rows.Keys
    && |p.results| == |es|
    && p.audit == AuditsOf(es, p.results, ctx)
    && (forall k :: k in rows && k !in Names(es) ==> p.rows[k] == rows[k])
    && forall i :: 0 <= i < |es| ==> RowEffect(rows, es[i], ctx, p.rows, p.results[i])
  }

  /** One step depends on, and changes, only the row its expectation names. */
  lemma StepEffect(rows: Table, p: Progress, e: Expectation, ctx: Context)
    requires p.rows.Keys == rows.Keys && (e.runId in rows ==> p.rows[e.runId] == rows[e.runId])
    ensures ApplyOne(p, e, ctx).Success? <==> StepSucceeds(rows, e, ctx)
    ensures ApplyOne(p, e, ctx).Success? ==>
              var q := ApplyOne(p, e, ctx).value;
              && q.rows.Keys == rows.Keys
              && |q.results| == |p.results| + 1 && q.results[..|p.results|] == p.results
              && RowEffect(rows, e, ctx, q.rows, q.results[|p.results|])
              && q.audit == p.audit + (if q.results[|p.results|].Applied? then [AuditOf(e, ctx)] else [])
              && forall k :: k in rows && k != e.runId ==> q.rows[k] == p.rows[k]
  {
  }

  /** A transaction succeeds exactly when each expectation would on the starting table, and then has this effect. */
  lemma {:induction false} ApplyAllEffect(rows: Table, es: seq<Expectation>, ctx: Context)
    requires StrictlyAscending(es)
    ensures ApplyAll(rows, es, ctx).Success? <==> forall e :: e in es ==> StepSucceeds(rows, e, ctx)
    ensures ApplyAll(rows, es, ctx).Success? ==> Effect(rows, es, ctx, ApplyAll(rows, es, ctx).value)
  {
    if es != [] {
      var n := |es| - 1;
      var init, e := es[..n], es[n];
      assert es == init + [e];
      ApplyAllEffect(rows, init, ctx);
      if ApplyAll(rows, init, ctx).Success? {
        var before := ApplyAll(rows, init, ctx).value;
        NotYetProcessed(es);
        StepEffect(rows, before, e, ctx);
        if ApplyAll(rows, es, ctx).Success? {
          ExtendEffect(rows, es, ctx, before, ApplyAll(rows, es, ctx).value);
        }
      }
    }
  }

  lemma NotYetProcessed(es: seq<Expectation>)
    requires StrictlyAscending(es) && es != []
    ensures es[|es| - 1].runId !in Names(es[..|es| - 1])
  {
    LessIsTotalOrder();
    var n := |es| - 1;
    NamesMembers(es[..n]);
    assert forall i :: 0 <= i < n ==> Less(es[i].runId, es[n].runId);
  }

  lemma ExtendEffect(rows: Table, es: seq<Expectation>, ctx: Context, before: Progress, after: Progress)
    requires StrictlyAscending(es) && es != []
    requires Effect(rows, es[..|es| - 1], ctx, before)
    requires ApplyOne(before, es[|es| - 1], ctx) == Success(after)
    ensures Effect(rows, es, ctx, after)
  {
    hide Verify, CasUpdate, ApplyOne;
    var n := |es| - 1;
    NotYetProcessed(es);
    NamesMembers(es[..n]);
    StepEffect(rows, before, es[n], ctx);
    forall i | 0 <= i < |es| ensures RowEffect(rows, es[i], ctx, after.rows, after.results[i]) {
      if i < n {
        assert RowEffect(rows, es[..n][i], ctx, before.rows, before.results[i]);
        assert es[i].runId in Names(es[..n]);
        assert after.results[i] == after.results[..n][i];
      }
    }
  }

  lemma CasReachesTarget(row: Row, e: Expectation, ctx: Context)
    requires WellFormed(e) && CasUpdate(row, e, ctx).Success?
    ensures IsAlreadyApplied(CasUpdate(row, e, ctx).value, e)
    ensures CasUpdate(row, e, ctx).value.fence == Some(row.fence.value + 1)
    ensures InScope(row, e) ==> InScope(CasUpdate(row, e, ctx).value, e)
  {
    StatusReadsBack(e.target);
    var items := CasUpdate(row, e, ctx).value.extra.log.items;
    assert items[|items| - 1] == Recorded(EventOf(e, ctx));
  }

  function AppliedCount(results: seq<RunResult>): nat {
    if results == [] then 0
    else AppliedCount(results[..|results| - 1]) + if results[|results| - 1].Applied? then 1 else 0
  }

  lemma {:induction false} AuditsCounted(es: seq<Expectation>, results: seq<RunResult>, ctx: Context)
    requires |es| == |results|
    ensures |AuditsOf(es, results, ctx)| == AppliedCount(results)
  {
    if es != [] {
      AuditsCounted(es[..|es| - 1], results[..|es| - 1], ctx);
    }
  }

  /**
   * A transaction that does not raise leaves every named row at its target with its fingerprint recorded, has
   * moved the fence of applied rows by one, has written one audit row per applied row, and nothing else.
   */
  lemma {:induction false} CommittedTransaction(rows: Table, es: seq<Expectation>, ctx: Context)
    requires StrictlyAscending(es) && (forall e :: e in es ==> WellFormed(e))
    requires ApplyAll(rows, es, ctx).Success?
    ensures var p := ApplyAll(rows, es, ctx).value;
            && p.rows.Keys == rows.Keys
            && (forall k :: k in rows && k !in Names(es) ==> p.rows[k] == rows[k])
            && |p.audit| == AppliedCount(p.results)
            && (forall e :: e in es ==> Selects(p.rows, e) && IsAlreadyApplied(p.rows[e.runId], e))
            && forall i :: 0 <= i < |es| ==> ResultTells(rows, es[i], p.rows, p.results[i])
  {
    ApplyAllEffect(rows, es, ctx);
    var p := ApplyAll(rows, es, ctx).value;
    AuditsCounted(es, p.results, ctx);
    forall i | 0 <= i < |es|
      ensures Selects(p.rows, es[i]) && IsAlreadyApplied(p.rows[es[i].runId], es[i])
      ensures ResultTells(rows, es[i], p.rows, p.results[i])
    {
      assert es[i] in es;
      ResultIsTrue(rows, es[i], ctx, p.rows, p.results[i]);
    }
  }

  /** What a caller may conclude from one returned result. */
  ghost predicate ResultTells(rows: Table, e: Expectation, after: Table, result: RunResult) {
    && e.runId in rows && e.runId in after && result.runId == e.runId
    && match result
       case Kept(_) => after[e.runId] == rows[e.runId]
       case Applied(_, fence) =>
         && !IsAlreadyApplied(rows[e.runId], e)
         && rows[e.runId].fence == Some(e.expectedFence)
         && fence == e.expectedFence + 1
         && after[e.runId].fence == Some(fence)
  }

  lemma ResultIsTrue(rows: Table, e: Expectation, ctx: Context, after: Table, result: RunResult)
    requires WellFormed(e) && RowEffect(rows, e, ctx, after, result)
    ensures ResultTells(rows, e, after, result)
    ensures Selects(after, e) && IsAlreadyApplied(after[e.runId], e)
  {
    if result.Applied? {
      CasReachesTarget(rows[e.runId], e, ctx);
    }
  }

  function AllKept(es: seq<Expectation>): (r: seq<RunResult>)
    ensures |r| == |es|
  {
    seq(|es|, i requires 0 <= i < |es| => Kept(es[i].runId))
  }

  lemma {:induction false} NothingToDo(rows: Table, es: seq<Expectation>, ctx: Context)
    requires forall e :: e in es ==> Selects(rows, e) && IsAlreadyApplied(rows[e.runId], e)
    ensures ApplyAll(rows, es, ctx) == Success(Progress(rows, [], AllKept(es)))
  {
    hide HasFingerprint, CasUpdate;
    if es != [] {
      NothingToDo(rows, es[..|es| - 1], ctx);
      assert es[|es| - 1] in es;
      assert AllKept(es) == AllKept(es[..|es| - 1]) + [Kept(es[|es| - 1].runId)];
    } else {
      assert AllKept(es) == [];
    }
  }

  /** A second apply of the same manifest, by anyone at any time, keeps every row and audits nothing. */
  lemma ReapplyKeepsEverything(rows: Table, es: seq<Expectation>, ctx: Context, again: Context)
    requires StrictlyAscending(es) && (forall e :: e in es ==> WellFormed(e))
    requires ApplyAll(rows, es, ctx).Success?
    ensures var after := ApplyAll(rows, es, ctx).value.rows;
            ApplyAll(after, es, again) == Success(Progress(after, [], AllKept(es)))
  {
    CommittedTransaction(rows, es, ctx);
    NothingToDo(ApplyAll(rows, es, ctx).value.rows, es, again);
  }

  // ----- Dry runs -----

  /** The rows whose UPDATE cannot lose after the Python guard has matched. */
  predicate Writable(row: Row) {
    Unpadded(row.status) && row.fence.Some? && (row.extra.NullExtra? || row.extra.ObjectExtra?)
  }

  lemma StepAgainstDryRun(rows: Table, e: Expectation, ctx: Context)
    ensures StepSucceeds(rows, e, ctx) <==>
            && DryRunOne(rows, e).Success?
            && (DryRunOne(rows, e).value.Matched? ==> Writable(rows[e.runId]) && ctx.auditTable)
  {
    if Selects(rows, e) && Verify(rows[e.runId], e) == Success(Matched) {
      GuardsAgreeOnStatus(rows[e.runId].status);
    }
  }

  ghost predicate DryRunPasses(rows: Table, e: Expectation) {
    DryRunOne(rows, e).Success?
  }

  lemma DryRunExtends(rows: Table, es: seq<Expectation>)
    requires es != []
    ensures var init, e := DryRunAll(rows, es[..|es| - 1]), es[|es| - 1];
            && (DryRunAll(rows, es).Success? <==> init.Success? && DryRunPasses(rows, e))
            && (DryRunAll(rows, es).Success? ==>
                  DryRunAll(rows, es).value == init.value + [DryRunOne(rows, e).value])
  {
  }

  lemma {:induction false} DryRunEffect(rows: Table, es: seq<Expectation>)
    ensures DryRunAll(rows, es).Success? <==> forall e :: e in es ==> DryRunPasses(rows, e)
    ensures DryRunAll(rows, es).Success? ==>
              forall i :: 0 <= i < |es| ==> DryRunOne(rows, es[i]) == Success(DryRunAll(rows, es).value[i])
  {
    if es != [] {
      var n := |es| - 1;
      DryRunEffect(rows, es[..n]);
      DryRunExtends(rows, es);
      assert es == es[..n] + [es[n]];
    }
  }

  /**
   * Apply succeeds exactly when the dry run does and every row it would change is Writable with the audit table
   * there; on success the two agree run by run.
   */
  lemma ApplyAgainstDryRun(rows: Table, es: seq<Expectation>, ctx: Context)
    requires StrictlyAscending(es)
    ensures ApplyAll(rows, es, ctx).Success? <==>
            && DryRunAll(rows, es).Success?
            && forall e :: e in es && DryRunPasses(rows, e) && DryRunOne(rows, e).value.Matched? ==>
              Writable(rows[e.runId]) && ctx.auditTable
    ensures ApplyAll(rows, es, ctx).Success? ==>
              forall i :: 0 <= i < |es| ==>
                (ApplyAll(rows, es, ctx).value.results[i].Applied? <==> DryRunAll(rows, es).value[i].Matched?)
  {
    ApplyAllEffect(rows, es, ctx);
    DryRunEffect(rows, es);
    forall e
      ensures StepSucceeds(rows, e, ctx) <==>
              && DryRunPasses(rows, e)
              && (DryRunOne(rows, e).value.Matched? ==> Writable(rows[e.runId]) && ctx.auditTable)
    {
      StepAgainstDryRun(rows, e, ctx);
    }
    if ApplyAll(rows, es, ctx).Success? {
      var p := ApplyAll(rows, es, ctx).value;
      forall i | 0 <= i < |es|
        ensures p.results[i].Applied? <==> DryRunAll(rows, es).value[i].Matched?
      {
        assert RowEffect(rows, es[i], ctx, p.rows, p.results[i]);
      }
    }
  }

  /** The condition is needed: a padded status, or a NULL fence, is promised by the dry run and lost by apply. */
  lemma DryRunPromisesTooMuch(e: Expectation, ctx: Context, padded: bool)
    requires e.expectedStatus == Running && WellFormed(e) && e.expectedFence == 0
    ensures var row := Row(e.tenant, e.workspace, Some(if padded then "running " else "running"), e.expectedStart,
                           if padded then Some(0) else None, None, None, None, NullExtra);
            && DryRunAll(map[e.runId := row], [e]) == Success([Matched])
            && ApplyAll(map[e.runId := row], [e], ctx) == Failure(LostFence)
  {
    var status := if padded then "running " else "running";
    assert Strip(status) == "running" by {
      StripTrims("running");
      assert "running "[..7] == "running";
      assert StripRight("running ") == StripRight("running");
    }
    LowerOf("running");
    assert |Lower("running ")| == 8;
    var row := Row(e.tenant, e.workspace, Some(status), e.expectedStart, if padded then Some(0) else None,
                   None, None, None, NullExtra);
    assert [e][..|[e]| - 1] == [];
    assert DryRunAll(map[e.runId := row], []) == Success([]);
    assert [] + [Matched] == [Matched];
    assert Verify(row, e) == Success(Matched);
    assert CasUpdate(row, e, ctx) == Failure(LostFence);
  }
}
