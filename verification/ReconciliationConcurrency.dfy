/**
 * Any number of apply-mode reconcilers on one table, interleaved step by step: row locks are taken one at a time,
 * held to the end, and a reconciler may be rolled back at any moment.
 */
module ReconciliationConcurrency {
  import opened Wrappers
  import opened Sorting
  import opened Reconciliation
  import opened ReconciliationHistory

  /** The next thing to do for todo[done]: lock it, verify it, update it, or audit the updated row. */
  datatype Phase = Lock | Check | Write | Record(row: Row)

  datatype Ending = Active | Committed | RolledBack

  /** mine holds the rows this transaction has written; no one else sees them before the commit. */
  datatype Reconciler = Reconciler(
    todo: seq<Expectation>, ctx: Context, done: nat, phase: Phase, mine: Table, audit: seq<AuditRow>,
    results: seq<RunResult>, ending: Ending)

  /** locks maps a locked run id to its holder; commits lists the committed reconcilers in order. */
  datatype System = System(
    rows: Table, audit: seq<AuditRow>, locks: map<string, nat>, procs: seq<Reconciler>, commits: seq<nat>)

  function Start(rows: Table, attempts: seq<Attempt>): System {
    System(rows, [], map[], seq(|attempts|, i requires 0 <= i < |attempts| =>
                                Reconciler(SortByRunId(attempts[i].runs), attempts[i].ctx, 0, Lock, map[], [], [],
                                           Active)), [])
  }

  predicate Waiting(s: System, i: nat)
    requires i < |s.procs|
  {
    var p := s.procs[i];
    && p.ending.Active? && p.phase.Lock? && p.done < |p.todo|
    && Selects(s.rows + p.mine, p.todo[p.done])
    && p.todo[p.done].runId in s.locks && s.locks[p.todo[p.done].runId] != i
  }

  predicate CanStep(s: System, i: nat) {
    i < |s.procs| && s.procs[i].ending.Active? && !Waiting(s, i)
  }

  function Release(locks: map<string, nat>, i: nat): map<string, nat> {
    map k | k in locks && locks[k] != i :: locks[k]
  }

  function Rollback(s: System, i: nat): System
    requires i < |s.procs|
  {
    s.(locks := Release(s.locks, i),
       procs := s.procs[i := s.procs[i].(ending := RolledBack, mine := map[], audit := [], results := [])])
  }

  function Commit(s: System, i: nat): System
    requires i < |s.procs|
  {
    var p := s.procs[i];
    s.(rows := s.rows + p.mine, audit := s.audit + p.audit, locks := Release(s.locks, i),
       procs := s.procs[i := p.(ending := Committed)], commits := s.commits + [i])
  }

  function Set(s: System, i: nat, p: Reconciler): System
    requires i < |s.procs|
  {
    s.(procs := s.procs[i := p])
  }

  function TakeLock(s: System, i: nat): System
    requires i < |s.procs| && s.procs[i].done < |s.procs[i].todo|
  {
    Set(s, i, s.procs[i].(phase := Check)).(locks := s.locks[s.procs[i].todo[s.procs[i].done].runId := i])
  }

  function RecordUpdate(s: System, i: nat): System
    requires i < |s.procs| && s.procs[i].done < |s.procs[i].todo| && s.procs[i].phase.Record?
  {
    var p := s.procs[i];
    var e := p.todo[p.done];
    Set(s, i, p.(phase := Lock, done := p.done + 1, mine := p.mine[e.runId := p.phase.row],
                 audit := p.audit + [AuditOf(e, p.ctx)],
                 results := p.results + [Applied(e.runId, e.expectedFence + 1)]))
  }

  /** The next step of reconciler i; a conflict rolls it back. */
  function Advance(s: System, i: nat): System
    requires CanStep(s, i)
  {
    var p := s.procs[i];
    if p.done >= |p.todo| then Commit(s, i)
    else
      var e := p.todo[p.done];
      var view := s.rows + p.mine;
      if !Selects(view, e) then Rollback(s, i)
      else
        match p.phase
        case Lock => TakeLock(s, i)
        case Check =>
          (match Verify(view[e.runId], e)
           case Failure(_) => Rollback(s, i)
           case Success(AlreadyApplied) =>
             Set(s, i, p.(phase := Lock, done := p.done + 1, results := p.results + [Kept(e.runId)]))
           case Success(Matched) => Set(s, i, p.(phase := Write)))
        case Write =>
          (match CasUpdate(view[e.runId], e, p.ctx)
           case Failure(_) => Rollback(s, i)
           case Success(row) => Set(s, i, p.(phase := Record(row))))
        case Record(row) =>
          if !p.ctx.auditTable then Rollback(s, i)
          else RecordUpdate(s, i)
  }

  ghost predicate Next(s: System, t: System, i: nat) {
    || (CanStep(s, i) && t == Advance(s, i))
    || (i < |s.procs| && s.procs[i].ending.Active? && t == Rollback(s, i))
  }

  ghost predicate Execution(rows: Table, attempts: seq<Attempt>, states: seq<System>, who: seq<nat>) {
    && |states| == |who| + 1 && states[0] == Start(rows, attempts)
    && forall n :: 0 <= n < |who| ==> Next(states[n], states[n + 1], who[n])
  }

  // ----- What every reachable state satisfies -----

  function HeldCount(p: Reconciler): nat {
    p.done + if p.phase.Lock? then 0 else 1
  }

  ghost predicate Holds(p: Reconciler, k: string) {
    exists n :: 0 <= n < HeldCount(p) && n < |p.todo| && p.todo[n].runId == k
  }

  /** Reconciler i, in state p, owns the lock of every row it has selected. */
  ghost predicate OwnsLocks(locks: map<string, nat>, i: nat, p: Reconciler) {
    forall n :: 0 <= n < HeldCount(p) && n < |p.todo| ==> p.todo[n].runId in locks && locks[p.todo[n].runId] == i
  }

  ghost predicate OwnsWrites(locks: map<string, nat>, i: nat, mine: Table) {
    forall k :: k in mine ==> k in locks && locks[k] == i
  }

  /** What the transaction has done so far is what it would do on the table as committed now. */
  ghost predicate ProgressSound(rows: Table, p: Reconciler) {
    && p.done <= |p.todo|
    && ApplyAll(rows, p.todo[..p.done], p.ctx) == Success(Progress(rows + p.mine, p.audit, p.results))
  }

  ghost predicate PhaseSound(view: Table, p: Reconciler) {
    p.phase.Lock? ||
    (&& p.done < |p.todo|
     && var e := p.todo[p.done];
        && Selects(view, e)
        && (p.phase.Check? || Verify(view[e.runId], e) == Success(Matched))
        && (p.phase.Record? ==> CasUpdate(view[e.runId], e, p.ctx) == Success(p.phase.row)))
  }

  ghost predicate ProcSound(s: System, i: nat)
    requires i < |s.procs|
  {
    var p := s.procs[i];
    p.ending.Active? ==>
      && OwnsLocks(s.locks, i, p) && OwnsWrites(s.locks, i, p.mine)
      && ProgressSound(s.rows, p) && PhaseSound(s.rows + p.mine, p)
  }

  ghost predicate LocksSound(s: System) {
    forall k :: k in s.locks ==>
      && s.locks[k] < |s.procs| && s.procs[s.locks[k]].ending.Active? && Holds(s.procs[s.locks[k]], k)
  }

  function Order(attempts: seq<Attempt>, commits: seq<nat>): (r: seq<Attempt>)
    requires forall c :: c in commits ==> c < |attempts|
    ensures |r| == |commits|
  {
    seq(|commits|, n requires 0 <= n < |commits| => assert commits[n] in commits; attempts[commits[n]])
  }

  /** The committed table is what the committed reconcilers would have made one after the other. */
  ghost predicate Serial(rows: Table, attempts: seq<Attempt>, s: System) {
    && (forall c :: c in s.commits ==> c < |attempts|)
    && Store(s.rows, s.audit) == AfterAll(rows, Order(attempts, s.commits))
  }

  ghost predicate Reachable(rows: Table, attempts: seq<Attempt>, s: System) {
    && |s.procs| == |attempts|
    && (forall i :: 0 <= i < |attempts| ==>
          s.procs[i].todo == SortByRunId(attempts[i].runs) && s.procs[i].ctx == attempts[i].ctx)
    && (forall i :: 0 <= i < |s.procs| ==> ProcSound(s, i))
    && LocksSound(s) && Serial(rows, attempts, s)
    && Distinct(s.commits)
    && forall i :: 0 <= i < |s.procs| ==> (s.procs[i].ending.Committed? <==> i in s.commits)
  }

  // ----- A transaction depends only on the rows it names -----

  ghost predicate Agree(rows: Table, other: Table, ids: set<string>) {
    forall k :: k in ids ==> (k in rows <==> k in other) && (k in rows ==> rows[k] == other[k])
  }

  lemma StepElsewhere(p: Progress, q: Progress, e: Expectation, ctx: Context)
    requires Agree(p.rows, q.rows, {e.runId}) && p.audit == q.audit && p.results == q.results
    ensures match ApplyOne(p, e, ctx)
            case Failure(error) => ApplyOne(q, e, ctx) == Failure(error)
            case Success(p') =>
              && ApplyOne(q, e, ctx).Success?
              && var q' := ApplyOne(q, e, ctx).value;
                 && q'.audit == p'.audit && q'.results == p'.results
                 && e.runId in p'.rows && p'.rows == p.rows[e.runId := p'.rows[e.runId]]
                 && q'.rows == q.rows[e.runId := p'.rows[e.runId]]
  {
    assert e.runId in {e.runId};
  }

  lemma {:induction false} TransactionElsewhere(rows: Table, other: Table, es: seq<Expectation>, ctx: Context)
    requires Agree(rows, other, Names(es)) && ApplyAll(rows, es, ctx).Success?
    ensures ApplyAll(other, es, ctx).Success?
    ensures var p, q := ApplyAll(rows, es, ctx).value, ApplyAll(other, es, ctx).value;
            && q.audit == p.audit && q.results == p.results
            && p.rows.Keys == rows.Keys && q.rows.Keys == other.Keys
            && Agree(p.rows, q.rows, Names(es))
            && forall k :: k in other && k !in Names(es) ==> q.rows[k] == other[k]
  {
    if es != [] {
      var init, e := es[..|es| - 1], es[|es| - 1];
      TransactionElsewhere(rows, other, init, ctx);
      var p, q := ApplyAll(rows, init, ctx).value, ApplyAll(other, init, ctx).value;
      assert Agree(p.rows, q.rows, {e.runId}) by {
        TransactionTouches(rows, init, ctx);
        assert e.runId in Names(es);
      }
      StepElsewhere(p, q, e, ctx);
    }
  }

  lemma {:induction false} TransactionTouches(rows: Table, es: seq<Expectation>, ctx: Context)
    requires ApplyAll(rows, es, ctx).Success?
    ensures var p := ApplyAll(rows, es, ctx).value;
            p.rows.Keys == rows.Keys && forall k :: k in rows && k !in Names(es) ==> p.rows[k] == rows[k]
  {
    if es != [] {
      var init, e := es[..|es| - 1], es[|es| - 1];
      TransactionTouches(rows, init, ctx);
    }
  }

  lemma ProgressElsewhere(rows: Table, other: Table, p: Reconciler)
    requires ProgressSound(rows, p) && Agree(rows, other, Names(p.todo[..p.done]))
    requires forall k :: k in p.mine ==> (k in rows <==> k in other) && (k in rows ==> rows[k] == other[k])
    ensures ProgressSound(other, p)
  {
    var es := p.todo[..p.done];
    TransactionElsewhere(rows, other, es, p.ctx);
    TransactionTouches(rows, es, p.ctx);
    SameOverlay(rows, other, Names(es), p.mine, ApplyAll(other, es, p.ctx).value.rows);
  }

  /** A table that differs from other only by what mine overlays is that overlay. */
  lemma SameOverlay(rows: Table, other: Table, ids: set<string>, mine: Table, q: Table)
    requires Agree(rows, other, ids) && Agree(rows + mine, q, ids)
    requires (rows + mine).Keys == rows.Keys && q.Keys == other.Keys
    requires forall k :: k in mine ==> (k in rows <==> k in other) && (k in rows ==> rows[k] == other[k])
    requires forall k :: k in rows && k !in ids ==> (rows + mine)[k] == rows[k]
    requires forall k :: k in other && k !in ids ==> q[k] == other[k]
    ensures q == other + mine
  {
    forall k | k in mine ensures k in other {
      assert k in rows + mine;
    }
    assert q.Keys == (other + mine).Keys;
  }

  // ----- Every step keeps the state reachable -----

  /** t keeps every lock that j holds in s, and the rows behind those locks. */
  ghost predicate Spares(s: System, t: System, j: nat) {
    forall k :: k in s.locks && s.locks[k] == j ==>
      && k in t.locks && t.locks[k] == j
      && (k in s.rows <==> k in t.rows) && (k in s.rows ==> t.rows[k] == s.rows[k])
  }

  lemma SelectedAgree(s: System, t: System, j: nat, p: Reconciler)
    requires OwnsLocks(s.locks, j, p) && p.done <= |p.todo| && Spares(s, t, j)
    ensures Agree(s.rows, t.rows, Names(p.todo[..p.done]))
  {
    NamesMembers(p.todo[..p.done]);
  }

  lemma PhaseElsewhere(view: Table, other: Table, p: Reconciler)
    requires PhaseSound(view, p)
    requires !p.phase.Lock? && p.todo[p.done].runId in view ==>
               p.todo[p.done].runId in other && other[p.todo[p.done].runId] == view[p.todo[p.done].runId]
    ensures PhaseSound(other, p)
  {
  }

  lemma OthersStaySound(s: System, t: System, j: nat)
    requires j < |s.procs| && j < |t.procs| && t.procs[j] == s.procs[j]
    requires ProcSound(s, j) && Spares(s, t, j)
    ensures ProcSound(t, j)
  {
    var p := s.procs[j];
    if p.ending.Active? {
      SelectedAgree(s, t, j, p);
      ProgressElsewhere(s.rows, t.rows, p);
      if !p.phase.Lock? {
        assert p.todo[p.done].runId in s.locks && s.locks[p.todo[p.done].runId] == j;
      }
      PhaseElsewhere(s.rows + p.mine, t.rows + p.mine, p);
    }
  }

  /** The transaction's progress after finishing todo[done]. */
  lemma ExtendProgress(rows: Table, p: Reconciler, q: Reconciler)
    requires ProgressSound(rows, p) && p.done < |p.todo|
    requires q.todo == p.todo && q.ctx == p.ctx && q.done == p.done + 1
    requires ApplyOne(Progress(rows + p.mine, p.audit, p.results), p.todo[p.done], p.ctx)
          == Success(Progress(rows + q.mine, q.audit, q.results))
    ensures ProgressSound(rows, q)
  {
    var es := p.todo[..p.done + 1];
    assert es[..|es| - 1] == p.todo[..p.done];
  }

  lemma UpdatedIsApplied(q: Progress, e: Expectation, ctx: Context, row: Row)
    requires Selects(q.rows, e) && Verify(q.rows[e.runId], e) == Success(Matched)
    requires CasUpdate(q.rows[e.runId], e, ctx) == Success(row) && ctx.auditTable
    ensures ApplyOne(q, e, ctx) == Success(Progress(q.rows[e.runId := row], q.audit + [AuditOf(e, ctx)],
                                                    q.results + [Applied(e.runId, e.expectedFence + 1)]))
  {
  }

  lemma RecordStaysSound(s: System, i: nat)
    requires i < |s.procs| && ProcSound(s, i)
    requires var p := s.procs[i]; p.ending.Active? && p.phase.Record? && p.ctx.auditTable
    ensures ProcSound(RecordUpdate(s, i), i)
  {
    hide ApplyAll, Verify, CasUpdate;
    var p, q := s.procs[i], RecordUpdate(s, i).procs[i];
    var e := p.todo[p.done];
    RecordExtends(s.rows, p, q);
    assert OwnsWrites(s.locks, i, q.mine) by {
      assert p.done < HeldCount(p);
    }
    assert OwnsLocks(s.locks, i, q);
  }

  lemma RecordExtends(rows: Table, p: Reconciler, q: Reconciler)
    requires ProgressSound(rows, p) && PhaseSound(rows + p.mine, p) && p.phase.Record? && p.ctx.auditTable
    requires var e := p.todo[p.done];
             q == p.(phase := Lock, done := p.done + 1, mine := p.mine[e.runId := p.phase.row],
                     audit := p.audit + [AuditOf(e, p.ctx)],
                     results := p.results + [Applied(e.runId, e.expectedFence + 1)])
    ensures ProgressSound(rows, q)
  {
    var e, view := p.todo[p.done], Progress(rows + p.mine, p.audit, p.results);
    UpdatedIsApplied(view, e, p.ctx, p.phase.row);
    assert rows + q.mine == view.rows[e.runId := p.phase.row];
    ExtendProgress(rows, p, q);
  }

  lemma CheckStaysSound(s: System, i: nat)
    requires CanStep(s, i) && ProcSound(s, i) && s.procs[i].phase.Check?
    ensures ProcSound(Advance(s, i), i)
  {
    var p := s.procs[i];
    var e, view := p.todo[p.done], s.rows + p.mine;
    if Verify(view[e.runId], e) == Success(AlreadyApplied) {
      ExtendProgress(s.rows, p, p.(phase := Lock, done := p.done + 1, results := p.results + [Kept(e.runId)]));
    }
  }

  lemma LockStaysSound(s: System, i: nat)
    requires i < |s.procs| && ProcSound(s, i)
    requires var p := s.procs[i];
             && p.ending.Active? && p.phase.Lock? && p.done < |p.todo| && Selects(s.rows + p.mine, p.todo[p.done])
             && (p.todo[p.done].runId in s.locks ==> s.locks[p.todo[p.done].runId] == i)
    ensures ProcSound(TakeLock(s, i), i)
  {
    hide ApplyAll, Verify, CasUpdate;
    var p, t := s.procs[i], TakeLock(s, i);
    assert OwnsLocks(t.locks, i, t.procs[i]);
    assert OwnsWrites(t.locks, i, p.mine);
    assert ProgressSound(s.rows, t.procs[i]);
  }

  lemma WriteStaysSound(s: System, i: nat)
    requires CanStep(s, i) && ProcSound(s, i) && s.procs[i].phase.Write?
    ensures ProcSound(Advance(s, i), i)
  {
    assert ProgressSound(s.rows, s.procs[i]);
  }

  lemma OwnStepStaysSound(s: System, i: nat)
    requires CanStep(s, i) && ProcSound(s, i) && s.procs[i].done < |s.procs[i].todo|
    ensures ProcSound(Advance(s, i), i)
  {
    var p := s.procs[i];
    if Advance(s, i) != Rollback(s, i) {
      match p.phase
      case Lock => LockStaysSound(s, i);
      case Check => CheckStaysSound(s, i);
      case Write => WriteStaysSound(s, i);
      case Record(_) => RecordStaysSound(s, i);
    }
  }

  function PhaseIndex(p: Phase): nat {
    match p
    case Lock => 0
    case Check => 1
    case Write => 2
    case Record(_) => 3
  }

  function Work(p: Reconciler): nat {
    if !p.ending.Active? || p.done > |p.todo| then 0 else 4 * (|p.todo| - p.done) + 4 - PhaseIndex(p.phase)
  }

  /** The shape of every step that neither commits nor rolls back: one reconciler moves, at most one lock is taken. */
  ghost predicate Moves(s: System, t: System, i: nat) {
    && i < |s.procs| && |t.procs| == |s.procs|
    && var p, q := s.procs[i], t.procs[i];
       && t == s.(locks := t.locks, procs := s.procs[i := q])
       && p.ending.Active? && q.ending.Active? && q.todo == p.todo && q.ctx == p.ctx && p.done < |p.todo|
       && Work(q) < Work(p)
       && ((t.locks == s.locks && HeldCount(q) == HeldCount(p))
           || (var k := p.todo[p.done].runId;
               && p.phase.Lock? && q == p.(phase := Check)
               && t.locks == s.locks[k := i] && (k in s.locks ==> s.locks[k] == i)))
  }

  lemma AdvanceShape(s: System, i: nat)
    requires CanStep(s, i)
    ensures var t := Advance(s, i);
            || t == Rollback(s, i)
            || (t == Commit(s, i) && s.procs[i].done >= |s.procs[i].todo|)
            || Moves(s, t, i)
  {
    match s.procs[i].phase
    case Lock =>
    case Check =>
    case Write =>
    case Record(_) =>
  }

  lemma HeldStaysHeld(p: Reconciler, q: Reconciler, k: string)
    requires Holds(p, k) && q.todo == p.todo && HeldCount(q) >= HeldCount(p)
    ensures Holds(q, k)
  {
    var n :| 0 <= n < HeldCount(p) && n < |p.todo| && p.todo[n].runId == k;
    assert q.todo[n].runId == k;
  }

  lemma MoveKeepsLocks(s: System, t: System, i: nat)
    requires Moves(s, t, i) && LocksSound(s)
    ensures LocksSound(t)
  {
    var p, q := s.procs[i], t.procs[i];
    forall k | k in t.locks
      ensures && t.locks[k] < |t.procs| && t.procs[t.locks[k]].ending.Active? && Holds(t.procs[t.locks[k]], k)
    {
      if k !in s.locks {
        assert q.todo[q.done].runId == k;
      } else if t.locks[k] == i {
        HeldStaysHeld(p, q, k);
      }
    }
  }

  lemma {:induction false} CommitIsSerial(rows: Table, attempts: seq<Attempt>, s: System, i: nat)
    requires Reachable(rows, attempts, s) && i < |s.procs| && s.procs[i].ending.Active?
    requires s.procs[i].done >= |s.procs[i].todo|
    ensures Serial(rows, attempts, Commit(s, i))
  {
    var p := s.procs[i];
    var before, after := Order(attempts, s.commits), Order(attempts, s.commits + [i]);
    assert ProcSound(s, i);
    assert ProgressSound(s.rows, p);
    assert p.todo[..p.done] == p.todo;
    assert after[..|after| - 1] == before;
    assert after[|after| - 1] == attempts[i];
    assert AfterOne(AfterAll(rows, before), attempts[i]) == Store(s.rows + p.mine, s.audit + p.audit);
  }

  lemma OthersAreSpared(s: System, t: System, i: nat, j: nat)
    requires i < |s.procs| && j < |s.procs| && i != j && ProcSound(s, i) && s.procs[i].ending.Active?
    requires t == Rollback(s, i) || t == Commit(s, i) || Moves(s, t, i)
    ensures Spares(s, t, j)
  {
    assert OwnsWrites(s.locks, i, s.procs[i].mine);
  }

  lemma EndKeepsReachable(rows: Table, attempts: seq<Attempt>, s: System, t: System, i: nat)
    requires Reachable(rows, attempts, s) && i < |s.procs| && s.procs[i].ending.Active?
    requires t == Rollback(s, i) || (t == Commit(s, i) && s.procs[i].done >= |s.procs[i].todo|)
    ensures Reachable(rows, attempts, t)
  {
    hide ProgressSound, PhaseSound, AfterAll, SortByRunId;
    assert ProcSound(s, i);
    forall j | 0 <= j < |s.procs| && j != i ensures ProcSound(t, j) {
      OthersAreSpared(s, t, i, j);
      OthersStaySound(s, t, j);
    }
    if t == Commit(s, i) {
      CommitIsSerial(rows, attempts, s, i);
    }
  }

  lemma MoveKeepsReachable(rows: Table, attempts: seq<Attempt>, s: System, t: System, i: nat)
    requires Reachable(rows, attempts, s) && Moves(s, t, i) && ProcSound(t, i)
    ensures Reachable(rows, attempts, t)
  {
    hide ProgressSound, PhaseSound, AfterAll;
    assert ProcSound(s, i);
    forall j | 0 <= j < |s.procs| && j != i ensures ProcSound(t, j) {
      OthersAreSpared(s, t, i, j);
      OthersStaySound(s, t, j);
    }
    MoveKeepsLocks(s, t, i);
  }

  lemma StepKeepsReachable(rows: Table, attempts: seq<Attempt>, s: System, t: System, i: nat)
    requires Reachable(rows, attempts, s) && Next(s, t, i)
    ensures Reachable(rows, attempts, t)
  {
    if t == Rollback(s, i) {
      EndKeepsReachable(rows, attempts, s, t, i);
    } else {
      AdvanceShape(s, i);
      if Moves(s, t, i) {
        assert ProcSound(s, i);
        OwnStepStaysSound(s, i);
        MoveKeepsReachable(rows, attempts, s, t, i);
      } else {
        EndKeepsReachable(rows, attempts, s, t, i);
      }
    }
  }

  lemma StartIsReachable(rows: Table, attempts: seq<Attempt>)
    ensures Reachable(rows, attempts, Start(rows, attempts))
  {
    var s := Start(rows, attempts);
    assert Order(attempts, []) == [];
    forall i | 0 <= i < |attempts| ensures ProcSound(s, i) {
      assert s.procs[i].todo[..0] == [];
      assert rows + map[] == rows;
      assert ProgressSound(rows, s.procs[i]);
    }
  }

  /**
   * Serializability: in every state of every execution, the committed table and audit log are exactly what the
   * committed reconcilers, each at most once, would have produced one after the other in commit order.
   */
  lemma {:induction false} ExecutionsAreSerial(
    rows: Table, attempts: seq<Attempt>, states: seq<System>, who: seq<nat>, n: nat)
    requires Execution(rows, attempts, states, who) && n < |states|
    ensures Reachable(rows, attempts, states[n])
    ensures Distinct(states[n].commits) && (forall c :: c in states[n].commits ==> c < |attempts|)
    ensures Store(states[n].rows, states[n].audit) == AfterAll(rows, Order(attempts, states[n].commits))
  {
    if n == 0 {
      StartIsReachable(rows, attempts);
    } else {
      ExecutionsAreSerial(rows, attempts, states, who, n - 1);
      assert Next(states[n - 1], states[n - 1 + 1], who[n - 1]);
      StepKeepsReachable(rows, attempts, states[n - 1], states[n], who[n - 1]);
    }
  }
}
