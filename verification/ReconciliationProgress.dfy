/** Reconcilers that lock their rows in ascending order never deadlock, and every execution ends. */
module ReconciliationProgress {
  import opened Text
  import opened Sorting
  import opened Sets
  import opened Reconciliation
  import opened ReconciliationHistory
  import opened ReconciliationConcurrency

  ghost predicate Loaded(attempts: seq<Attempt>) {
    forall i :: 0 <= i < |attempts| ==> Distinct(RunIds(attempts[i].runs))
  }

  function Wanted(s: System, i: nat): string
    requires i < |s.procs| && Waiting(s, i)
  {
    s.procs[i].todo[s.procs[i].done].runId
  }

  function Holder(s: System, i: nat): nat
    requires i < |s.procs| && Waiting(s, i)
  {
    s.locks[Wanted(s, i)]
  }

  /** Whoever waits for a waiting reconciler wants a smaller run id than it does. */
  lemma WaitsClimb(rows: Table, attempts: seq<Attempt>, s: System, i: nat)
    requires Reachable(rows, attempts, s) && Loaded(attempts) && i < |s.procs| && Waiting(s, i)
    ensures Holder(s, i) < |s.procs| && s.procs[Holder(s, i)].ending.Active?
    ensures Waiting(s, Holder(s, i)) ==> Less(Wanted(s, i), Wanted(s, Holder(s, i)))
  {
    var j := Holder(s, i);
    if Waiting(s, j) {
      var p := s.procs[j];
      var n :| 0 <= n < HeldCount(p) && n < |p.todo| && p.todo[n].runId == Wanted(s, i);
      assert Distinct(RunIds(attempts[j].runs));
      SortedManifest(attempts[j].runs);
    }
  }

  ghost predicate WaitRing(s: System, ring: seq<nat>) {
    && ring != []
    && (forall n :: 0 <= n < |ring| ==> ring[n] < |s.procs| && Waiting(s, ring[n]))
    && (forall n :: 0 <= n < |ring| - 1 ==> Holder(s, ring[n]) == ring[n + 1])
    && Holder(s, ring[|ring| - 1]) == ring[0]
  }

  lemma {:induction false} RingClimbs(rows: Table, attempts: seq<Attempt>, s: System, ring: seq<nat>, n: nat)
    requires Reachable(rows, attempts, s) && Loaded(attempts) && WaitRing(s, ring) && n < |ring|
    ensures n > 0 ==> Less(Wanted(s, ring[0]), Wanted(s, ring[n]))
  {
    if n > 0 {
      RingClimbs(rows, attempts, s, ring, n - 1);
      assert Holder(s, ring[n - 1]) == ring[n - 1 + 1];
      WaitsClimb(rows, attempts, s, ring[n - 1]);
      if n > 1 {
        LessTransitive(Wanted(s, ring[0]), Wanted(s, ring[n - 1]), Wanted(s, ring[n]));
      }
    }
  }

  /** No cycle of reconcilers each waiting for the next is ever reached. */
  lemma NoWaitCycle(rows: Table, attempts: seq<Attempt>, s: System, ring: seq<nat>)
    requires Reachable(rows, attempts, s) && Loaded(attempts)
    ensures !WaitRing(s, ring)
  {
    hide Reachable, Less;
    if WaitRing(s, ring) {
      RingClimbs(rows, attempts, s, ring, |ring| - 1);
      WaitsClimb(rows, attempts, s, ring[|ring| - 1]);
      LessIsTotalOrder();
    }
  }

  function Above(s: System, k: string): set<string> {
    set x | x in s.locks && Less(k, x)
  }

  /** Following holders from any unfinished reconciler ends at one that can step. */
  lemma {:induction false} FollowHolders(rows: Table, attempts: seq<Attempt>, s: System, i: nat) returns (j: nat)
    requires Reachable(rows, attempts, s) && Loaded(attempts) && i < |s.procs| && s.procs[i].ending.Active?
    ensures CanStep(s, j)
    decreases if Waiting(s, i) then |Above(s, Wanted(s, i))| + 1 else 0
  {
    j := i;
    if Waiting(s, i) {
      WaitsClimb(rows, attempts, s, i);
      var h := Holder(s, i);
      if Waiting(s, h) {
        LessIsTotalOrder();
        var low, high := Above(s, Wanted(s, i)), Above(s, Wanted(s, h));
        assert high <= low && Wanted(s, h) in low && Wanted(s, h) !in high;
        assert high <= low - {Wanted(s, h)};
        SubsetSize(high, low - {Wanted(s, h)});
      }
      j := FollowHolders(rows, attempts, s, h);
    }
  }

  /** While any reconciler is unfinished, one of them can take its next step. */
  lemma NoDeadlock(rows: Table, attempts: seq<Attempt>, s: System)
    requires Reachable(rows, attempts, s) && Loaded(attempts)
    requires exists i :: 0 <= i < |s.procs| && s.procs[i].ending.Active?
    ensures exists j :: CanStep(s, j)
  {
    var i :| 0 <= i < |s.procs| && s.procs[i].ending.Active?;
    var j := FollowHolders(rows, attempts, s, i);
  }

  function TotalWork(procs: seq<Reconciler>): nat {
    if procs == [] then 0 else Work(procs[0]) + TotalWork(procs[1..])
  }

  lemma {:induction false} LessWork(procs: seq<Reconciler>, i: nat, p: Reconciler)
    requires i < |procs| && Work(p) < Work(procs[i])
    ensures TotalWork(procs[i := p]) < TotalWork(procs)
  {
    if i == 0 {
      assert procs[i := p][1..] == procs[1..];
    } else {
      LessWork(procs[1..], i - 1, p);
      assert procs[i := p][1..] == procs[1..][i - 1 := p];
    }
  }

  /** Every step uses up work. */
  lemma StepsRunOut(rows: Table, attempts: seq<Attempt>, s: System, t: System, i: nat)
    requires Reachable(rows, attempts, s) && Next(s, t, i)
    ensures TotalWork(t.procs) < TotalWork(s.procs)
  {
    assert ProcSound(s, i) && ProgressSound(s.rows, s.procs[i]);
    if t != Rollback(s, i) {
      AdvanceShape(s, i);
    }
    assert t.procs == s.procs[i := t.procs[i]];
    LessWork(s.procs, i, t.procs[i]);
  }

  lemma {:induction false} WorkUsedUp(
    rows: Table, attempts: seq<Attempt>, states: seq<System>, who: seq<nat>, n: nat)
    requires Execution(rows, attempts, states, who) && n < |states|
    ensures TotalWork(states[n].procs) + n <= TotalWork(states[0].procs)
  {
    hide TotalWork, Reachable, Next;
    if n > 0 {
      WorkUsedUp(rows, attempts, states, who, n - 1);
      ExecutionsAreSerial(rows, attempts, states, who, n - 1);
      assert Next(states[n - 1], states[n - 1 + 1], who[n - 1]);
      StepsRunOut(rows, attempts, states[n - 1], states[n], who[n - 1]);
    }
  }

  /**
   * Every execution ends: it has at most as many steps as there was work at the start, and where nobody can step
   * nobody is unfinished.
   */
  lemma ExecutionsEnd(rows: Table, attempts: seq<Attempt>, states: seq<System>, who: seq<nat>)
    requires Execution(rows, attempts, states, who) && Loaded(attempts)
    ensures |who| <= TotalWork(states[0].procs)
    ensures var last := states[|who|];
            (forall j: nat :: !CanStep(last, j)) <==>
            (forall i :: 0 <= i < |last.procs| ==> !last.procs[i].ending.Active?)
  {
    hide TotalWork, Reachable;
    WorkUsedUp(rows, attempts, states, who, |who|);
    ExecutionsAreSerial(rows, attempts, states, who, |who|);
    var last := states[|who|];
    if i :| 0 <= i < |last.procs| && last.procs[i].ending.Active? {
      NoDeadlock(rows, attempts, last);
    }
  }
}
