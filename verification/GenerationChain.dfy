/** Concurrent writers of the GCS store: uploads and copies guarded by generation preconditions. */
module GenerationChain {
  import opened Wrappers
  import opened Lakehouse

  datatype Blob = Blob(generation: nat, stored: StoredObject)

  type Blobs = map<string, Blob>

  /** 0 when the key is absent, as the precondition counts it. */
  function Current(blobs: Blobs, key: string): nat {
    if key in blobs then blobs[key].generation else 0
  }

  /** expected is the numeric generation of a non-empty expected_version. */
  datatype Op =
    | Put(key: string, stored: StoredObject, expected: Option<int>, overwrite: bool)
    | Copy(source: string, key: string, expected: Option<int>, overwrite: bool)
    | Delete(key: string, expected: Option<int>)

  /** `_generation`: the generation the write requires; None writes over anything. */
  function Guard(op: Op): Option<int> {
    if op.expected.Some? then op.expected
    else if op.Delete? || op.overwrite then None
    else Some(0)
  }

  predicate Allows(guard: Option<int>, generation: nat) {
    guard.None? || guard.value == generation
  }

  datatype Outcome = Done(generation: nat) | Rejected | Unknown

  datatype Phase = Start | Checked | Statted | Ended(outcome: Outcome)

  datatype Client = Client(op: Op, phase: Phase)

  /** A change of the store; generation 0 for a deletion. */
  datatype Event = Event(client: nat, key: string, guard: Option<int>, generation: nat)

  datatype System = System(blobs: Blobs, clock: nat, clients: seq<Client>, log: seq<Event>)

  function At(s: System, i: nat, phase: Phase): System
    requires i < |s.clients|
  {
    s.(clients := s.clients[i := s.clients[i].(phase := phase)])
  }

  /** The store takes a write: a new generation, higher than every earlier one. */
  function Write(s: System, i: nat, stored: StoredObject, outcome: Outcome): System
    requires i < |s.clients|
  {
    var op, now := s.clients[i].op, s.clock + 1;
    At(s.(blobs := s.blobs[op.key := Blob(now, stored)], clock := now,
          log := s.log + [Event(i, op.key, Guard(op), now)]), i, Ended(outcome))
  }

  function Remove(s: System, i: nat, outcome: Outcome): System
    requires i < |s.clients|
  {
    var op := s.clients[i].op;
    At(s.(blobs := s.blobs - {op.key}, log := s.log + [Event(i, op.key, Guard(op), 0)]), i, Ended(outcome))
  }

  /** The existence check of a write that may not overwrite. */
  ghost predicate CheckStep(s: System, t: System, i: nat)
    requires i < |s.clients|
  {
    var c := s.clients[i];
    && c.phase.Start? && !c.op.Delete?
    && t == if !c.op.overwrite && c.op.key in s.blobs then At(s, i, Ended(Rejected)) else At(s, i, Checked)
  }

  /** `stat` of the source of a copy. */
  ghost predicate StatStep(s: System, t: System, i: nat)
    requires i < |s.clients|
  {
    var c := s.clients[i];
    && c.phase.Checked? && c.op.Copy?
    && t == if c.op.source in s.blobs then At(s, i, Statted) else At(s, i, Ended(Rejected))
  }

  /** The upload, or the copy of what the source then holds, under its precondition. */
  ghost predicate WriteStep(s: System, t: System, i: nat, outcome: Outcome)
    requires i < |s.clients|
  {
    var c := s.clients[i];
    && (if c.op.Put? then c.phase.Checked? else c.op.Copy? && c.phase.Statted?)
    && var possible := Allows(Guard(c.op), Current(s.blobs, c.op.key)) && (c.op.Copy? ==> c.op.source in s.blobs);
       if possible then
         && outcome in {Done(s.clock + 1), Unknown}
         && t == Write(s, i, if c.op.Put? then c.op.stored else s.blobs[c.op.source].stored, outcome)
       else outcome == Rejected && t == At(s, i, Ended(Rejected))
  }

  ghost predicate DeleteStep(s: System, t: System, i: nat, outcome: Outcome)
    requires i < |s.clients|
  {
    var c := s.clients[i];
    && c.op.Delete? && c.phase.Start?
    && if c.op.key in s.blobs && Allows(Guard(c.op), Current(s.blobs, c.op.key))
       then outcome in {Done(0), Unknown} && t == Remove(s, i, outcome)
       else outcome == Rejected && t == At(s, i, Ended(Rejected))
  }

  ghost predicate CrashStep(s: System, t: System, i: nat)
    requires i < |s.clients|
  {
    !s.clients[i].phase.Ended? && t == At(s, i, Ended(Unknown))
  }

  ghost predicate Step(s: System, t: System) {
    exists i: nat, outcome: Outcome :: StepOf(s, t, i, outcome)
  }

  ghost predicate StepOf(s: System, t: System, i: nat, outcome: Outcome) {
    && i < |s.clients|
    && (CheckStep(s, t, i) || StatStep(s, t, i) || WriteStep(s, t, i, outcome) || DeleteStep(s, t, i, outcome)
        || CrashStep(s, t, i))
  }

  ghost predicate Initial(s: System) {
    && s.log == [] && (forall i :: 0 <= i < |s.clients| ==> s.clients[i].phase.Start?)
    && forall k :: k in s.blobs ==> 0 < s.blobs[k].generation <= s.clock
  }

  ghost predicate Run(states: seq<System>) {
    && states != [] && Initial(states[0])
    && forall n :: 0 <= n < |states| - 1 ==> Step(states[n], states[n + 1])
  }

  // ----- What every step keeps -----

  /** The generation the key has after the logged events. */
  function LastGeneration(init: Blobs, log: seq<Event>, key: string): nat {
    if log == [] then Current(init, key)
    else if log[|log| - 1].key == key then log[|log| - 1].generation
    else LastGeneration(init, log[..|log| - 1], key)
  }

  ghost predicate StoreFollowsLog(init: Blobs, s: System) {
    forall k :: Current(s.blobs, k) == LastGeneration(init, s.log, k)
  }

  /** Every guarded event names the generation just before it. */
  ghost predicate GuardsName(init: Blobs, log: seq<Event>) {
    forall n :: 0 <= n < |log| && log[n].guard.Some? ==>
      log[n].guard.value == LastGeneration(init, log[..n], log[n].key)
  }

  /** A write's generation is above everything before it. */
  ghost predicate Rising(init: Blobs, log: seq<Event>, clock: nat) {
    && (forall n :: 0 <= n < |log| ==> log[n].generation <= clock)
    && (forall n, m :: 0 <= n < m < |log| && log[m].generation > 0 ==> log[n].generation < log[m].generation)
    && (forall k :: Current(init, k) <= clock)
    && forall k, m :: 0 <= m < |log| && log[m].generation > 0 ==> Current(init, k) < log[m].generation
  }

  /** A client that ended well is in the log, and no client is there twice. */
  ghost predicate Owned(s: System) {
    && (forall n :: 0 <= n < |s.log| ==>
          var e := s.log[n];
          && e.client < |s.clients| && s.clients[e.client].phase.Ended?
          && e.key == s.clients[e.client].op.key && e.guard == Guard(s.clients[e.client].op))
    && (forall n, m :: 0 <= n < m < |s.log| ==> s.log[n].client != s.log[m].client)
    && forall i: nat :: i < |s.clients| && s.clients[i].phase.Ended? && s.clients[i].phase.outcome.Done? ==>
         Logged(s, i, s.clients[i].phase.outcome.generation)
  }

  ghost predicate Logged(s: System, i: nat, generation: nat)
    requires i < |s.clients|
  {
    exists n :: 0 <= n < |s.log| && s.log[n].client == i && s.log[n].generation == generation
                && (s.clients[i].op.Delete? <==> generation == 0)
  }

  ghost predicate Inv(init: Blobs, s: System) {
    StoreFollowsLog(init, s) && GuardsName(init, s.log) && Rising(init, s.log, s.clock) && Owned(s)
  }

  lemma InitialInv(s: System)
    requires Initial(s)
    ensures Inv(s.blobs, s)
  {
  }

  /** A step changes at most one client and appends at most one event, which its guard allowed. */
  ghost predicate Appends(s: System, t: System, e: Event) {
    && t.log == s.log + [e] && t.clock >= s.clock
    && Allows(e.guard, Current(s.blobs, e.key))
    && (e.generation == 0 || (e.generation == t.clock && t.clock > s.clock))
    && forall k :: Current(t.blobs, k) == if k == e.key then e.generation else Current(s.blobs, k)
  }

  lemma EventStep(init: Blobs, s: System, t: System, e: Event)
    requires StoreFollowsLog(init, s) && GuardsName(init, s.log) && Rising(init, s.log, s.clock) && Appends(s, t, e)
    ensures StoreFollowsLog(init, t) && GuardsName(init, t.log) && Rising(init, t.log, t.clock)
  {
    assert t.log[..|s.log|] == s.log;
    forall n | 0 <= n < |s.log| ensures t.log[..n] == s.log[..n] && t.log[n] == s.log[n] {
    }
    assert t.log[|s.log|] == e;
    assert e.guard.Some? ==> e.guard.value == LastGeneration(init, s.log, e.key);
  }

  lemma OwnedStep(s: System, t: System, i: nat, phase: Phase)
    requires Owned(s) && i < |s.clients| && !s.clients[i].phase.Ended?
    requires t.clients == s.clients[i := s.clients[i].(phase := phase)]
    requires || (t.log == s.log && (phase.Ended? ==> !phase.outcome.Done?))
             || (exists e :: t.log == s.log + [e] && e.client == i && phase.Ended?
                             && e.key == s.clients[i].op.key && e.guard == Guard(s.clients[i].op)
                             && (phase.outcome.Done? ==> e.generation == phase.outcome.generation)
                             && (s.clients[i].op.Delete? <==> e.generation == 0))
    ensures Owned(t)
  {
    assert forall n :: 0 <= n < |s.log| ==> t.log[n] == s.log[n] && s.log[n].client != i;
    forall j: nat | j < |t.clients| && t.clients[j].phase.Ended? && t.clients[j].phase.outcome.Done?
      ensures Logged(t, j, t.clients[j].phase.outcome.generation)
    {
      if j != i {
        assert Logged(s, j, s.clients[j].phase.outcome.generation);
      } else {
        assert t.log[|s.log|].client == i;
      }
    }
  }

  lemma StepKeepsInv(init: Blobs, s: System, t: System, i: nat, outcome: Outcome)
    requires Inv(init, s) && StepOf(s, t, i, outcome)
    ensures Inv(init, t)
  {
    hide StoreFollowsLog, GuardsName, Rising, Owned;
    var op := s.clients[i].op;
    if t.log == s.log {
      SameStore(init, s, t);
      OwnedStep(s, t, i, t.clients[i].phase);
    } else {
      var e := t.log[|s.log|];
      assert t.log == s.log + [e];
      assert Appends(s, t, e);
      EventStep(init, s, t, e);
      OwnedStep(s, t, i, t.clients[i].phase);
    }
  }

  lemma SameStore(init: Blobs, s: System, t: System)
    requires StoreFollowsLog(init, s) && s.blobs == t.blobs && s.log == t.log
    ensures StoreFollowsLog(init, t)
  {
  }

  lemma {:induction false} RunKeepsInv(states: seq<System>)
    requires Run(states)
    ensures Inv(states[0].blobs, states[|states| - 1])
  {
    hide Inv, Initial, Step;
    if |states| == 1 {
      InitialInv(states[0]);
    } else {
      var init := states[..|states| - 1];
      forall n | 0 <= n < |init| - 1 ensures Step(init[n], init[n + 1]) {
        assert Step(states[n], states[n + 1]);
      }
      RunKeepsInv(init);
      var s, t := states[|states| - 2], states[|states| - 1];
      assert Step(states[|states| - 2], states[|states| - 2 + 1]);
      StepIs(s, t);
      var i: nat, outcome :| StepOf(s, t, i, outcome);
      StepKeepsInv(states[0].blobs, s, t, i, outcome);
    }
  }

  lemma StepIs(s: System, t: System)
    requires Step(s, t)
    ensures exists i: nat, outcome: Outcome :: StepOf(s, t, i, outcome)
  {
  }

  // ----- The chain of writes -----

  /**
   * In any run, each guarded change of a key names the generation the key had just before it: that of the last change
   * of the key before it, 0 if that was a deletion or there was nothing.
   */
  lemma WritesFormAChain(states: seq<System>, n: nat)
    requires Run(states)
    requires var log := states[|states| - 1].log; n < |log| && log[n].guard.Some?
    ensures var log := states[|states| - 1].log;
            log[n].guard.value == LastGeneration(states[0].blobs, log[..n], log[n].key)
  {
    RunKeepsInv(states);
  }

  lemma {:induction false} LastEvent(init: Blobs, log: seq<Event>, n: nat, m: nat)
    requires n < m <= |log|
    ensures exists j :: n <= j < m && log[j].key == log[n].key
                        && LastGeneration(init, log[..m], log[n].key) == log[j].generation
  {
    assert log[..m][..m - 1] == log[..m - 1];
    if log[m - 1].key != log[n].key {
      LastEvent(init, log, n, m - 1);
    }
  }

  lemma {:induction false} EarlierGeneration(init: Blobs, log: seq<Event>, clock: nat, key: string, n: nat, j: nat)
    requires Rising(init, log, clock) && n <= j < |log| && log[j].generation > 0
    ensures LastGeneration(init, log[..n], key) < log[j].generation
  {
    if n > 0 {
      assert log[..n][..n - 1] == log[..n - 1];
      EarlierGeneration(init, log, clock, key, n - 1, j);
    }
  }

  /** The key is deleted somewhere in the log between the two events. */
  ghost predicate RemovedBetween(log: seq<Event>, key: string, n: nat, m: nat) {
    exists j :: n < j < m && j < |log| && log[j].key == key && log[j].generation == 0
  }

  /** Two writes of a key never name the same generation, unless both create it and it was deleted in between. */
  lemma NoLostUpdate(states: seq<System>, n: nat, m: nat)
    requires Run(states)
    requires var log := states[|states| - 1].log;
             && n < m < |log| && log[n].key == log[m].key && log[n].generation > 0
             && log[n].guard.Some? && log[n].guard == log[m].guard
    ensures var log := states[|states| - 1].log;
            log[n].guard == Some(0) && RemovedBetween(log, log[n].key, n, m)
  {
    hide Step, StoreFollowsLog, Owned;
    RunKeepsInv(states);
    var init, s := states[0].blobs, states[|states| - 1];
    LastEvent(init, s.log, n, m);
    var j :| n <= j < m && s.log[j].key == s.log[n].key
             && LastGeneration(init, s.log[..m], s.log[n].key) == s.log[j].generation;
    if s.log[j].generation > 0 {
      EarlierGeneration(init, s.log, s.clock, s.log[n].key, n, j);
    }
  }

  /**
   * Of two clients that write the same key and name the same generation, at most one is ever told that it succeeded;
   * if both create the key, as long as it is not deleted.
   */
  lemma OneWinner(states: seq<System>, a: nat, b: nat)
    requires Run(states)
    requires var s := states[|states| - 1];
             && a < |s.clients| && b < |s.clients| && a != b
             && s.clients[a].op.key == s.clients[b].op.key
             && !s.clients[a].op.Delete? && !s.clients[b].op.Delete?
             && Guard(s.clients[a].op).Some? && Guard(s.clients[a].op) == Guard(s.clients[b].op)
             && (Guard(s.clients[a].op) == Some(0) ==>
                   forall j :: 0 <= j < |s.log| && s.log[j].key == s.clients[a].op.key ==> s.log[j].generation > 0)
    ensures var s := states[|states| - 1];
            !(Won(s.clients[a]) && Won(s.clients[b]))
  {
    hide Step, StoreFollowsLog, GuardsName, Rising;
    RunKeepsInv(states);
    var s := states[|states| - 1];
    if Won(s.clients[a]) && Won(s.clients[b]) {
      var n :| 0 <= n < |s.log| && s.log[n].client == a;
      var m :| 0 <= m < |s.log| && s.log[m].client == b;
      if n < m {
        NoLostUpdate(states, n, m);
      } else {
        NoLostUpdate(states, m, n);
      }
    }
  }

  predicate Won(c: Client) {
    c.phase.Ended? && c.phase.outcome.Done?
  }

  /** Without a guard the law fails: two clients that write with overwrite and no version both succeed. */
  lemma UnguardedWritesBothWin(key: string, x: StoredObject, y: StoredObject) returns (states: seq<System>)
    ensures Run(states)
    ensures var s := states[|states| - 1];
            && |s.clients| == 2 && Won(s.clients[0]) && Won(s.clients[1])
            && s.clients[0].op == Put(key, x, None, true) && s.clients[1].op == Put(key, y, None, true)
            && key in s.blobs && s.blobs[key].stored == y
  {
    var s0 := System(map[], 0, [Client(Put(key, x, None, true), Start), Client(Put(key, y, None, true), Start)], []);
    var s1 := At(s0, 0, Checked);
    var s2 := At(s1, 1, Checked);
    var s3 := Write(s2, 0, x, Done(1));
    var s4 := Write(s3, 1, y, Done(2));
    assert StepOf(s0, s1, 0, Rejected) && StepOf(s1, s2, 1, Rejected);
    assert StepOf(s2, s3, 0, Done(1)) && StepOf(s3, s4, 1, Done(2));
    states := [s0, s1, s2, s3, s4];
  }
}
