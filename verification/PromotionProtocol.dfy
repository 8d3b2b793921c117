/**
 * Any number of promoters, of the same or of different releases, interleaved request by request: prepare, upload
 * of the intent artifact, confirm, promote, final verification. Any of them may fail or crash after any request.
 */
module PromotionProtocol {
  import opened Promotion
  import opened PromotionRegistry

  /** The next request. The number in a phase is the position in the promoter's plan. */
  datatype Phase =
    | Load | Scan(k: nat) | Upload | Confirm
    | Look(k: nat) | Put(k: nat) | Check(k: nat) | Final(k: nat)
    | Returned | Failed

  /** A promoter and the intent it computed from its verified receipts. */
  datatype Promoter = Promoter(runId: int, intent: Intent, plan: seq<Binding>, phase: Phase)

  datatype PutLog = PutLog(binding: Binding, who: nat)

  /** artifacts lists, per workflow run, the intent artifacts uploaded so far; puts lists the PUTs that bound. */
  datatype System = System(
    refs: Refs, artifacts: map<int, seq<Intent>>, promoters: seq<Promoter>, puts: seq<PutLog>)

  function Artifacts(s: System, runId: int): seq<Intent> {
    if runId in s.artifacts then s.artifacts[runId] else []
  }

  function Go(s: System, i: nat, phase: Phase): System
    requires i < |s.promoters|
  {
    s.(promoters := s.promoters[i := s.promoters[i].(phase := phase)])
  }

  predicate CanStep(s: System, i: nat) {
    i < |s.promoters| && !s.promoters[i].phase.Returned? && !s.promoters[i].phase.Failed?
  }

  predicate BoundAt(s: System, b: Binding) {
    b.ref in s.refs && s.refs[b.ref] == b.digest
  }

  /** The answer to promoter i's next request, and what it does with it. */
  function Step(s: System, i: nat): System
    requires CanStep(s, i)
  {
    var p := s.promoters[i];
    var sealed := Artifacts(s, p.runId);
    match p.phase
    case Load =>
      if sealed == [] then Go(s, i, Scan(0)) else Go(s, i, if sealed == [p.intent] then Confirm else Failed)
    case Scan(k) =>
      if k >= |p.plan| then Go(s, i, Upload) else Go(s, i, if p.plan[k].ref in s.refs then Failed else Scan(k + 1))
    case Upload => Go(s, i, Confirm).(artifacts := s.artifacts[p.runId := sealed + [p.intent]])
    case Confirm => Go(s, i, if sealed == [p.intent] then Look(0) else Failed)
    case Look(k) =>
      if k >= |p.plan| then Go(s, i, Final(0))
      else if p.plan[k].ref !in s.refs then Go(s, i, Put(k))
      else Go(s, i, if BoundAt(s, p.plan[k]) then Look(k + 1) else Failed)
    case Put(k) =>
      if k >= |p.plan| || p.plan[k].ref in s.refs then Go(s, i, Failed)
      else
        Go(s, i, Check(k)).(refs := s.refs[p.plan[k].ref := p.plan[k].digest],
                            puts := s.puts + [PutLog(p.plan[k], i)])
    case Check(k) => Go(s, i, if k < |p.plan| && BoundAt(s, p.plan[k]) then Look(k + 1) else Failed)
    case Final(k) =>
      if k >= |p.plan| then Go(s, i, Returned)
      else Go(s, i, if BoundAt(s, p.plan[k]) then Final(k + 1) else Failed)
  }

  ghost predicate Next(s: System, t: System, i: nat) {
    CanStep(s, i) && (t == Step(s, i) || t == Go(s, i, Failed))
  }

  ghost predicate Start(s: System) {
    s.artifacts == map[] && s.puts == [] && forall i :: 0 <= i < |s.promoters| ==> s.promoters[i].phase == Load
  }

  ghost predicate Execution(states: seq<System>, who: seq<nat>) {
    && |states| == |who| + 1 && Start(states[0])
    && forall n :: 0 <= n < |who| ==> Next(states[n], states[n + 1], who[n])
  }

  // ----- What every reachable state satisfies -----

  /** How much of its plan a promoter has seen bound. */
  function SeenBound(p: Promoter): nat {
    match p.phase
    case Look(k) => k
    case Put(k) => k
    case Check(k) => k + 1
    case Final(_) => |p.plan|
    case Returned => |p.plan|
    case _ => 0
  }

  predicate Promoting(p: Promoter) {
    p.phase.Look? || p.phase.Put? || p.phase.Check? || p.phase.Final? || p.phase.Returned?
  }

  ghost predicate PromoterSound(s: System, p: Promoter) {
    && SeenBound(p) <= |p.plan|
    && (forall k :: 0 <= k < SeenBound(p) ==> BoundAt(s, p.plan[k]))
    && (Promoting(p) ==> Artifacts(s, p.runId) != [] && Artifacts(s, p.runId)[0] == p.intent)
  }

  ghost predicate HoldsSealedIntent(s: System, who: nat) {
    && who < |s.promoters|
    && var sealed := Artifacts(s, s.promoters[who].runId); sealed != [] && sealed[0] == s.promoters[who].intent
  }

  /** Each PUT in the log bound a reference no one had bound, for a promoter whose intent is its run's sealed one. */
  ghost predicate PutSound(start: Refs, s: System, n: nat)
    requires n < |s.puts|
  {
    var b, who := s.puts[n].binding, s.puts[n].who;
    && b.ref !in start && BoundAt(s, b)
    && (forall m :: 0 <= m < n ==> s.puts[m].binding.ref != b.ref)
    && HoldsSealedIntent(s, who) && b in s.promoters[who].plan
  }

  ghost predicate Sound(start: Refs, s: System) {
    && (forall i :: 0 <= i < |s.promoters| ==> PromoterSound(s, s.promoters[i]))
    && (forall n :: 0 <= n < |s.puts| ==> PutSound(start, s, n))
    && (forall k :: k in start ==> k in s.refs && s.refs[k] == start[k])
    && forall k :: k in s.refs && k !in start ==> exists n :: 0 <= n < |s.puts| && s.puts[n].binding.ref == k
  }

  /** Nothing once bound or sealed is ever changed; promoters keep their intents. */
  ghost predicate Grows(s: System, t: System) {
    && (forall k :: k in s.refs ==> k in t.refs && t.refs[k] == s.refs[k])
    && (forall run :: Artifacts(s, run) <= Artifacts(t, run))
    && |t.promoters| == |s.promoters|
    && (forall i :: 0 <= i < |s.promoters| ==> t.promoters[i].(phase := Load) == s.promoters[i].(phase := Load))
    && s.puts <= t.puts
  }

  lemma StepGrows(s: System, t: System, i: nat)
    requires Next(s, t, i)
    ensures Grows(s, t)
    ensures forall j :: 0 <= j < |s.promoters| && j != i ==> t.promoters[j] == s.promoters[j]
  {
    match s.promoters[i].phase
    case Load =>
    case Scan(_) =>
    case Upload =>
    case Confirm =>
    case Look(_) =>
    case Put(_) =>
    case Check(_) =>
    case Final(_) =>
  }

  lemma PromoterStaysSound(s: System, t: System, p: Promoter)
    requires PromoterSound(s, p) && Grows(s, t)
    ensures PromoterSound(t, p)
  {
    assert Artifacts(s, p.runId) <= Artifacts(t, p.runId);
  }

  lemma OwnStepSound(start: Refs, s: System, t: System, i: nat)
    requires Next(s, t, i) && PromoterSound(s, s.promoters[i])
    ensures PromoterSound(t, t.promoters[i])
  {
    var p, q := s.promoters[i], t.promoters[i];
    StepGrows(s, t, i);
    PromoterStaysSound(s, t, p);
    forall k | 0 <= k < SeenBound(q) ensures BoundAt(t, q.plan[k]) {
      if k < SeenBound(p) {
        assert BoundAt(s, p.plan[k]);
      }
    }
  }

  lemma PutsStaySound(start: Refs, s: System, t: System, n: nat)
    requires n < |s.puts| && PutSound(start, s, n) && Grows(s, t)
    ensures PutSound(start, t, n)
  {
    var who := s.puts[n].who;
    assert t.puts[n] == s.puts[n];
    assert forall m :: 0 <= m < n ==> t.puts[m] == s.puts[m];
    assert Artifacts(s, s.promoters[who].runId) <= Artifacts(t, s.promoters[who].runId);
    assert t.promoters[who].(phase := Load) == s.promoters[who].(phase := Load);
  }

  lemma NewPutSound(start: Refs, s: System, t: System, i: nat)
    requires Sound(start, s) && CanStep(s, i) && t == Step(s, i) && t.puts != s.puts
    ensures |t.puts| == |s.puts| + 1 && PutSound(start, t, |s.puts|)
  {
    var b := t.puts[|s.puts|].binding;
    assert b in s.promoters[i].plan;
    assert PromoterSound(s, s.promoters[i]);
    forall m | 0 <= m < |s.puts| ensures s.puts[m].binding.ref != b.ref {
      assert PutSound(start, s, m);
    }
  }

  lemma StepKeepsSound(start: Refs, s: System, t: System, i: nat)
    requires Sound(start, s) && Next(s, t, i)
    ensures Sound(start, t)
  {
    StepGrows(s, t, i);
    forall j | 0 <= j < |t.promoters| ensures PromoterSound(t, t.promoters[j]) {
      if j == i {
        OwnStepSound(start, s, t, i);
      } else {
        PromoterStaysSound(s, t, s.promoters[j]);
      }
    }
    forall n | 0 <= n < |t.puts| ensures PutSound(start, t, n) {
      if n < |s.puts| {
        PutsStaySound(start, s, t, n);
      } else {
        NewPutSound(start, s, t, i);
      }
    }
    forall k | k in t.refs && k !in start ensures exists n :: 0 <= n < |t.puts| && t.puts[n].binding.ref == k {
      if k in s.refs {
        var n :| 0 <= n < |s.puts| && s.puts[n].binding.ref == k;
        assert t.puts[n].binding.ref == k;
      } else {
        assert t.puts[|s.puts|].binding.ref == k;
      }
    }
  }

  lemma {:induction false} ExecutionsAreSound(states: seq<System>, who: seq<nat>, n: nat)
    requires Execution(states, who) && n < |states|
    ensures Sound(states[0].refs, states[n])
  {
    if n > 0 {
      ExecutionsAreSound(states, who, n - 1);
      assert Next(states[n - 1], states[n - 1 + 1], who[n - 1]);
      StepKeepsSound(states[0].refs, states[n - 1], states[n], who[n - 1]);
    }
  }

  lemma {:induction false} ExecutionsGrow(states: seq<System>, who: seq<nat>, m: nat, n: nat)
    requires Execution(states, who) && m <= n < |states|
    ensures Grows(states[m], states[n])
  {
    hide Step;
    if m < n {
      ExecutionsGrow(states, who, m, n - 1);
      assert Next(states[n - 1], states[n - 1 + 1], who[n - 1]);
      StepGrows(states[n - 1], states[n], who[n - 1]);
      GrowsTransitive(states[m], states[n - 1], states[n]);
    }
  }

  lemma GrowsTransitive(a: System, b: System, c: System)
    requires Grows(a, b) && Grows(b, c)
    ensures Grows(a, c)
  {
    forall run ensures Artifacts(a, run) <= Artifacts(c, run) {
      assert Artifacts(a, run) <= Artifacts(b, run) <= Artifacts(c, run);
    }
    forall i | 0 <= i < |a.promoters| ensures c.promoters[i].(phase := Load) == a.promoters[i].(phase := Load) {
      assert b.promoters[i].(phase := Load) == a.promoters[i].(phase := Load);
    }
  }

  // ----- The guarantees -----

  /**
   * Over every execution a reference is bound at most once and never changed: it keeps its starting digest, or the
   * one digest a single logged PUT gave it, whose promoter held the intent its run had sealed.
   */
  lemma BoundOnceForever(states: seq<System>, who: seq<nat>, m: nat, n: nat, k: Reference)
    requires Execution(states, who) && m <= n < |states| && k in states[m].refs
    ensures k in states[n].refs && states[n].refs[k] == states[m].refs[k]
    ensures k in states[0].refs ==> states[m].refs[k] == states[0].refs[k]
    ensures k !in states[0].refs ==>
              exists a :: 0 <= a < |states[m].puts| && states[m].puts[a].binding == Binding(k, states[m].refs[k])
                          && HoldsSealedIntent(states[m], states[m].puts[a].who)
                          && states[m].puts[a].binding in states[m].promoters[states[m].puts[a].who].plan
    ensures forall a, b :: 0 <= a < b < |states[n].puts| ==>
              states[n].puts[a].binding.ref != states[n].puts[b].binding.ref
  {
    ExecutionsGrow(states, who, m, n);
    ExecutionsAreSound(states, who, m);
    ExecutionsAreSound(states, who, n);
    if k !in states[0].refs {
      var a :| 0 <= a < |states[m].puts| && states[m].puts[a].binding.ref == k;
      assert PutSound(states[0].refs, states[m], a);
    }
    forall a, b | 0 <= a < b < |states[n].puts|
      ensures states[n].puts[a].binding.ref != states[n].puts[b].binding.ref
    {
      assert PutSound(states[0].refs, states[n], b);
    }
  }

  /** From the moment a promoter returns, its whole plan is bound to its own digests. */
  lemma ReturnedIsBound(states: seq<System>, who: seq<nat>, m: nat, n: nat, i: nat)
    requires Execution(states, who) && m <= n < |states|
    requires i < |states[m].promoters| && states[m].promoters[i].phase.Returned?
    ensures AllBound(states[n].refs, states[m].promoters[i].plan)
  {
    ExecutionsAreSound(states, who, m);
    ExecutionsGrow(states, who, m, n);
    var plan := states[m].promoters[i].plan;
    assert PromoterSound(states[m], states[m].promoters[i]);
    forall k | 0 <= k < |plan| ensures plan[k].ref in states[n].refs && states[n].refs[plan[k].ref] == plan[k].digest {
      assert BoundAt(states[m], plan[k]);
    }
  }

  /** Promoters whose plans disagree on a shared reference never both return. */
  lemma DisagreeingPromotersNeverBothReturn(
    states: seq<System>, who: seq<nat>, n: nat, i: nat, j: nat, k: nat, l: nat)
    requires Execution(states, who) && n < |states| && i < |states[n].promoters| && j < |states[n].promoters|
    requires var p, q := states[n].promoters[i], states[n].promoters[j];
             k < |p.plan| && l < |q.plan| && p.plan[k].ref == q.plan[l].ref && p.plan[k].digest != q.plan[l].digest
    ensures !(states[n].promoters[i].phase.Returned? && states[n].promoters[j].phase.Returned?)
  {
    var p, q := states[n].promoters[i], states[n].promoters[j];
    ExecutionsAreSound(states, who, n);
    assert PromoterSound(states[n], p) && PromoterSound(states[n], q);
    assert p.phase.Returned? ==> BoundAt(states[n], p.plan[k]);
    assert q.phase.Returned? ==> BoundAt(states[n], q.plan[l]);
  }

  /** Promoter i has confirmed its intent, or has bound something. */
  ghost predicate Acted(s: System, i: nat)
    requires i < |s.promoters|
  {
    Promoting(s.promoters[i]) || exists n :: 0 <= n < |s.puts| && s.puts[n].who == i
  }

  lemma ActorsHoldTheSealedIntent(start: Refs, s: System, i: nat)
    requires Sound(start, s) && i < |s.promoters| && Acted(s, i)
    ensures HoldsSealedIntent(s, i)
  {
    assert PromoterSound(s, s.promoters[i]);
    if !Promoting(s.promoters[i]) {
      var n :| 0 <= n < |s.puts| && s.puts[n].who == i;
      assert PutSound(start, s, n);
    }
  }

  /** Nothing is bound without a sealed intent, and all promoters of one run that go past it hold the same one. */
  lemma OneSealedIntentPerRun(states: seq<System>, who: seq<nat>, n: nat, i: nat, j: nat)
    requires Execution(states, who) && n < |states| && i < |states[n].promoters| && j < |states[n].promoters|
    requires states[n].promoters[i].runId == states[n].promoters[j].runId
    requires Acted(states[n], i) && Acted(states[n], j)
    ensures states[n].promoters[i].intent == states[n].promoters[j].intent
    ensures Artifacts(states[n], states[n].promoters[i].runId) != []
  {
    ExecutionsAreSound(states, who, n);
    ActorsHoldTheSealedIntent(states[0].refs, states[n], i);
    ActorsHoldTheSealedIntent(states[0].refs, states[n], j);
  }

  // ----- A promoter left alone -----

  function Rank(p: Promoter): nat {
    match p.phase
    case Look(k) => if k > |p.plan| then |p.plan| + 3 else 3 * (|p.plan| - k) + |p.plan| + 3
    case Put(k) => if k >= |p.plan| then 1 else 3 * (|p.plan| - k) + |p.plan| + 2
    case Check(k) => if k >= |p.plan| then 1 else 3 * (|p.plan| - k) + |p.plan| + 1
    case Final(k) => if k > |p.plan| then 1 else |p.plan| - k + 2
    case _ => 0
  }

  lemma RankFalls(s: System, i: nat)
    requires CanStep(s, i) && Promoting(s.promoters[i])
    ensures Rank(Step(s, i).promoters[i]) < Rank(s.promoters[i])
  {
    match s.promoters[i].phase
    case Look(_) =>
    case Put(_) =>
    case Check(_) =>
    case Final(_) =>
  }

  /** Promoter i, past the confirmation, runs on alone to its end. */
  function Alone(s: System, i: nat): (t: System)
    requires i < |s.promoters|
    ensures |t.promoters| == |s.promoters|
    decreases Rank(s.promoters[i])
  {
    if !CanStep(s, i) || !Promoting(s.promoters[i]) then s
    else
      RankFalls(s, i);
      Alone(Step(s, i), i)
  }

  lemma {:induction false} AloneVerifies(s: System, i: nat, k: nat)
    requires i < |s.promoters| && s.promoters[i].phase == Final(k) && k <= |s.promoters[i].plan|
    requires AllBound(s.refs, s.promoters[i].plan)
    ensures Alone(s, i).promoters[i].phase == Returned && Alone(s, i).refs == s.refs && Alone(s, i).puts == s.puts
    decreases |s.promoters[i].plan| - k
  {
    if k < |s.promoters[i].plan| {
      AloneVerifies(Step(s, i), i, k + 1);
    } else {
      assert Alone(Step(s, i), i) == Step(s, i);
    }
  }

  /** The state once promoter i has dealt with binding k, which no one has bound otherwise. */
  function AfterBinding(s: System, i: nat, k: nat): System
    requires i < |s.promoters| && k < |s.promoters[i].plan|
  {
    var b := s.promoters[i].plan[k];
    var t := Go(s, i, Look(k + 1));
    if b.ref in s.refs then t else t.(refs := s.refs[b.ref := b.digest], puts := s.puts + [PutLog(b, i)])
  }

  lemma ThreeSteps(s: System, i: nat, k: nat)
    requires i < |s.promoters| && s.promoters[i].phase == Look(k) && k < |s.promoters[i].plan|
    requires s.promoters[i].plan[k].ref !in s.refs
    ensures CanStep(Step(s, i), i) && CanStep(Step(Step(s, i), i), i)
    ensures Step(Step(Step(s, i), i), i) == AfterBinding(s, i, k)
    ensures Step(s, i).promoters[i].phase.Put? && Step(Step(s, i), i).promoters[i].phase.Check?
  {
    var b := s.promoters[i].plan[k];
    var check := Step(Step(s, i), i);
    assert check == Go(s, i, Check(k)).(refs := s.refs[b.ref := b.digest], puts := s.puts + [PutLog(b, i)]);
    assert BoundAt(check, b);
    assert Go(check, i, Look(k + 1)).promoters == AfterBinding(s, i, k).promoters;
  }

  lemma AloneBinds(s: System, i: nat, k: nat)
    requires i < |s.promoters| && s.promoters[i].phase == Look(k) && k < |s.promoters[i].plan|
    requires var b := s.promoters[i].plan[k]; b.ref in s.refs ==> s.refs[b.ref] == b.digest
    ensures Alone(s, i) == Alone(AfterBinding(s, i, k), i)
  {
    if s.promoters[i].plan[k].ref !in s.refs {
      hide Step, AfterBinding;
      ThreeSteps(s, i, k);
      var put := Step(s, i);
      assert Alone(s, i) == Alone(put, i);
      assert Alone(put, i) == Alone(Step(put, i), i);
    }
  }

  /** A promoter that has bound a prefix of its plan and meets no conflict binds the rest when left alone. */
  lemma {:induction false} AloneCompletes(s: System, i: nat, start: Refs, k: nat)
    requires i < |s.promoters| && s.promoters[i].phase == Look(k) && k <= |s.promoters[i].plan|
    requires DistinctRefs(s.promoters[i].plan) && Agrees(start, s.promoters[i].plan)
    requires s.refs == Bind(start, s.promoters[i].plan[..k])
    ensures var plan, last := s.promoters[i].plan, Alone(s, i);
            && last.promoters[i].phase == Returned && last.refs == Bind(start, plan)
            && |last.puts| + Absent(start, plan[..k]) == |s.puts| + Absent(start, plan)
    decreases |s.promoters[i].plan| - k
  {
    hide Alone, Step, Bind, Absent, Agrees;
    var plan := s.promoters[i].plan;
    assert plan[..|plan|] == plan;
    if k < |plan| {
      NextBinding(start, plan, k);
      AloneBinds(s, i, k);
      AloneCompletes(AfterBinding(s, i, k), i, start, k + 1);
    } else {
      BoundIffAgreed(start, plan);
      AloneReachesFinal(s, i);
    }
  }

  lemma AloneReachesFinal(s: System, i: nat)
    requires i < |s.promoters| && s.promoters[i].phase == Look(|s.promoters[i].plan|)
    requires AllBound(s.refs, s.promoters[i].plan)
    ensures Alone(s, i).promoters[i].phase == Returned && Alone(s, i).refs == s.refs && Alone(s, i).puts == s.puts
  {
    AloneVerifies(Step(s, i), i, 0);
  }

  /** What a promoter leaves behind: the registry the sequential `promote` reaches, one PUT per absent reference. */
  ghost predicate Completed(s: System, t: System, i: nat)
    requires i < |s.promoters|
  {
    var plan := s.promoters[i].plan;
    && i < |t.promoters| && t.promoters[i].phase == Returned
    && t.refs == Bind(s.refs, plan) && AllBound(t.refs, plan)
    && |t.puts| == |s.puts| + Absent(s.refs, plan)
  }

  lemma {:induction false} NothingToBind(refs: Refs, plan: seq<Binding>)
    requires forall k :: 0 <= k < |plan| ==> plan[k].ref in refs
    ensures Bind(refs, plan) == refs && Absent(refs, plan) == 0
  {
    if plan != [] {
      var init := plan[..|plan| - 1];
      forall k | 0 <= k < |init| ensures init[k].ref in refs {
        assert init[k] == plan[k];
      }
      NothingToBind(refs, init);
    }
  }

  /**
   * In any state of any execution, a promoter about to look at a reference of its plan completes when left alone, if no
   * reference of the plan names something else.
   */
  lemma ReachedPromoterCompletes(states: seq<System>, who: seq<nat>, n: nat, i: nat, k: nat)
    requires Execution(states, who) && n < |states| && i < |states[n].promoters|
    requires var p := states[n].promoters[i];
             p.phase == Look(k) && DistinctRefs(p.plan) && Agrees(states[n].refs, p.plan)
    ensures Completed(states[n], Alone(states[n], i), i)
  {
    hide Execution, Alone, Agrees, AllBound, Bind, Absent;
    ExecutionsAreSound(states, who, n);
    LookingCompletes(states[n], i, k);
  }

  lemma LookingCompletes(s: System, i: nat, k: nat)
    requires i < |s.promoters| && PromoterSound(s, s.promoters[i])
    requires var p := s.promoters[i]; p.phase == Look(k) && DistinctRefs(p.plan) && Agrees(s.refs, p.plan)
    ensures Completed(s, Alone(s, i), i)
  {
    hide Alone, Agrees, AllBound, Bind, Absent;
    var plan := s.promoters[i].plan;
    forall m | 0 <= m < k ensures plan[..k][m].ref in s.refs {
      assert BoundAt(s, plan[m]);
    }
    NothingToBind(s.refs, plan[..k]);
    AloneCompletes(s, i, s.refs, k);
    BoundIffAgreed(s.refs, plan);
  }

  /** Promoter i loads the sealed intent and confirms it. */
  function Confirmed(s: System, i: nat): System
    requires i < |s.promoters|
  {
    Go(s, i, Look(0))
  }

  /**
   * A re-run after crashes: a fresh promoter of a run whose sealed intent is its own takes two requests to confirm it
   * and then completes when left alone, PUTting exactly the references still absent.
   */
  lemma RerunCompletes(s: System, i: nat)
    requires i < |s.promoters| && s.promoters[i].phase == Load
    requires Artifacts(s, s.promoters[i].runId) == [s.promoters[i].intent]
    requires DistinctRefs(s.promoters[i].plan) && Agrees(s.refs, s.promoters[i].plan)
    ensures CanStep(s, i) && CanStep(Step(s, i), i) && Step(Step(s, i), i) == Confirmed(s, i)
    ensures Completed(s, Alone(Confirmed(s, i), i), i)
  {
    assert Step(s, i) == Go(s, i, Confirm);
    assert Go(Go(s, i, Confirm), i, Look(0)).promoters == Confirmed(s, i).promoters;
    hide Alone, Step, Agrees, AllBound, Bind, Absent;
    LookingCompletes(Confirmed(s, i), i, 0);
  }
}
