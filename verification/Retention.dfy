/** Which bronze batches the retention script plans to delete. */
module Retention {
  import opened Text
  import opened Sorting
  import opened ObjectKeys

  datatype Batch = Batch(
    entity: string, tenant: string, workspace: string, loadDate: string, runId: string, requestHash: string,
    payloadHash: string, finalPrefix: string, manifestKey: string)

  datatype Reason = DebugBatch | DuplicateCompleteBatch

  datatype Candidate = Candidate(batch: Batch, reason: Reason)

  /** What makes two batches duplicates of each other. */
  datatype Key = Key(entity: string, tenant: string, workspace: string, requestHash: string, payloadHash: string)

  function KeyOf(b: Batch): Key {
    Key(b.entity, b.tenant, b.workspace, b.requestHash, b.payloadHash)
  }

  predicate Debug(b: Batch) {
    Contains(Lower(b.runId), "debug") || Contains(Lower(b.manifestKey), "debug")
  }

  /** The order of Python tuples of strings. */
  predicate TupleLess(a: seq<string>, b: seq<string>)
    requires |a| == |b|
  {
    a != [] && (Less(a[0], b[0]) || (a[0] == b[0] && TupleLess(a[1..], b[1..])))
  }

  predicate Earlier(a: Batch, b: Batch) {
    TupleLess([a.loadDate, a.runId, a.manifestKey], [b.loadDate, b.runId, b.manifestKey])
  }

  predicate ListedBefore(a: Candidate, b: Candidate) {
    TupleLess([a.batch.entity, a.batch.loadDate, a.batch.runId], [b.batch.entity, b.batch.loadDate, b.batch.runId])
  }

  // ----- Groups -----

  function Group(batches: seq<Batch>, key: Key): seq<Batch> {
    if batches == [] then []
    else
      var last := batches[|batches| - 1];
      Group(batches[..|batches| - 1], key) + if KeyOf(last) == key then [last] else []
  }

  /** A group from its earliest to its latest batch. */
  function Ranked(batches: seq<Batch>, key: Key): seq<Batch> {
    Sort(Group(batches, key), Earlier)
  }

  function Older(ranked: seq<Batch>, keep: nat): seq<Batch> {
    if |ranked| <= keep then [] else ranked[..|ranked| - keep]
  }

  function Latest(ranked: seq<Batch>, keep: nat): seq<Batch> {
    if |ranked| <= keep then ranked else ranked[|ranked| - keep..]
  }

  ghost predicate Planned(batches: seq<Batch>, keep: nat, prefix: string) {
    exists b :: b in batches && b.finalPrefix == prefix
                && (Debug(b) || b in Older(Ranked(batches, KeyOf(b)), keep))
  }

  lemma {:induction false} GroupMembers(batches: seq<Batch>, key: Key)
    ensures forall b :: b in Group(batches, key) <==> b in batches && KeyOf(b) == key
  {
    if batches != [] {
      GroupMembers(batches[..|batches| - 1], key);
      assert batches == batches[..|batches| - 1] + [batches[|batches| - 1]];
    }
  }

  lemma RankedMembers(batches: seq<Batch>, key: Key)
    ensures forall b :: b in Ranked(batches, key) <==> b in batches && KeyOf(b) == key
  {
    GroupMembers(batches, key);
    SortMembers(Group(batches, key), Earlier);
  }

  // ----- The plan -----

  function Prefixes(candidates: seq<Candidate>): set<string> {
    set c | c in candidates :: c.batch.finalPrefix
  }

  /** `candidates[prefix] = …`, which keeps the place of an earlier entry. */
  function Put(candidates: seq<Candidate>, c: Candidate): seq<Candidate> {
    if candidates == [] then [c]
    else if candidates[0].batch.finalPrefix == c.batch.finalPrefix then [c] + candidates[1..]
    else [candidates[0]] + Put(candidates[1..], c)
  }

  /** `candidates.setdefault(prefix, …)` */
  function SetDefault(candidates: seq<Candidate>, c: Candidate): seq<Candidate> {
    if c.batch.finalPrefix in Prefixes(candidates) then candidates else candidates + [c]
  }

  ghost predicate OnePerPrefix(candidates: seq<Candidate>) {
    forall i, j :: 0 <= i < j < |candidates| ==>
      candidates[i].batch.finalPrefix != candidates[j].batch.finalPrefix
  }

  lemma HeadApart(head: Candidate, rest: seq<Candidate>)
    requires OnePerPrefix(rest) && forall x :: x in rest ==> x.batch.finalPrefix != head.batch.finalPrefix
    ensures OnePerPrefix([head] + rest)
  {
  }

  lemma {:induction false} PutMembers(candidates: seq<Candidate>, c: Candidate)
    requires OnePerPrefix(candidates)
    ensures OnePerPrefix(Put(candidates, c))
    ensures forall x :: x in Put(candidates, c) <==>
              x == c || (x in candidates && x.batch.finalPrefix != c.batch.finalPrefix)
  {
    if candidates != [] {
      var head, rest := candidates[0], candidates[1..];
      assert candidates == [head] + rest;
      assert forall x :: x in rest ==> x.batch.finalPrefix != head.batch.finalPrefix;
      if head.batch.finalPrefix != c.batch.finalPrefix {
        PutMembers(rest, c);
        HeadApart(head, Put(rest, c));
        assert Put(candidates, c) == [head] + Put(rest, c);
      } else {
        HeadApart(c, rest);
      }
      hide Put, OnePerPrefix;
    }
  }

  /** Every candidate is a batch, for its reason; a debug batch takes precedence. */
  ghost predicate Justified(batches: seq<Batch>, keep: nat, c: Candidate) {
    && c.batch in batches
    && if c.reason.DebugBatch? then Debug(c.batch)
       else c.batch in Older(Ranked(batches, KeyOf(c.batch)), keep)
            && forall b :: b in batches && b.finalPrefix == c.batch.finalPrefix ==> !Debug(b)
  }

  ghost predicate DebugOf(batches: seq<Batch>, candidates: seq<Candidate>) {
    && OnePerPrefix(candidates)
    && (forall c :: c in candidates ==> c.batch in batches && Debug(c.batch) && c.reason.DebugBatch?)
    && forall b :: b in batches && Debug(b) ==> b.finalPrefix in Prefixes(candidates)
  }

  ghost predicate GroupsOf(batches: seq<Batch>, order: seq<Key>, grouped: map<Key, seq<Batch>>) {
    && (forall key :: key in order <==> key in grouped)
    && (forall key :: key in grouped ==> grouped[key] == Group(batches, key))
    && forall b :: b in batches ==> KeyOf(b) in grouped
  }

  /** The first loop of `plan_candidates`. */
  method Collect(batches: seq<Batch>)
    returns (candidates: seq<Candidate>, order: seq<Key>, grouped: map<Key, seq<Batch>>)
    ensures DebugOf(batches, candidates) && GroupsOf(batches, order, grouped)
  {
    candidates, order, grouped := [], [], map[];
    for i := 0 to |batches|
      invariant DebugOf(batches[..i], candidates)
      invariant GroupsOf(batches[..i], order, grouped)
    {
      hide DebugOf, GroupsOf, Debug, Put, KeyOf;
      var batch := batches[i];
      CollectOne(batches[..i], batch, candidates, order, grouped);
      assert batches[..i] + [batch] == batches[..i + 1];
      if Debug(batch) {
        candidates := Put(candidates, Candidate(batch, DebugBatch));
      }
      var key := KeyOf(batch);
      if key in grouped {
        grouped := grouped[key := grouped[key] + [batch]];
      } else {
        order, grouped := order + [key], grouped[key := [batch]];
      }
    }
    assert batches[..|batches|] == batches;
  }

  lemma CollectOne(
    batches: seq<Batch>, batch: Batch, candidates: seq<Candidate>, order: seq<Key>, grouped: map<Key, seq<Batch>>)
    requires DebugOf(batches, candidates) && GroupsOf(batches, order, grouped)
    ensures DebugOf(batches + [batch],
                    if Debug(batch) then Put(candidates, Candidate(batch, DebugBatch)) else candidates)
    ensures var key := KeyOf(batch);
            if key in grouped then GroupsOf(batches + [batch], order, grouped[key := grouped[key] + [batch]])
            else GroupsOf(batches + [batch], order + [key], grouped[key := [batch]])
  {
    CollectDebug(batches, batch, candidates);
    CollectGroup(batches, batch, order, grouped);
  }

  lemma CollectDebug(batches: seq<Batch>, batch: Batch, candidates: seq<Candidate>)
    requires DebugOf(batches, candidates)
    ensures DebugOf(batches + [batch],
                    if Debug(batch) then Put(candidates, Candidate(batch, DebugBatch)) else candidates)
  {
    hide Debug, Put;
    if Debug(batch) {
      var c := Candidate(batch, DebugBatch);
      PutMembers(candidates, c);
      forall b | b in batches + [batch] && Debug(b) ensures b.finalPrefix in Prefixes(Put(candidates, c)) {
        assert c in Put(candidates, c);
        if b in batches {
          var x :| x in candidates && x.batch.finalPrefix == b.finalPrefix;
          assert x in Put(candidates, c) || x.batch.finalPrefix == c.batch.finalPrefix;
        }
      }
    }
  }

  lemma CollectGroup(batches: seq<Batch>, batch: Batch, order: seq<Key>, grouped: map<Key, seq<Batch>>)
    requires GroupsOf(batches, order, grouped)
    ensures var key := KeyOf(batch);
            if key in grouped then GroupsOf(batches + [batch], order, grouped[key := grouped[key] + [batch]])
            else GroupsOf(batches + [batch], order + [key], grouped[key := [batch]])
  {
    hide Group, KeyOf;
    var all := batches + [batch];
    forall key
      ensures Group(all, key) == if KeyOf(batch) == key then Group(batches, key) + [batch] else Group(batches, key)
    {
      GroupAppend(batches, batch, key);
    }
    if KeyOf(batch) !in grouped {
      EmptyGroup(batches, KeyOf(batch));
    }
  }

  lemma GroupAppend(batches: seq<Batch>, batch: Batch, key: Key)
    ensures Group(batches + [batch], key)
         == if KeyOf(batch) == key then Group(batches, key) + [batch] else Group(batches, key)
  {
    assert (batches + [batch])[..|batches|] == batches;
  }

  lemma EmptyGroup(batches: seq<Batch>, key: Key)
    requires forall b :: b in batches ==> KeyOf(b) != key
    ensures Group(batches, key) == []
  {
    GroupMembers(batches, key);
    assert Group(batches, key) != [] ==> Group(batches, key)[0] in Group(batches, key);
  }

  /** Candidates so far: the debug batches and the older batches of the given groups. */
  ghost predicate PlanOf(
    batches: seq<Batch>, keep: nat, keys: seq<Key>, more: seq<Batch>, candidates: seq<Candidate>)
  {
    && OnePerPrefix(candidates) && (forall c :: c in candidates ==> Justified(batches, keep, c))
    && (forall b :: b in batches && Debug(b) ==> b.finalPrefix in Prefixes(candidates))
    && (forall key, b :: key in keys && b in Older(Ranked(batches, key), keep) ==>
          b.finalPrefix in Prefixes(candidates))
    && forall b :: b in more ==> b.finalPrefix in Prefixes(candidates)
  }

  /** `plan_candidates` */
  method PlanCandidates(batches: seq<Batch>, keepLatest: int) returns (plan: seq<Candidate>)
    ensures var keep := if keepLatest < 1 then 1 else keepLatest;
            && (forall prefix :: prefix in Prefixes(plan) <==> Planned(batches, keep, prefix))
            && OnePerPrefix(plan) && (forall c :: c in plan ==> Justified(batches, keep, c))
            && Ordered(plan, ListedBefore)
  {
    hide PlanOf, Group, Older, KeyOf, Justified, ListedBefore, Planned, OnePerPrefix, DebugOf, Earlier, Prefixes;
    var candidates, order, grouped := Collect(batches);
    var keep: nat := if keepLatest < 1 then 1 else keepLatest;
    StartPlan(batches, keep, candidates);
    for g := 0 to |order|
      invariant PlanOf(batches, keep, order[..g], [], candidates)
    {
      assert order[g] in order;
      var ranked := Sort(grouped[order[g]], Earlier);
      var older := Older(ranked, keep);
      assert ranked == Ranked(batches, order[g]);
      assert older[..0] == [];
      for i := 0 to |older|
        invariant PlanOf(batches, keep, order[..g], older[..i], candidates)
      {
        PlanOne(batches, keep, order[..g], order[g], i, candidates);
        candidates := SetDefault(candidates, Candidate(older[i], DuplicateCompleteBatch));
      }
      assert older[..|older|] == older;
      GroupPlanned(batches, keep, order[..g], order[g], candidates);
      assert order[..g] + [order[g]] == order[..g + 1];
    }
    assert order[..|order|] == order;
    PlanIsPlanned(batches, keep, order, grouped, candidates);
    PlanIsJustified(batches, keep, order, candidates);
    plan := Sort(candidates, ListedBefore);
    SortedPlan(batches, keep, candidates);
  }

  lemma PlanIsJustified(batches: seq<Batch>, keep: nat, order: seq<Key>, candidates: seq<Candidate>)
    requires PlanOf(batches, keep, order, [], candidates)
    ensures OnePerPrefix(candidates) && forall c :: c in candidates ==> Justified(batches, keep, c)
  {
  }

  lemma StartPlan(batches: seq<Batch>, keep: nat, candidates: seq<Candidate>)
    requires DebugOf(batches, candidates)
    ensures PlanOf(batches, keep, [], [], candidates)
  {
    hide Debug;
  }

  lemma PlanOne(batches: seq<Batch>, keep: nat, keys: seq<Key>, key: Key, i: nat, candidates: seq<Candidate>)
    requires var older := Older(Ranked(batches, key), keep);
             i < |older| && PlanOf(batches, keep, keys, older[..i], candidates)
    ensures var older := Older(Ranked(batches, key), keep);
            PlanOf(batches, keep, keys, older[..i + 1],
                   SetDefault(candidates, Candidate(older[i], DuplicateCompleteBatch)))
  {
    hide Debug, Ranked, Older, KeyOf;
    var older := Older(Ranked(batches, key), keep);
    var c := Candidate(older[i], DuplicateCompleteBatch);
    var after := SetDefault(candidates, c);
    OlderMembers(batches, key, keep);
    assert older[i] in older;
    assert older[..i + 1] == older[..i] + [older[i]];
    assert c.batch.finalPrefix in Prefixes(after) by {
      assert c.batch.finalPrefix in Prefixes(candidates) || c in after;
    }
    assert Prefixes(candidates) <= Prefixes(after) by {
      assert forall x :: x in candidates ==> x in after;
    }
    if c.batch.finalPrefix !in Prefixes(candidates) {
      assert Justified(batches, keep, c);
      assert forall x :: x in candidates ==> x.batch.finalPrefix != c.batch.finalPrefix;
    }
  }

  lemma OlderMembers(batches: seq<Batch>, key: Key, keep: nat)
    ensures forall b :: b in Older(Ranked(batches, key), keep) ==> b in batches && KeyOf(b) == key
  {
    RankedMembers(batches, key);
  }

  lemma GroupPlanned(batches: seq<Batch>, keep: nat, keys: seq<Key>, key: Key, candidates: seq<Candidate>)
    requires PlanOf(batches, keep, keys, Older(Ranked(batches, key), keep), candidates)
    ensures PlanOf(batches, keep, keys + [key], [], candidates)
  {
    hide Debug, Ranked, Older, Justified;
  }

  lemma PlanIsPlanned(
    batches: seq<Batch>, keep: nat, order: seq<Key>, grouped: map<Key, seq<Batch>>, candidates: seq<Candidate>)
    requires PlanOf(batches, keep, order, [], candidates) && GroupsOf(batches, order, grouped)
    ensures forall prefix :: prefix in Prefixes(candidates) <==> Planned(batches, keep, prefix)
  {
    hide Debug, Ranked, Older, KeyOf, Group;
    forall prefix ensures prefix in Prefixes(candidates) <==> Planned(batches, keep, prefix) {
      if prefix in Prefixes(candidates) {
        var c :| c in candidates && c.batch.finalPrefix == prefix;
        assert Justified(batches, keep, c);
      }
      if Planned(batches, keep, prefix) {
        var b :| b in batches && b.finalPrefix == prefix && (Debug(b) || b in Older(Ranked(batches, KeyOf(b)), keep));
        assert KeyOf(b) in order;
      }
    }
  }

  lemma TupleLessOrders(a: seq<string>, b: seq<string>, c: seq<string>)
    requires |a| == |b| == |c|
    ensures TupleLess(a, b) ==> !TupleLess(b, a)
    ensures !TupleLess(b, a) && !TupleLess(c, b) ==> !TupleLess(c, a)
  {
    hide Less;
    LessIsTotalOrder();
    if a != [] {
      TupleLessOrders(a[1..], b[1..], c[1..]);
    }
  }

  lemma ListedBeforeOrders()
    ensures StrictWeakOrder(ListedBefore)
  {
    hide TupleLess;
    forall a: Candidate, b: Candidate ensures ListedBefore(a, b) ==> !ListedBefore(b, a) {
      TupleLessOrders([a.batch.entity, a.batch.loadDate, a.batch.runId],
                      [b.batch.entity, b.batch.loadDate, b.batch.runId],
                      [b.batch.entity, b.batch.loadDate, b.batch.runId]);
    }
    forall a: Candidate, b: Candidate, c: Candidate
      ensures !ListedBefore(b, a) && !ListedBefore(c, b) ==> !ListedBefore(c, a)
    {
      TupleLessOrders([a.batch.entity, a.batch.loadDate, a.batch.runId],
                      [b.batch.entity, b.batch.loadDate, b.batch.runId],
                      [c.batch.entity, c.batch.loadDate, c.batch.runId]);
    }
  }

  lemma SortedPlan(batches: seq<Batch>, keep: nat, candidates: seq<Candidate>)
    requires OnePerPrefix(candidates) && forall c :: c in candidates ==> Justified(batches, keep, c)
    ensures var plan := Sort(candidates, ListedBefore);
            && Prefixes(plan) == Prefixes(candidates) && OnePerPrefix(plan) && Ordered(plan, ListedBefore)
            && forall c :: c in plan ==> Justified(batches, keep, c)
  {
    hide Justified, ListedBefore;
    var plan := Sort(candidates, ListedBefore);
    ListedBeforeOrders();
    SortOrders(candidates, ListedBefore);
    SortMembers(candidates, ListedBefore);
    assert Distinct(candidates);
    SortDistinct(candidates, ListedBefore);
    forall i, j | 0 <= i < j < |plan| ensures plan[i].batch.finalPrefix != plan[j].batch.finalPrefix {
      assert plan[i] in plan && plan[j] in plan && plan[i] != plan[j];
      var m :| 0 <= m < |candidates| && candidates[m] == plan[i];
      var n :| 0 <= n < |candidates| && candidates[n] == plan[j];
      assert m < n || n < m;
    }
  }

  // ----- What is kept -----

  /** The batches whose prefix is not among the planned ones. */
  function Kept(batches: seq<Batch>, planned: iset<string>): seq<Batch> {
    if batches == [] then []
    else
      var last := batches[|batches| - 1];
      Kept(batches[..|batches| - 1], planned) + if last.finalPrefix in planned then [] else [last]
  }

  ghost function PlannedSet(batches: seq<Batch>, keep: nat): iset<string> {
    iset prefix | Planned(batches, keep, prefix)
  }

  ghost function Remaining(batches: seq<Batch>, keep: nat): seq<Batch> {
    Kept(batches, PlannedSet(batches, keep))
  }

  lemma {:induction false} KeptMembers(batches: seq<Batch>, planned: iset<string>)
    ensures forall b :: b in Kept(batches, planned) <==> b in batches && b.finalPrefix !in planned
  {
    if batches != [] {
      KeptMembers(batches[..|batches| - 1], planned);
      assert batches == batches[..|batches| - 1] + [batches[|batches| - 1]];
    }
  }

  lemma {:induction false} KeptConcat(a: seq<Batch>, b: seq<Batch>, planned: iset<string>)
    ensures Kept(a + b, planned) == Kept(a, planned) + Kept(b, planned)
  {
    if b == [] {
      assert a + b == a;
    } else {
      var init := b[..|b| - 1];
      assert (a + b)[..|a + b| - 1] == a + init;
      KeptConcat(a, init, planned);
    }
  }

  lemma {:induction false} KeptNone(batches: seq<Batch>, planned: iset<string>)
    requires forall i :: 0 <= i < |batches| ==> batches[i].finalPrefix in planned
    ensures Kept(batches, planned) == []
  {
    if batches != [] {
      var init, last := batches[..|batches| - 1], batches[|batches| - 1];
      assert last.finalPrefix in planned;
      forall i | 0 <= i < |init| ensures init[i].finalPrefix in planned {
        assert init[i] == batches[i];
      }
      KeptNone(init, planned);
    }
  }

  lemma {:induction false} KeptAll(batches: seq<Batch>, planned: iset<string>)
    requires forall i :: 0 <= i < |batches| ==> batches[i].finalPrefix !in planned
    ensures Kept(batches, planned) == batches
  {
    if batches != [] {
      var init, last := batches[..|batches| - 1], batches[|batches| - 1];
      assert last.finalPrefix !in planned;
      forall i | 0 <= i < |init| ensures init[i].finalPrefix !in planned {
        assert init[i] == batches[i];
      }
      KeptAll(init, planned);
    }
  }

  lemma {:induction false} KeptLength(batches: seq<Batch>, planned: iset<string>)
    ensures |Kept(batches, planned)| <= |batches|
  {
    if batches != [] {
      KeptLength(batches[..|batches| - 1], planned);
    }
  }

  lemma KeptAppend(batches: seq<Batch>, b: Batch, planned: iset<string>)
    ensures Kept(batches + [b], planned)
         == if b.finalPrefix in planned then Kept(batches, planned) else Kept(batches, planned) + [b]
  {
    assert (batches + [b])[..|batches|] == batches;
  }

  lemma {:induction false} GroupOfKept(batches: seq<Batch>, planned: iset<string>, key: Key)
    ensures Group(Kept(batches, planned), key) == Kept(Group(batches, key), planned)
  {
    hide Kept, Group, KeyOf;
    if batches == [] {
      NothingKept(planned, key);
    } else {
      var init, last := batches[..|batches| - 1], batches[|batches| - 1];
      assert batches == init + [last];
      GroupOfKept(init, planned, key);
      GroupAppend(Kept(init, planned), last, key);
      KeptAppend(init, last, planned);
      KeptAppend(Group(init, key), last, planned);
      GroupAppend(init, last, key);
    }
  }

  lemma NothingKept(planned: iset<string>, key: Key)
    ensures Kept([], planned) == [] && Group([], key) == []
  {
  }

  lemma {:induction false} KeptInsert(x: Batch, s: seq<Batch>, planned: iset<string>)
    ensures |Kept(Insert(x, s, Earlier), planned)| == |Kept([x], planned)| + |Kept(s, planned)|
  {
    hide Earlier;
    if s == [] || Earlier(x, s[0]) {
      KeptConcat([x], s, planned);
    } else {
      KeptInsert(x, s[1..], planned);
      KeptConcat([s[0]], Insert(x, s[1..], Earlier), planned);
      KeptConcat([s[0]], s[1..], planned);
      assert s == [s[0]] + s[1..];
    }
  }

  /** Sorting keeps the number of kept batches. */
  lemma {:induction false} KeptSort(s: seq<Batch>, planned: iset<string>)
    ensures |Kept(Sort(s, Earlier), planned)| == |Kept(s, planned)|
  {
    hide Earlier;
    if s != [] {
      KeptSort(s[..|s| - 1], planned);
      KeptInsert(s[|s| - 1], Sort(s[..|s| - 1], Earlier), planned);
      KeptConcat(s[..|s| - 1], [s[|s| - 1]], planned);
      assert s == s[..|s| - 1] + [s[|s| - 1]];
    }
  }

  /** Planning again once every planned batch is gone plans nothing. */
  lemma ReplanIsEmpty(batches: seq<Batch>, keep: nat)
    requires keep >= 1
    ensures forall prefix :: !Planned(Remaining(batches, keep), keep, prefix)
  {
    hide Debug, Ranked, Kept, KeyOf, Planned;
    var planned := PlannedSet(batches, keep);
    var rest := Remaining(batches, keep);
    KeptMembers(batches, planned);
    forall b | b in rest ensures !Debug(b) && Older(Ranked(rest, KeyOf(b)), keep) == [] {
      NotDebug(batches, keep, b);
      RestOfGroup(batches, keep, KeyOf(b));
    }
    forall prefix ensures !Planned(rest, keep, prefix) {
      PlannedBecause(rest, keep, prefix);
    }
  }

  lemma PlannedBecause(batches: seq<Batch>, keep: nat, prefix: string)
    ensures Planned(batches, keep, prefix) ==>
              exists b :: b in batches && (Debug(b) || Older(Ranked(batches, KeyOf(b)), keep) != [])
  {
    hide Debug, Ranked, KeyOf;
  }

  lemma NotDebug(batches: seq<Batch>, keep: nat, b: Batch)
    requires b in batches && b.finalPrefix !in PlannedSet(batches, keep)
    ensures !Debug(b)
  {
    hide Debug, Ranked;
  }

  /** At most keep batches of a group survive. */
  lemma RestOfGroup(batches: seq<Batch>, keep: nat, key: Key)
    ensures |Ranked(Remaining(batches, keep), key)| <= keep
  {
    hide Kept, Group, Planned;
    var planned := PlannedSet(batches, keep);
    var ranked := Ranked(batches, key);
    GroupOfKept(batches, planned, key);
    SortElements(Group(Remaining(batches, keep), key), Earlier);
    KeptSort(Group(batches, key), planned);
    SplitKept(batches, keep, key);
    KeptLength(Latest(ranked, keep), planned);
  }

  /** Of a ranked group only batches among the latest are kept. */
  lemma SplitKept(batches: seq<Batch>, keep: nat, key: Key)
    ensures Kept(Ranked(batches, key), PlannedSet(batches, keep))
         == Kept(Latest(Ranked(batches, key), keep), PlannedSet(batches, keep))
  {
    hide Kept, Ranked, Debug, KeyOf;
    var planned := PlannedSet(batches, keep);
    var ranked := Ranked(batches, key);
    RankedMembers(batches, key);
    assert ranked == Older(ranked, keep) + Latest(ranked, keep);
    forall b | b in Older(ranked, keep) ensures b.finalPrefix in planned {
      assert b in ranked;
    }
    KeptConcat(Older(ranked, keep), Latest(ranked, keep), planned);
    KeptNone(Older(ranked, keep), planned);
  }

  ghost predicate DistinctPrefixes(batches: seq<Batch>) {
    forall i, j :: 0 <= i < j < |batches| ==> batches[i].finalPrefix != batches[j].finalPrefix
  }

  /**
   * With one prefix per batch, a group keeps exactly its latest batches, as many as asked for, if and only if none of
   * those is a debug batch.
   */
  lemma GroupKeepsLatest(batches: seq<Batch>, keep: nat, key: Key)
    requires DistinctPrefixes(batches)
    ensures var latest := Latest(Ranked(batches, key), keep);
            Kept(Ranked(batches, key), PlannedSet(batches, keep)) == latest <==> forall b :: b in latest ==> !Debug(b)
  {
    hide Kept, Debug, KeyOf, Ranked;
    var planned := PlannedSet(batches, keep);
    var latest := Latest(Ranked(batches, key), keep);
    SplitKept(batches, keep, key);
    RankedMembers(batches, key);
    if forall b :: b in latest ==> !Debug(b) {
      forall b | b in latest ensures b.finalPrefix !in planned {
        LatestNotPlanned(batches, keep, key, b);
      }
      KeptAll(latest, planned);
    } else {
      var b :| b in latest && Debug(b);
      KeptMembers(latest, planned);
      assert b.finalPrefix in planned;
    }
  }

  lemma LatestNotPlanned(batches: seq<Batch>, keep: nat, key: Key, b: Batch)
    requires DistinctPrefixes(batches) && b in Latest(Ranked(batches, key), keep) && !Debug(b)
    ensures b.finalPrefix !in PlannedSet(batches, keep)
  {
    hide Debug;
    var ranked := Ranked(batches, key);
    RankedMembers(batches, key);
    assert b in ranked;
    RankedDistinct(batches, key);
    var i :| 0 <= i < |Latest(ranked, keep)| && Latest(ranked, keep)[i] == b;
    assert b !in Older(ranked, keep);
    forall other | other in batches && other.finalPrefix == b.finalPrefix ensures other == b {
      var m :| 0 <= m < |batches| && batches[m] == other;
      var n :| 0 <= n < |batches| && batches[n] == b;
      assert m == n;
    }
  }

  lemma RankedDistinct(batches: seq<Batch>, key: Key)
    requires DistinctPrefixes(batches)
    ensures Distinct(Ranked(batches, key))
  {
    GroupDistinct(batches, key);
    SortDistinct(Group(batches, key), Earlier);
  }

  lemma {:induction false} GroupDistinct(batches: seq<Batch>, key: Key)
    requires DistinctPrefixes(batches)
    ensures Distinct(Group(batches, key))
  {
    if batches != [] {
      var init, last := batches[..|batches| - 1], batches[|batches| - 1];
      GroupDistinct(init, key);
      GroupMembers(init, key);
      assert last !in init;
    }
  }

  /** A newest debug batch empties its group: keeping one of two, the older is a duplicate and the newer is debug. */
  lemma DebugEmptiesGroup(older: Batch, newer: Batch)
    requires KeyOf(older) == KeyOf(newer) && Earlier(older, newer) && Debug(newer)
    ensures Remaining([older, newer], 1) == []
  {
    hide Debug, Earlier, KeyOf, Group, Kept, Planned;
    var batches, key := [older, newer], KeyOf(older);
    assert [older] + [newer] == batches && [] + [older] == [older];
    GroupAppend([], older, key);
    GroupAppend([older], newer, key);
    EmptyGroup([], key);
    assert Group(batches, key) == [older, newer];
    EarlierAsymmetric(older, newer);
    assert Ranked(batches, key) == [older, newer] by {
      assert [older, newer][..1] == [older];
      assert Sort([older], Earlier) == [older];
      assert Insert(newer, [older], Earlier) == [older] + Insert(newer, [], Earlier) by {
        assert [older][1..] == [];
      }
    }
    assert older in Older(Ranked(batches, key), 1);
    assert newer in batches && older in batches;
    BothPlanned(batches, older, newer);
    KeptNone(batches, PlannedSet(batches, 1));
  }

  lemma BothPlanned(batches: seq<Batch>, older: Batch, newer: Batch)
    requires older in batches && newer in batches && Debug(newer)
    requires older in Older(Ranked(batches, KeyOf(older)), 1)
    ensures older.finalPrefix in PlannedSet(batches, 1) && newer.finalPrefix in PlannedSet(batches, 1)
  {
    hide Debug, Ranked, Older, KeyOf;
  }

  lemma EarlierAsymmetric(a: Batch, b: Batch)
    requires Earlier(a, b)
    ensures !Earlier(b, a)
  {
    hide TupleLess;
    TupleLessOrders([a.loadDate, a.runId, a.manifestKey], [b.loadDate, b.runId, b.manifestKey],
                    [b.loadDate, b.runId, b.manifestKey]);
  }
}
