/** The retention plan carried out on the lakehouse store. */
module RetentionExecution {
  import opened Wrappers
  import opened Text
  import opened Sorting
  import opened ObjectKeys
  import opened Lakehouse
  import opened Retention

  datatype Refusal = NotConfirmed | StoreRefused(error: StorageError)

  /** The keys that deleting every planned prefix addresses. */
  ghost function Addressed(objects: Objects, plan: seq<Candidate>): set<string> {
    if plan == [] then {}
    else
      Addressed(objects, plan[..|plan| - 1]) + Reached(Under(objects, Strip(plan[|plan| - 1].batch.finalPrefix)))
  }

  ghost function After(objects: Objects, plan: seq<Candidate>): Objects {
    objects - Addressed(objects, plan)
  }

  /** Each prefix may be deleted when its turn comes. */
  ghost predicate Executable(objects: Objects, plan: seq<Candidate>, maxObjects: int) {
    forall i :: 0 <= i < |plan| ==>
      Deletable(After(objects, plan[..i]), plan[i].batch.finalPrefix, true, Some(maxObjects))
  }

  /** What is reported as deleted for the i-th candidate. */
  ghost function DeletedFor(objects: Objects, plan: seq<Candidate>, i: nat): nat
    requires i < |plan|
  {
    |Under(After(objects, plan[..i]), Strip(plan[i].batch.finalPrefix))|
  }

  /** `execute_delete`: the number of deleted objects of each candidate. */
  method ExecuteDelete(storage: S3Storage, plan: seq<Candidate>, execute: bool, confirm: bool, maxObjects: int)
    returns (r: Result<seq<nat>, Refusal>)
    modifies storage.client
    ensures execute && !confirm ==> r == Failure(NotConfirmed)
    ensures !execute || !confirm ==> storage.client.objects == old(storage.client.objects)
    ensures !execute ==> r == Success(seq(|plan|, _ => 0))
    ensures execute && r.Success? ==>
              && Executable(old(storage.client.objects), plan, maxObjects)
              && storage.client.objects == After(old(storage.client.objects), plan)
              && |r.value| == |plan|
              && forall i :: 0 <= i < |plan| ==> r.value[i] == DeletedFor(old(storage.client.objects), plan, i)
    ensures r.Failure? ==>
              exists gone :: gone <= Addressed(old(storage.client.objects), plan)
                             && storage.client.objects == old(storage.client.objects) - gone
    ensures storage.client.Calm() && execute && confirm ==>
              (r.Success? <==> Executable(old(storage.client.objects), plan, maxObjects))
  {
    hide Addressed, Deletable, Reached, Under, Strip;
    ghost var before := storage.client.objects;
    assert before == before - {};
    if execute && !confirm {
      return Failure(NotConfirmed);
    }
    var deleted := [];
    NothingAddressed(before, plan);
    for i := 0 to |plan|
      invariant |deleted| == i
      invariant !execute ==> storage.client.objects == before && deleted == seq(i, _ => 0)
      invariant execute ==>
                  && storage.client.objects == After(before, plan[..i])
                  && forall j :: 0 <= j < i ==>
                       && deleted[j] == DeletedFor(before, plan, j)
                       && Deletable(After(before, plan[..j]), plan[j].batch.finalPrefix, true, Some(maxObjects))
    {
      var count := 0;
      if execute {
        ghost var prefix := Strip(plan[i].batch.finalPrefix);
        NextDeletion(before, plan, i, {});
        ghost var left := storage.client.objects;
        var one := storage.DeletePrefix(plan[i].batch.finalPrefix, true, Some(maxObjects));
        match one {
          case Failure(e) =>
            ghost var gone :| gone <= Reached(Under(left, prefix)) && storage.client.objects == left - gone;
            NextDeletion(before, plan, i, gone);
            return Failure(StoreRefused(e));
          case Success(n) => count := n;
        }
      }
      deleted := deleted + [count];
    }
    assert plan[..|plan|] == plan;
    return Success(deleted);
  }

  lemma NothingAddressed(objects: Objects, plan: seq<Candidate>)
    ensures Addressed(objects, plan[..0]) == {} && After(objects, plan[..0]) == objects
  {
  }

  lemma {:induction false} AddressedOwn(objects: Objects, plan: seq<Candidate>)
    ensures OwnSpellings(Addressed(objects, plan))
  {
    hide Under, ValidateKey, Strip;
    if plan != [] {
      AddressedOwn(objects, plan[..|plan| - 1]);
      ReachedOwn(Under(objects, Strip(plan[|plan| - 1].batch.finalPrefix)));
    }
  }

  lemma ReachedOwn(keys: set<string>)
    ensures OwnSpellings(Reached(keys))
  {
    hide ValidateKey;
    forall k | k in keys && ValidateKey(k).Some? ensures ValidateKey(ValidateKey(k).value) == ValidateKey(k) {
      ValidateKeyIdempotent(k);
    }
  }

  /** Of keys that are their own spellings, having removed some changes nothing about what a deletion leaves. */
  lemma ReachedOfRest(objects: Objects, gone: set<string>, prefix: string)
    requires OwnSpellings(gone)
    ensures Reached(Under(objects - gone, prefix)) <= Reached(Under(objects, prefix))
    ensures gone + Reached(Under(objects - gone, prefix)) == gone + Reached(Under(objects, prefix))
  {
    hide ValidateKey;
    var left, all := Under(objects - gone, prefix), Under(objects, prefix);
    assert left == all - gone;
    forall v | v in Reached(all) ensures v in gone || v in Reached(left) {
      var k :| k in all && ValidateKey(k).Some? && ValidateKey(k).value == v;
      assert k in gone || k in left;
    }
  }

  lemma AddressedOneMore(objects: Objects, plan: seq<Candidate>, i: nat)
    requires i < |plan|
    ensures Addressed(objects, plan[..i + 1])
         == Addressed(objects, plan[..i]) + Reached(Under(objects, Strip(plan[i].batch.finalPrefix)))
  {
    hide Reached, Under, Strip;
    assert plan[..i + 1][..i] == plan[..i];
  }

  lemma {:induction false} AddressedBefore(objects: Objects, plan: seq<Candidate>, i: nat)
    requires i <= |plan|
    ensures Addressed(objects, plan[..i]) <= Addressed(objects, plan)
    decreases |plan| - i
  {
    hide Addressed, Reached, Under, Strip;
    if i == |plan| {
      assert plan[..i] == plan;
    } else {
      AddressedOneMore(objects, plan, i);
      AddressedBefore(objects, plan, i + 1);
    }
  }

  /** Deleting the next prefix from what is left removes what it would have addressed at the start. */
  lemma NextDeletion(objects: Objects, plan: seq<Candidate>, i: nat, gone: set<string>)
    requires i < |plan|
    requires gone <= Reached(Under(After(objects, plan[..i]), Strip(plan[i].batch.finalPrefix)))
    ensures var left, prefix := After(objects, plan[..i]), Strip(plan[i].batch.finalPrefix);
            && left - Reached(Under(left, prefix)) == After(objects, plan[..i + 1])
            && left - gone == objects - (Addressed(objects, plan[..i]) + gone)
            && Addressed(objects, plan[..i]) + gone <= Addressed(objects, plan)
  {
    hide Addressed, Reached, Under, Strip;
    var before, prefix := Addressed(objects, plan[..i]), Strip(plan[i].batch.finalPrefix);
    AddressedOwn(objects, plan[..i]);
    ReachedOfRest(objects, before, prefix);
    AddressedOneMore(objects, plan, i);
    AddressedBefore(objects, plan, i + 1);
    RemoveTwice(objects, before, Reached(Under(objects - before, prefix)));
    RemoveTwice(objects, before, gone);
  }

  lemma RemoveTwice(objects: Objects, a: set<string>, b: set<string>)
    ensures objects - a - b == objects - (a + b)
  {
  }

  // ----- What an execution keeps -----

  /** The canonical keys of a store, each with the batch whose prefix it was written under. */
  ghost predicate Owned(objects: Objects, batches: seq<Batch>, owner: string -> Batch) {
    && OwnSpellings(objects.Keys)
    && forall k :: k in objects ==> owner(k) in batches && StartsWith(k, Strip(owner(k).finalPrefix))
  }

  ghost predicate PlanFor(batches: seq<Batch>, keep: nat, plan: seq<Candidate>) {
    forall prefix :: prefix in Prefixes(plan) <==> Planned(batches, keep, prefix)
  }

  /** Some planned prefix is a prefix of the key. */
  ghost predicate Hit(plan: seq<Candidate>, key: string) {
    exists prefix :: prefix in Prefixes(plan) && StartsWith(key, Strip(prefix))
  }

  /** No planned prefix reaches an object of a batch that is to be kept. */
  ghost predicate SparesTheRest(
    objects: Objects, batches: seq<Batch>, keep: nat, plan: seq<Candidate>, owner: string -> Batch)
  {
    forall k :: k in objects && owner(k) in Remaining(batches, keep) ==> !Hit(plan, k)
  }

  lemma {:induction false} AddressedMeansHit(objects: Objects, plan: seq<Candidate>)
    requires OwnSpellings(objects.Keys)
    ensures forall k :: k in objects ==> (k in Addressed(objects, plan) <==> Hit(plan, k))
  {
    hide ValidateKey, Strip, StartsWith;
    if plan != [] {
      var init, last := plan[..|plan| - 1], plan[|plan| - 1];
      AddressedMeansHit(objects, init);
      ReachedIsUnder(objects, Strip(last.batch.finalPrefix));
      assert plan == init + [last];
      PrefixesOneMore(init, last);
      hide Reached, Prefixes;
    }
  }

  lemma PrefixesOneMore(plan: seq<Candidate>, c: Candidate)
    ensures Prefixes(plan + [c]) == Prefixes(plan) + {c.batch.finalPrefix}
  {
    assert forall x :: x in plan + [c] <==> x in plan || x == c;
  }

  lemma ReachedIsUnder(objects: Objects, prefix: string)
    requires OwnSpellings(objects.Keys)
    ensures Reached(Under(objects, prefix)) == Under(objects, prefix)
  {
    hide ValidateKey;
    assert forall k :: k in Under(objects, prefix) ==> ValidateKey(k) == Some(k);
  }

  /**
   * Carrying out a plan keeps exactly the objects of the batches that remain, if and only if no object of such a batch
   * has a key that starts with a planned prefix.
   */
  lemma ExecutionKeepsTheRest(
    objects: Objects, batches: seq<Batch>, keep: nat, plan: seq<Candidate>, owner: string -> Batch)
    requires Owned(objects, batches, owner) && PlanFor(batches, keep, plan)
    ensures (forall k :: k in objects ==> (k in After(objects, plan) <==> owner(k) in Remaining(batches, keep))) <==>
            SparesTheRest(objects, batches, keep, plan, owner)
  {
    hide Planned, Kept, Strip, Addressed, ValidateKey;
    AddressedMeansHit(objects, plan);
    KeptMembers(batches, PlannedSet(batches, keep));
    forall k | k in objects && owner(k) !in Remaining(batches, keep) ensures Hit(plan, k) {
      assert owner(k).finalPrefix in Prefixes(plan);
    }
  }

  /** Two prefixes, neither of which starts with the other. */
  predicate Apart(a: string, b: string) {
    !StartsWith(a, b) && !StartsWith(b, a)
  }

  /** It is enough that no two batches have prefixes of which one starts with the other. */
  lemma ApartPrefixesSpareTheRest(
    objects: Objects, batches: seq<Batch>, keep: nat, plan: seq<Candidate>, owner: string -> Batch)
    requires Owned(objects, batches, owner) && PlanFor(batches, keep, plan)
    requires forall a, b :: a in batches && b in batches && a.finalPrefix != b.finalPrefix ==>
               Apart(Strip(a.finalPrefix), Strip(b.finalPrefix))
    ensures SparesTheRest(objects, batches, keep, plan, owner)
  {
    hide Kept, Strip, Debug, Older;
    KeptMembers(batches, PlannedSet(batches, keep));
    forall k | k in objects && owner(k) in Remaining(batches, keep) ensures !Hit(plan, k) {
      forall prefix | prefix in Prefixes(plan) ensures !StartsWith(k, Strip(prefix)) {
        var b :| b in batches && b.finalPrefix == prefix;
        var own := Strip(owner(k).finalPrefix);
        assert owner(k).finalPrefix != prefix;
        assert StartsWith(k, Strip(prefix)) ==> own <= Strip(prefix) || Strip(prefix) <= own;
      }
    }
  }

  /** Alone in its group, a batch that is not a debug batch is not planned. */
  lemma LoneNotOlder(outer: Batch, inner: Batch)
    requires !Debug(inner) && KeyOf(outer) != KeyOf(inner) && outer.finalPrefix != inner.finalPrefix
    ensures !Planned([outer, inner], 1, inner.finalPrefix)
    ensures Debug(outer) ==> Planned([outer, inner], 1, outer.finalPrefix)
  {
    hide Debug, KeyOf, Group, Earlier, Sort;
    var batches, key := [outer, inner], KeyOf(inner);
    assert [outer] + [inner] == batches && [] + [outer] == [outer];
    GroupAppend([], outer, key);
    GroupAppend([outer], inner, key);
    EmptyGroup([], key);
    assert Group(batches, key) == [inner];
    SortElements(Group(batches, key), Earlier);
    assert Older(Ranked(batches, key), 1) == [];
    hide Ranked, Older;
    assert outer in batches;
  }

  /** The condition is needed: a debug batch at a shorter prefix takes the objects of a batch that is to be kept. */
  lemma ShorterPrefixTakesTheRest(outer: Batch, inner: Batch, key: string, o: StoredObject, plan: seq<Candidate>)
    requires Debug(outer) && !Debug(inner) && KeyOf(outer) != KeyOf(inner)
    requires Trimmed(outer.finalPrefix) && Trimmed(inner.finalPrefix) && outer.finalPrefix < inner.finalPrefix
    requires ValidateKey(key) == Some(key) && StartsWith(key, inner.finalPrefix)
    requires PlanFor([outer, inner], 1, plan)
    ensures inner in Remaining([outer, inner], 1) && Owned(map[key := o], [outer, inner], _ => inner)
    ensures key !in After(map[key := o], plan)
  {
    hide Debug, KeyOf, Kept, Addressed, ValidateKey, Group;
    var batches, objects := [outer, inner], map[key := o];
    StripTrims(outer.finalPrefix);
    StripTrims(inner.finalPrefix);
    assert outer in batches && inner in batches;
    LoneNotOlder(outer, inner);
    KeptMembers(batches, PlannedSet(batches, 1));
    AddressedMeansHit(objects, plan);
    assert outer.finalPrefix in Prefixes(plan);
    assert Hit(plan, key);
  }

  // ----- Running the script again -----

  /** The batches whose manifest is still in the store. */
  function Loaded(objects: Objects, batches: seq<Batch>): seq<Batch> {
    if batches == [] then []
    else
      var last := batches[|batches| - 1];
      Loaded(objects, batches[..|batches| - 1]) + if last.manifestKey in objects then [last] else []
  }

  /** After a run that spared the rest, exactly the remaining batches are found, and planning again plans nothing. */
  lemma SecondRunPlansNothing(
    objects: Objects, batches: seq<Batch>, keep: nat, plan: seq<Candidate>, owner: string -> Batch)
    requires keep >= 1 && Owned(objects, batches, owner) && PlanFor(batches, keep, plan)
    requires forall b :: b in batches ==> b.manifestKey in objects && owner(b.manifestKey) == b
    requires SparesTheRest(objects, batches, keep, plan, owner)
    ensures Loaded(After(objects, plan), batches) == Remaining(batches, keep)
    ensures forall prefix :: !Planned(Loaded(After(objects, plan), batches), keep, prefix)
  {
    hide Planned, Kept, Addressed, Strip, ValidateKey;
    ExecutionKeepsTheRest(objects, batches, keep, plan, owner);
    KeptMembers(batches, PlannedSet(batches, keep));
    LoadedIsKept(After(objects, plan), batches, PlannedSet(batches, keep));
    ReplanIsEmpty(batches, keep);
  }

  lemma {:induction false} LoadedIsKept(objects: Objects, batches: seq<Batch>, planned: iset<string>)
    requires forall i :: 0 <= i < |batches| ==>
               (batches[i].manifestKey in objects <==> batches[i].finalPrefix !in planned)
    ensures Loaded(objects, batches) == Kept(batches, planned)
  {
    if batches != [] {
      var init, last := batches[..|batches| - 1], batches[|batches| - 1];
      assert last.manifestKey in objects <==> last.finalPrefix !in planned;
      forall i | 0 <= i < |init| ensures init[i].manifestKey in objects <==> init[i].finalPrefix !in planned {
        assert init[i] == batches[i];
      }
      LoadedIsKept(objects, init, planned);
    }
  }
}
