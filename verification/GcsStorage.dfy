/** The GCS lakehouse store, one caller at a time; GenerationChain interleaves its callers. */
module GcsStorage {
  import opened Wrappers
  import opened Text
  import opened Listing
  import opened ObjectKeys
  import opened Lakehouse
  import opened GenerationChain

  // ----- Versions -----

  predicate Digits(s: string) {
    s != "" && AllDigits(s)
  }

  function Joined(parts: seq<string>): (s: string)
    requires forall i :: 0 <= i < |parts| ==> Digits(parts[i])
    ensures AllDigits(s)
  {
    if parts == [] then ""
    else
      assert Digits(parts[|parts| - 1]);
      Joined(parts[..|parts| - 1]) + parts[|parts| - 1]
  }

  /** `int` of ASCII text: outer blanks, a sign, digits with single underscores between them. */
  function IntOf(text: string): Option<int> {
    var t := Strip(text);
    var u := if t != "" && t[0] in {'+', '-'} then t[1..] else t;
    var parts := Split(u, '_');
    if exists i :: 0 <= i < |parts| && !Digits(parts[i]) then None
    else
      var n: int := Value(Joined(parts));
      Some(if t != "" && t[0] == '-' then -n else n)
  }

  /** `_generation`'s reading of expected_version: None when it raises. */
  function NumericVersion(version: string): Option<Option<int>> {
    if version == "" then Some(None)
    else
      var n := IntOf(version);
      if n.None? then None else Some(n)
  }

  /** A generation handed out as text is read back as itself. */
  lemma GenerationReadsBack(n: nat)
    ensures NumericVersion(Decimal(n)) == Some(Some(n))
  {
    hide Split, Strip, Value, Decimal, Joined, IsSpace;
    var d := Decimal(n);
    ValueOfDecimal(n);
    DigitsAreTrimmed(d);
    StripTrims(d);
    SplitPrefix(d, "", '_');
    JoinedOne(d);
    var parts := Split(d, '_');
    assert parts == [d] && Digits(parts[0]);
  }

  lemma DigitsAreTrimmed(s: string)
    requires Digits(s)
    ensures Trimmed(s)
  {
  }

  lemma JoinedOne(s: string)
    requires Digits(s)
    ensures Joined([s]) == s
  {
    assert [s][..0] == [];
    assert Joined([]) == "";
  }

  // ----- Stored objects -----

  function CleanGcsMetadata(metadata: seq<(string, string)>): map<string, string> {
    if metadata == [] then map[]
    else
      var (k, v) := metadata[|metadata| - 1];
      var rest := CleanGcsMetadata(metadata[..|metadata| - 1]);
      if k == "" then rest else rest[Lower(k) := v]
  }

  /** What an accepted put writes: `_metadata` overrides what the caller says about the hash. */
  function Uploaded(data: Bytes, metadata: seq<(string, string)>, sha256: Hash): StoredObject {
    StoredObject(data, CleanGcsMetadata(metadata)[HASH_METADATA := sha256(data)])
  }

  ghost predicate TrueBlobs(blobs: Blobs, sha256: Hash) {
    forall k :: k in blobs ==> Recorded(blobs[k].stored) in {"", sha256(blobs[k].stored.data)}
  }

  ghost predicate HoldsHash(blobs: Blobs, key: string, hash: string, sha256: Hash) {
    key in blobs && sha256(blobs[key].stored.data) == hash
  }

  /** An existence check followed by a guarded write; the generation is that of the new blob. */
  function GuardedWrite(blobs: Blobs, clock: nat, op: Op, stored: StoredObject): (Blobs, Option<nat>) {
    if (!op.Delete? && !op.overwrite && op.key in blobs) || !Allows(Guard(op), Current(blobs, op.key))
    then (blobs, None)
    else (blobs[op.key := Blob(clock + 1, stored)], Some(clock + 1))
  }

  lemma WritesKeepTrueBlobs(blobs: Blobs, key: string, generation: nat, stored: StoredObject, sha256: Hash)
    requires TrueBlobs(blobs, sha256) && Recorded(stored) in {"", sha256(stored.data)}
    ensures TrueBlobs(blobs[key := Blob(generation, stored)], sha256)
  {
    hide Recorded;
  }

  // ----- The store -----

  /** A copy is admitted: keys and version are valid and the source is there. */
  ghost predicate Admitted(blobs: Blobs, source: string, target: string, expectedVersion: string) {
    && ValidateKey(source).Some? && ValidateKey(target).Some? && NumericVersion(expectedVersion).Some?
    && ValidateKey(source).value in blobs
  }

  ghost function CopyOp(source: string, target: string, expectedVersion: string, overwrite: bool): Op
    requires ValidateKey(source).Some? && ValidateKey(target).Some? && NumericVersion(expectedVersion).Some?
  {
    Copy(ValidateKey(source).value, ValidateKey(target).value, NumericVersion(expectedVersion).value, overwrite)
  }

  class GcsStorage {
    var blobs: Blobs
    var clock: nat
    const sha256: Hash

    constructor (sha256: Hash)
      ensures blobs == map[] && clock == 0 && this.sha256 == sha256
    {
      blobs, clock, this.sha256 := map[], 0, sha256;
    }

    /** The service's side of a write with if_generation_match. */
    method Upload(key: string, stored: StoredObject, guard: Option<int>) returns (r: Result<nat, StorageError>)
      modifies this
      ensures r.Success? <==> Allows(guard, Current(old(blobs), key))
      ensures r.Success? ==> r.value == old(clock) + 1
      ensures r.Success? ==> blobs == old(blobs)[key := Blob(old(clock) + 1, stored)] && clock == old(clock) + 1
      ensures r.Failure? ==> blobs == old(blobs) && clock == old(clock)
    {
      if !Allows(guard, Current(blobs, key)) {
        return Failure(PreconditionFailed);
      }
      clock := clock + 1;
      blobs := blobs[key := Blob(clock, stored)];
      return Success(clock);
    }

    method Stat(key: string) returns (r: Result<StoredObject, StorageError>)
      ensures r.Success? <==> ValidateKey(key).Some? && ValidateKey(key).value in blobs
      ensures r.Success? ==> r.value == blobs[ValidateKey(key).value].stored
    {
      var value := ValidateKey(key);
      if value.None? {
        return Failure(InvalidKey);
      }
      return if value.value in blobs then Success(blobs[value.value].stored) else Failure(NotFound);
    }

    /** `put_bytes` */
    method PutBytes(
      key: string, data: Bytes, expectedVersion: string, overwrite: bool, metadata: seq<(string, string)>,
      checksum: string) returns (r: Result<nat, StorageError>)
      modifies this
      ensures var valid := && ValidateKey(key).Some? && checksum in {"", sha256(data)}
                           && NumericVersion(expectedVersion).Some?;
              && (!valid ==> r.Failure? && blobs == old(blobs))
              && (valid ==>
                    var stored := Uploaded(data, metadata, sha256);
                    var op := Put(ValidateKey(key).value, stored, NumericVersion(expectedVersion).value, overwrite);
                    var (after, generation) := GuardedWrite(old(blobs), old(clock), op, stored);
                    && blobs == after && (r.Success? <==> generation.Some?)
                    && (r.Success? ==> r.value == generation.value))
      ensures TrueBlobs(old(blobs), sha256) ==> TrueBlobs(blobs, sha256)
    {
      hide IntOf, Strip, SafeKey, TrueBlobs, CleanGcsMetadata;
      var value, expected := ValidateKey(key), NumericVersion(expectedVersion);
      if value.None? {
        return Failure(InvalidKey);
      }
      if checksum != "" && checksum != sha256(data) {
        return Failure(ChecksumMismatch);
      }
      if expected.None? {
        return Failure(UnsupportedPrecondition);
      }
      var stored := Uploaded(data, metadata, sha256);
      var op := Put(value.value, stored, expected.value, overwrite);
      if TrueBlobs(blobs, sha256) {
        WritesKeepTrueBlobs(blobs, op.key, clock + 1, stored, sha256);
      }
      if !overwrite && op.key in blobs {
        return Failure(AlreadyExists);
      }
      r := Upload(op.key, stored, Guard(op));
    }

    /** `copy`, which takes the source's metadata along. */
    method CopyBlob(source: string, target: string, expectedVersion: string, overwrite: bool)
      returns (r: Result<nat, StorageError>)
      modifies this
      ensures !Admitted(old(blobs), source, target, expectedVersion) ==> r.Failure? && blobs == old(blobs)
      ensures Admitted(old(blobs), source, target, expectedVersion) ==>
                var op := CopyOp(source, target, expectedVersion, overwrite);
                var (after, generation) := GuardedWrite(old(blobs), old(clock), op, old(blobs)[op.source].stored);
                && blobs == after && (r.Success? <==> generation.Some?)
                && (r.Success? ==> r.value == generation.value)
      ensures TrueBlobs(old(blobs), sha256) ==> TrueBlobs(blobs, sha256)
    {
      hide IntOf, Strip, SafeKey;
      var from, to, expected := ValidateKey(source), ValidateKey(target), NumericVersion(expectedVersion);
      if from.None? || to.None? {
        return Failure(InvalidKey);
      }
      if expected.None? {
        return Failure(UnsupportedPrecondition);
      }
      var op := Copy(from.value, to.value, expected.value, overwrite);
      if !overwrite && op.key in blobs {
        return Failure(AlreadyExists);
      }
      if op.source !in blobs {
        return Failure(NotFound);
      }
      r := Upload(op.key, blobs[op.source].stored, Guard(op));
    }

    method DeleteObject(key: string) returns (r: Result<(), StorageError>)
      modifies this`blobs
      ensures r.Success? <==> ValidateKey(key).Some? && ValidateKey(key).value in old(blobs)
      ensures r.Failure? ==> r.error == if ValidateKey(key).None? then InvalidKey else NotFound
      ensures blobs == if r.Success? then old(blobs) - {ValidateKey(key).value} else old(blobs)
    {
      var value := ValidateKey(key);
      if value.None? {
        return Failure(InvalidKey);
      }
      if value.value !in blobs {
        return Failure(NotFound);
      }
      blobs := blobs - {value.value};
      return Success(());
    }

    /** `list_page`; every listed key is validated when its URI is made. */
    method ListPage(prefix: string, pageSize: int, cursor: Option<string>)
      returns (r: Result<(seq<string>, Option<string>), StorageError>)
      ensures ValidatePrefix(prefix, false, false).Failure? ==> r.Failure?
      ensures ValidatePrefix(prefix, false, false).Success? ==>
                var rest := Ascending(Beyond(Under(blobs, Strip(prefix)), cursor));
                var n := PageLimit(pageSize);
                var page := if |rest| <= n then rest else rest[..n];
                && (r.Success? <==> AllValid(page))
                && (r.Success? ==> r.value == (page, if |rest| <= n then None else Some(rest[n - 1])))
    {
      hide ValidateKey, Ascending, Beyond, Under, Strip;
      var checked := ValidatePrefix(prefix, false, false);
      if checked.Failure? {
        return Failure(InvalidKey);
      }
      var rest := InOrder(Beyond(Under(blobs, checked.value), cursor));
      var n := PageLimit(pageSize);
      var page := if |rest| <= n then rest else rest[..n];
      for i := 0 to |page|
        invariant AllValid(page[..i])
      {
        if ValidateKey(page[i]).None? {
          assert !AllValid(page);
          return Failure(InvalidKey);
        }
        assert page[..i + 1] == page[..i] + [page[i]];
      }
      assert page[..|page|] == page;
      return Success((page, if |rest| <= n then None else Some(rest[n - 1])));
    }

    /** `iter_list`: with any page size, all keys under the prefix in order. */
    method IterList(prefix: string, pageSize: int) returns (r: Result<seq<string>, StorageError>)
      ensures r.Success? <==>
              ValidatePrefix(prefix, false, false).Success? && AllValid(Ascending(Under(blobs, Strip(prefix))))
      ensures r.Success? ==> r.value == Ascending(Under(blobs, Strip(prefix)))
    {
      hide ValidateKey, ValidatePrefix, Strip, Ascending, Under, Beyond, AllValid, PageLimit, ListedTo;
      ghost var keys := Under(blobs, Strip(prefix));
      var listed, cursor := [], None;
      WholeListing(keys);
      while true
        invariant ListedTo(keys, listed, cursor)
        decreases |Ascending(keys)| - |listed|
      {
        var page := ListPage(prefix, pageSize, cursor);
        OnePage(keys, listed, cursor, PageLimit(pageSize));
        match page {
          case Failure(e) => return Failure(e);
          case Success(_) =>
        }
        listed := listed + page.value.0;
        if page.value.1.None? {
          return Success(listed);
        }
        cursor := page.value.1;
      }
    }

    /**
     * `delete_prefix`: a listed key whose validated spelling is another one is not found when its turn comes, since the
     * shorter spelling was listed and deleted before it or never was there.
     */
    method DeletePrefix(prefix: string, requireTrailingSlash: bool, maxObjects: Option<int>)
      returns (r: Result<nat, StorageError>)
      modifies this`blobs
      ensures r.Success? <==>
              && Deletable(old(blobs), prefix, requireTrailingSlash, maxObjects)
              && OwnSpellings(Under(old(blobs), Strip(prefix)))
      ensures r.Success? ==>
                && r.value == |Under(old(blobs), Strip(prefix))|
                && blobs == old(blobs) - Under(old(blobs), Strip(prefix))
      ensures !Deletable(old(blobs), prefix, requireTrailingSlash, maxObjects) ==> blobs == old(blobs)
      ensures Deletable(old(blobs), prefix, requireTrailingSlash, maxObjects) && r.Failure? ==>
                && r.error == NotFound
                && exists other :: FirstOther(Under(old(blobs), Strip(prefix)), other)
                                   && blobs == old(blobs) - Preceding(Under(old(blobs), Strip(prefix)), other)
      ensures TrueBlobs(old(blobs), sha256) ==> TrueBlobs(blobs, sha256)
    {
      hide Strip, ValidateKey, Under, Ascending, DropSlashes, Elements, AllValid, TrueBlobs, OwnSpellings, FirstOther,
        Preceding;
      ghost var before := blobs;
      var checked := ValidatePrefix(prefix, true, requireTrailingSlash);
      if checked.Failure? {
        return Failure(if checked.error == UnsafePrefix then UnsafePrefixDelete else InvalidKey);
      }
      ghost var under := Under(before, checked.value);
      ValidatePrefixAgain(prefix, true, requireTrailingSlash);
      StripTwice(prefix);
      AscendingOrder(under);
      AllListedValid(under);
      var keys :- IterList(checked.value, 1000);
      if maxObjects.Some? && |keys| > maxObjects.value {
        return Failure(UnsafePrefixDelete);
      }
      assert checked.value != "";
      hide ValidatePrefix, Deletable;
      NothingYet(keys);
      for i := 0 to |keys|
        invariant blobs == before - Elements(keys[..i]) && OwnSpellings(Elements(keys[..i]))
        invariant TrueBlobs(before, sha256) ==> TrueBlobs(blobs, sha256)
      {
        SpellingGone(before, checked.value, i);
        OneMore(keys, i);
        var one := DeleteObject(keys[i]);
        match one {
          case Failure(e) => return Failure(e);
          case Success(_) => FewerTrueBlobs(before, Elements(keys[..i + 1]), sha256);
        }
      }
      assert keys[..|keys|] == keys;
      return Success(|keys|);
    }

    /**
     * `publish`: succeeds if and only if the effective checksum is the expected one and the guarded copy goes through;
     * a failing publication changes nothing.
     */
    method Publish(
      staging: string, final: string, expected: string, overwrite: bool, expectedVersion: string, deleteStaging: bool)
      returns (r: Result<PublishResult, StorageError>)
      modifies this
      ensures r.Failure? ==> blobs == old(blobs)
      ensures r.Success? <==>
              && Admitted(old(blobs), staging, final, expectedVersion)
              && var op := CopyOp(staging, final, expectedVersion, overwrite);
                 var o := old(blobs)[op.source].stored;
                 && (expected == "" || Effective(o, expected, sha256) == expected)
                 && GuardedWrite(old(blobs), old(clock), op, o).1.Some?
      ensures r.Success? ==>
                var op := CopyOp(staging, final, expectedVersion, overwrite);
                var (copied, generation) := GuardedWrite(old(blobs), old(clock), op, old(blobs)[op.source].stored);
                && blobs == (if deleteStaging then copied - {op.source} else copied)
                && r.value.stagingDeleted == deleteStaging && !r.value.stagingDeleteFailed
      ensures r.Success? && expected != "" && TrueBlobs(old(blobs), sha256) ==>
                (HoldsHash(blobs, ValidateKey(final).value, expected, sha256) <==>
                 ValidateKey(staging) != ValidateKey(final) || !deleteStaging)
      ensures TrueBlobs(old(blobs), sha256) ==> TrueBlobs(blobs, sha256)
    {
      hide IntOf, Strip, SafeKey, Recorded;
      var staged :- Stat(staging);
      var stagedSum := Effective(staged, expected, sha256);
      if expected != "" && stagedSum != expected {
        return Failure(ChecksumMismatch);
      }
      var copy := CopyBlob(staging, final, expectedVersion, overwrite);
      match copy {
        case Failure(e) => return Failure(e);
        case Success(_) =>
      }
      var published := blobs[ValidateKey(final).value].stored;
      assert published == staged;
      var deleted, failed := false, false;
      if deleteStaging {
        var gone := DeleteObject(staging);
        deleted, failed := gone.Success?, gone.Failure?;
      }
      EffectiveHash(staged, expected, sha256);
      return Success(PublishResult(staging, final, Effective(published, expected, sha256), deleted, failed));
    }
  }

  // ----- Prefix deletion -----

  /** The keys listed before this one. */
  ghost function Preceding(keys: set<string>, key: string): set<string> {
    set k | k in keys && Less(k, key)
  }

  /** The first listed key that is not its own validated spelling. */
  ghost predicate FirstOther(keys: set<string>, other: string) {
    other in keys && ValidateKey(other) != Some(other) && OwnSpellings(Preceding(keys, other))
  }

  lemma NothingYet(keys: seq<string>)
    ensures Elements(keys[..0]) == {} && OwnSpellings(Elements(keys[..0]))
  {
  }

  lemma OneMore(keys: seq<string>, i: nat)
    requires i < |keys|
    ensures Elements(keys[..i + 1]) == Elements(keys[..i]) + {keys[i]}
    ensures OwnSpellings(Elements(keys[..i + 1])) <==>
            OwnSpellings(Elements(keys[..i])) && ValidateKey(keys[i]) == Some(keys[i])
  {
    hide ValidateKey;
    assert keys[..i + 1] == keys[..i] + [keys[i]];
  }

  lemma FewerTrueBlobs(blobs: Blobs, keys: set<string>, sha256: Hash)
    ensures TrueBlobs(blobs, sha256) ==> TrueBlobs(blobs - keys, sha256)
  {
    hide Recorded;
  }

  lemma {:induction false} ProperPrefixLess(a: string, b: string)
    requires a < b
    ensures Less(a, b)
  {
    if a != [] {
      ProperPrefixLess(a[1..], b[1..]);
    }
  }

  /** What precedes the i-th listed key is what was listed before it. */
  lemma ListedBeforeIt(keys: set<string>, i: nat)
    requires i < |Ascending(keys)|
    ensures Preceding(keys, Ascending(keys)[i]) == Elements(Ascending(keys)[..i])
  {
    hide Less;
    var all := Ascending(keys);
    AscendingOrder(keys);
    LessIsTotalOrder();
    forall k ensures k in Preceding(keys, all[i]) <==> k in all[..i] {
      if k in Preceding(keys, all[i]) {
        assert k in all;
        var j :| 0 <= j < |all| && all[j] == k;
        assert j < i;
      }
      if k in all[..i] {
        assert k in all;
      }
    }
  }

  /** A key under an accepted prefix is spelled as its own prefix of it, still under that prefix. */
  lemma ShorterSpelling(prefix: string, key: string)
    requires prefix != "" && Trimmed(prefix) && prefix <= key
    ensures prefix <= Strip(key) <= key
  {
    assert StripLeft(key) == key;
    StripRightKeeps(key, prefix);
    StripRightIsPrefix(key);
  }

  /** When the turn of a key comes whose own spelling it is not, that spelling is not in the store any more. */
  lemma SpellingGone(before: Blobs, prefix: string, i: nat)
    requires prefix != "" && Trimmed(prefix)
    requires var keys := Ascending(Under(before, prefix));
             i < |keys| && AllValid(keys) && OwnSpellings(Elements(keys[..i]))
    ensures var keys := Ascending(Under(before, prefix));
            && ValidateKey(keys[i]).Some?
            && (ValidateKey(keys[i]) == Some(keys[i]) <==>
                  ValidateKey(keys[i]).value in before - Elements(keys[..i]))
            && (ValidateKey(keys[i]) != Some(keys[i]) ==>
                  && FirstOther(Under(before, prefix), keys[i])
                  && Preceding(Under(before, prefix), keys[i]) == Elements(keys[..i])
                  && !OwnSpellings(Under(before, prefix)))
  {
    hide Strip, SafeKey, Less;
    var under := Under(before, prefix);
    var keys := Ascending(under);
    var key, value := keys[i], ValidateKey(keys[i]).value;
    assert key in under;
    AscendingOrder(under);
    LessIsTotalOrder();
    ListedBeforeIt(under, i);
    ShorterSpelling(prefix, key);
    if value == key {
      assert key !in keys[..i];
    } else {
      ProperPrefixLess(value, key);
      assert value in before ==> value in Preceding(under, key);
    }
  }

  /** Such a key stops the deletion even when it is alone under the prefix. */
  lemma BlankStopsDeletion(b: Blob)
    ensures var blobs := map["p/a " := b];
            Deletable(blobs, "p/", true, None) && FirstOther(Under(blobs, Strip("p/")), "p/a ")
  {
    hide Strip, ValidatePrefix, SafeKey, Less;
    var blobs, objects := map["p/a " := b], map["p/a " := b.stored];
    BlankOutlivesDeletion(b.stored);
    LessIsTotalOrder();
    assert forall prefix :: Under(blobs, prefix) == Under(objects, prefix);
    Spellings();
    assert Under(blobs, "p/") == {"p/a "} by {
      assert "p/a "[..2] == "p/";
    }
    assert Preceding({"p/a "}, "p/a ") == {};
  }

  lemma EffectiveHash(o: StoredObject, expected: string, sha256: Hash)
    ensures expected != "" && Recorded(o) in {"", sha256(o.data)} ==> Effective(o, expected, sha256) == sha256(o.data)
  {
  }

  // ----- One caller at a time is a run of the concurrent system -----

  /**
   * A put that no one interrupts is the run of its client in the concurrent system: the existence check, then the
   * guarded write, with the same store and the same outcome.
   */
  lemma PutAloneIsARun(s: System, i: nat) returns (m: System, t: System, outcome: Outcome)
    requires i < |s.clients| && s.clients[i].op.Put? && s.clients[i].phase.Start?
    ensures var op := s.clients[i].op;
            var (after, generation) := GuardedWrite(s.blobs, s.clock, op, op.stored);
            && CheckStep(s, m, i) && |m.clients| == |s.clients|
            && (if m.clients[i].phase.Ended? then t == m && outcome == Rejected else WriteStep(m, t, i, outcome))
            && t.blobs == after
            && outcome == if generation.Some? then Done(generation.value) else Rejected
  {
    var op := s.clients[i].op;
    if !op.overwrite && op.key in s.blobs {
      m, outcome := At(s, i, Ended(Rejected)), Rejected;
      t := m;
    } else {
      m := At(s, i, Checked);
      if Allows(Guard(op), Current(s.blobs, op.key)) {
        outcome := Done(s.clock + 1);
        t := Write(m, i, op.stored, outcome);
      } else {
        outcome := Rejected;
        t := At(m, i, Ended(Rejected));
      }
    }
  }

  /** Likewise a copy: the existence check, the look at the source, then the guarded write of what the source holds. */
  lemma CopyAloneIsARun(s: System, i: nat) returns (m: System, k: System, t: System, outcome: Outcome)
    requires i < |s.clients| && s.clients[i].op.Copy? && s.clients[i].phase.Start?
    ensures CheckStep(s, m, i) && |m.clients| == |k.clients| == |t.clients| == |s.clients|
    ensures if m.clients[i].phase.Ended? then k == m else StatStep(m, k, i)
    ensures if k.clients[i].phase.Ended? then t == k && outcome == Rejected else WriteStep(k, t, i, outcome)
    ensures var op := s.clients[i].op;
            if op.source !in s.blobs then t.blobs == s.blobs && outcome == Rejected
            else
              var (after, generation) := GuardedWrite(s.blobs, s.clock, op, s.blobs[op.source].stored);
              && t.blobs == after
              && outcome == if generation.Some? then Done(generation.value) else Rejected
  {
    var op := s.clients[i].op;
    if !op.overwrite && op.key in s.blobs {
      m, outcome := At(s, i, Ended(Rejected)), Rejected;
      k, t := m, m;
    } else {
      m := At(s, i, Checked);
      if op.source !in s.blobs {
        k, outcome := At(m, i, Ended(Rejected)), Rejected;
        t := k;
      } else {
        k := At(m, i, Statted);
        if Allows(Guard(op), Current(s.blobs, op.key)) {
          outcome := Done(s.clock + 1);
          t := Write(k, i, s.blobs[op.source].stored, outcome);
        } else {
          outcome := Rejected;
          t := At(k, i, Ended(Rejected));
        }
      }
    }
  }

  // ----- Checksums in any interleaving -----

  ghost predicate TruePuts(clients: seq<Client>, sha256: Hash) {
    forall j :: 0 <= j < |clients| && clients[j].op.Put? ==>
      var stored := clients[j].op.stored; Recorded(stored) in {"", sha256(stored.data)}
  }

  lemma StepKeepsTrueBlobs(s: System, t: System, i: nat, outcome: Outcome, sha256: Hash)
    requires StepOf(s, t, i, outcome) && TrueBlobs(s.blobs, sha256) && TruePuts(s.clients, sha256)
    ensures TrueBlobs(t.blobs, sha256) && TruePuts(t.clients, sha256)
  {
    hide Recorded;
  }

  /** If every client puts a true checksum, no state of any run holds a false one, whoever crashes and whoever wins. */
  lemma {:induction false} RunKeepsTrueBlobs(states: seq<System>, n: nat, sha256: Hash)
    requires Run(states) && n < |states|
    requires TrueBlobs(states[0].blobs, sha256) && TruePuts(states[0].clients, sha256)
    ensures TrueBlobs(states[n].blobs, sha256) && TruePuts(states[n].clients, sha256)
  {
    hide StepOf, TrueBlobs, TruePuts, Initial;
    if n > 0 {
      RunKeepsTrueBlobs(states, n - 1, sha256);
      assert Step(states[n - 1], states[n - 1 + 1]);
      var i: nat, outcome :| StepOf(states[n - 1], states[n], i, outcome);
      StepKeepsTrueBlobs(states[n - 1], states[n], i, outcome, sha256);
    }
  }
}
