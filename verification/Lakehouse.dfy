/** The S3 lakehouse store: checked writes, staged publication and prefix deletion over an object store. */
module Lakehouse {
  import opened Wrappers
  import opened Text
  import opened Listing
  import opened ObjectKeys

  type Bytes = seq<bv8>

  /** Metadata keys are lower case. */
  datatype StoredObject = StoredObject(data: Bytes, metadata: map<string, string>)

  type Objects = map<string, StoredObject>

  const HASH_METADATA := "omega-sha256"

  datatype StorageError =
    | InvalidKey | NotFound | AlreadyExists | ChecksumMismatch | UnsupportedPrecondition | UnsafePrefixDelete
    | PreconditionFailed | Unavailable

  /** A call may go through, be refused, or take effect and lose its answer. */
  datatype Weather = Fine | Refused | Lost

  // ----- Checksums -----

  predicate StartsWith(s: string, prefix: string) {
    prefix <= s
  }

  function CleanMetadata(metadata: seq<(string, string)>): map<string, string> {
    if metadata == [] then map[]
    else
      var (k, v) := metadata[|metadata| - 1];
      var rest := CleanMetadata(metadata[..|metadata| - 1]);
      if k == "" || StartsWith(Lower(k), "aws-") || StartsWith(Lower(k), "x-amz-") then rest else rest[Lower(k) := v]
  }

  /** `metadata_with_checksum`: what the caller says about the hash is overridden. */
  function MetadataWithChecksum(metadata: seq<(string, string)>, checksum: string): map<string, string> {
    CleanMetadata(metadata)[HASH_METADATA := checksum]
  }

  /** `checksum_sha256`, "" when it is missing. */
  function Recorded(o: StoredObject): string {
    if HASH_METADATA in o.metadata then o.metadata[HASH_METADATA] else ""
  }

  type Hash = Bytes -> string

  /** A recorded checksum is missing, empty or true. */
  ghost predicate TrueSums(objects: Objects, sha256: Hash) {
    forall k :: k in objects ==> Recorded(objects[k]) in {"", sha256(objects[k].data)}
  }

  // ----- The object store -----

  function Under<T>(objects: map<string, T>, prefix: string): set<string> {
    set k | k in objects && StartsWith(k, prefix)
  }

  function Beyond(keys: set<string>, cursor: Option<string>): set<string> {
    set k | k in keys && (cursor.None? || Less(cursor.value, k))
  }

  class Bucket {
    var objects: Objects
    var calls: nat
    const weather: nat -> Weather

    constructor (weather: nat -> Weather)
      ensures objects == map[] && this.weather == weather
    {
      objects, calls, this.weather := map[], 0, weather;
    }

    ghost predicate Calm() {
      forall i: nat :: weather(i) == Fine
    }

    method Head(key: string) returns (r: Result<StoredObject, StorageError>)
      modifies this`calls
      ensures r.Success? ==> key in objects && r.value == objects[key]
      ensures r.Failure? ==> r.error == Unavailable || (r.error == NotFound && key !in objects)
      ensures Calm() ==> (r.Success? <==> key in objects) && r != Failure(Unavailable)
    {
      calls := calls + 1;
      return if weather(calls - 1) != Fine then Failure(Unavailable)
             else if key in objects then Success(objects[key]) else Failure(NotFound);
    }

    /** `put_object`, with If-None-Match when onlyIfAbsent. */
    method Put(key: string, o: StoredObject, onlyIfAbsent: bool) returns (r: Result<(), StorageError>)
      modifies this
      ensures r.Success? ==> objects == old(objects)[key := o]
      ensures r.Failure? ==>
                || objects == old(objects)
                || (r.error == Unavailable && objects == old(objects)[key := o])
      ensures onlyIfAbsent && key in old(objects) ==> r.Failure? && objects == old(objects)
      ensures Calm() ==> r == if onlyIfAbsent && key in old(objects) then Failure(AlreadyExists) else Success(())
    {
      calls := calls + 1;
      if weather(calls - 1) == Refused {
        return Failure(Unavailable);
      }
      if onlyIfAbsent && key in objects {
        return Failure(AlreadyExists);
      }
      objects := objects[key := o];
      return if weather(calls - 1) == Fine then Success(()) else Failure(Unavailable);
    }

    /** `copy_object`, replacing the metadata when some is given. */
    method CopyObject(source: string, target: string, metadata: Option<map<string, string>>)
      returns (r: Result<(), StorageError>)
      modifies this
      ensures r.Success? ==> source in old(objects) && objects == Copied(old(objects), source, target, metadata)
      ensures r.Failure? ==>
                || objects == old(objects)
                || (source in old(objects) && objects == Copied(old(objects), source, target, metadata))
      ensures Calm() ==> (r.Success? <==> source in old(objects))
    {
      calls := calls + 1;
      if weather(calls - 1) == Refused {
        return Failure(Unavailable);
      }
      if source !in objects {
        return Failure(NotFound);
      }
      objects := Copied(objects, source, target, metadata);
      return if weather(calls - 1) == Fine then Success(()) else Failure(Unavailable);
    }

    /** `delete_object`, which also succeeds on a missing key. */
    method Delete(key: string) returns (r: Result<(), StorageError>)
      modifies this
      ensures r.Success? ==> objects == old(objects) - {key}
      ensures r.Failure? ==> objects == old(objects) || objects == old(objects) - {key}
      ensures Calm() ==> r.Success?
    {
      calls := calls + 1;
      if weather(calls - 1) == Refused {
        return Failure(Unavailable);
      }
      objects := objects - {key};
      return if weather(calls - 1) == Fine then Success(()) else Failure(Unavailable);
    }

    /** `list_objects_v2`: at most maxKeys keys after the cursor, and a cursor when more remain. */
    method ListKeys(prefix: string, cursor: Option<string>, maxKeys: nat)
      returns (r: Result<(seq<string>, Option<string>), StorageError>)
      requires maxKeys > 0
      modifies this`calls
      ensures r.Success? ==>
                var rest := Ascending(Beyond(Under(objects, prefix), cursor));
                if |rest| <= maxKeys then r.value == (rest, None)
                else r.value == (rest[..maxKeys], Some(rest[maxKeys - 1]))
      ensures Calm() ==> r.Success?
    {
      calls := calls + 1;
      if weather(calls - 1) != Fine {
        return Failure(Unavailable);
      }
      var rest := InOrder(Beyond(Under(objects, prefix), cursor));
      return Success(if |rest| <= maxKeys then (rest, None) else (rest[..maxKeys], Some(rest[maxKeys - 1])));
    }
  }

  function Copied(objects: Objects, source: string, target: string, metadata: Option<map<string, string>>): Objects
    requires source in objects
  {
    var o := objects[source];
    objects[target := if metadata.Some? then o.(metadata := metadata.value) else o]
  }

  // ----- The store -----

  datatype PublishResult = PublishResult(
    staging: string, final: string, checksum: string, stagingDeleted: bool, stagingDeleteFailed: bool)

  /** What an accepted write puts under the key. */
  function Written(data: Bytes, metadata: seq<(string, string)>, sha256: Hash): StoredObject {
    StoredObject(data, MetadataWithChecksum(metadata, sha256(data)))
  }

  class S3Storage {
    const client: Bucket
    const sha256: Hash

    constructor (client: Bucket, sha256: Hash)
      ensures this.client == client && this.sha256 == sha256
    {
      this.client, this.sha256 := client, sha256;
    }

    method Stat(key: string) returns (r: Result<StoredObject, StorageError>)
      modifies client`calls
      ensures r.Success? ==>
                ValidateKey(key).Some? && ValidateKey(key).value in client.objects
                && r.value == client.objects[ValidateKey(key).value]
      ensures r.Failure? ==> r.error in {NotFound, Unavailable, InvalidKey}
      ensures r == Failure(NotFound) ==> ValidateKey(key).Some? && ValidateKey(key).value !in client.objects
      ensures client.Calm() && ValidateKey(key).Some? ==>
                (r.Success? <==> ValidateKey(key).value in client.objects) && r != Failure(Unavailable)
                && r != Failure(InvalidKey)
    {
      var value := ValidateKey(key);
      if value.None? {
        return Failure(InvalidKey);
      }
      r := client.Head(value.value);
    }

    /** `_check_write_allowed` */
    method CheckWriteAllowed(key: string, overwrite: bool, expectedVersion: string)
      returns (r: Result<(), StorageError>)
      requires ValidateKey(key) == Some(key)
      modifies client`calls
      ensures r.Success? ==> expectedVersion == "" && (overwrite || key !in client.objects)
      ensures client.Calm() ==> (r.Success? <==> expectedVersion == "" && (overwrite || key !in client.objects))
    {
      if expectedVersion != "" {
        return Failure(UnsupportedPrecondition);
      }
      if !overwrite {
        var s := Stat(key);
        if s.Success? {
          return Failure(AlreadyExists);
        }
        if s.error != NotFound {
          return Failure(s.error);
        }
      }
      return Success(());
    }

    /** `put_bytes`: the object is written with its true checksum, or nothing is. */
    method PutBytes(
      key: string, data: Bytes, overwrite: bool, expectedVersion: string, metadata: seq<(string, string)>,
      checksum: string) returns (r: Result<string, StorageError>)
      modifies client
      ensures r.Success? ==>
                && ValidateKey(key).Some?
                && client.objects == old(client.objects)[ValidateKey(key).value := Written(data, metadata, sha256)]
                && r.value == sha256(data) && (overwrite || ValidateKey(key).value !in old(client.objects))
      ensures r.Failure? ==>
                || client.objects == old(client.objects)
                || (r.error == Unavailable && ValidateKey(key).Some?
                    && client.objects == old(client.objects)[ValidateKey(key).value := Written(data, metadata, sha256)])
      ensures client.Calm() ==>
                (r.Success? <==>
                   && ValidateKey(key).Some? && checksum in {"", sha256(data)} && expectedVersion == ""
                   && (overwrite || ValidateKey(key).value !in old(client.objects)))
      ensures TrueSums(old(client.objects), sha256) ==> TrueSums(client.objects, sha256)
    {
      hide Strip, SafeKey, TrueSums;
      var value := ValidateKey(key);
      if value.None? {
        return Failure(InvalidKey);
      }
      ValidateKeyIdempotent(key);
      var sum := if checksum != "" then checksum else sha256(data);
      if sum != sha256(data) {
        return Failure(ChecksumMismatch);
      }
      var allowed := CheckWriteAllowed(value.value, overwrite, expectedVersion);
      match allowed {
        case Failure(e) => return Failure(e);
        case Success(_) =>
      }
      if TrueSums(client.objects, sha256) {
        WritesKeepTrueSums(client.objects, value.value, data, metadata, sha256);
      }
      var put := client.Put(value.value, StoredObject(data, MetadataWithChecksum(metadata, sum)), !overwrite);
      return if put.Failure? then Failure(put.error) else Success(sum);
    }

    /** `copy` */
    method Copy(
      source: string, target: string, overwrite: bool, expectedVersion: string, metadata: seq<(string, string)>)
      returns (r: Result<(), StorageError>)
      modifies client
      ensures r.Success? ==>
                && Copyable(old(client.objects), source, target, overwrite, expectedVersion)
                && client.objects == AfterCopy(old(client.objects), source, target, metadata)
      ensures r.Failure? ==>
                || client.objects == old(client.objects)
                || (Copyable(old(client.objects), source, target, overwrite, expectedVersion)
                    && client.objects == AfterCopy(old(client.objects), source, target, metadata))
      ensures client.Calm() ==>
                (r.Success? <==> Copyable(old(client.objects), source, target, overwrite, expectedVersion))
      ensures TrueSums(old(client.objects), sha256) ==> TrueSums(client.objects, sha256)
    {
      hide Strip, SafeKey, TrueSums;
      var from, to := ValidateKey(source), ValidateKey(target);
      if from.None? || to.None? {
        return Failure(InvalidKey);
      }
      ValidateKeyIdempotent(source);
      ValidateKeyIdempotent(target);
      var allowed := CheckWriteAllowed(to.value, overwrite, expectedVersion);
      match allowed {
        case Failure(e) => return Failure(e);
        case Success(_) =>
      }
      var stat :- Stat(from.value);
      if TrueSums(client.objects, sha256) {
        CopiesKeepTrueSums(client.objects, source, target, metadata, sha256);
      }
      r := client.CopyObject(
        from.value, to.value,
        if metadata != [] then Some(MetadataWithChecksum(metadata, Recorded(stat))) else None);
    }

    /** The recorded checksum, or the computed one when a check is asked for and none is recorded. */
    method ChecksumOf(key: string, o: StoredObject, expected: string) returns (sum: Result<string, StorageError>)
      requires key in client.objects && client.objects[key] == o
      modifies client`calls
      ensures sum.Success? ==> sum.value == Effective(o, expected, sha256)
      ensures client.Calm() ==> sum.Success?
    {
      if expected != "" && Recorded(o) == "" {
        var body :- client.Head(key);
        return Success(sha256(body.data));
      }
      return Success(Recorded(o));
    }

    /** `publish` */
    method Publish(
      staging: string, final: string, expected: string, overwrite: bool, expectedVersion: string, deleteStaging: bool)
      returns (r: Result<PublishResult, StorageError>)
      modifies client
      ensures r.Success? ==>
                && Copyable(old(client.objects), staging, final, overwrite, expectedVersion)
                && Published(old(client.objects), client.objects, ValidateKey(staging).value, ValidateKey(final).value,
                             deleteStaging, r.value)
                && var o := old(client.objects)[ValidateKey(staging).value];
                   && r.value.checksum == Effective(o, expected, sha256)
                   && (expected != "" ==> r.value.checksum == expected)
      ensures r.Failure? ==>
                || client.objects == old(client.objects)
                || (Copyable(old(client.objects), staging, final, overwrite, expectedVersion)
                    && client.objects == AfterCopy(old(client.objects), staging, final, []))
      ensures client.Calm() ==>
                (r.Success? <==>
                   && Copyable(old(client.objects), staging, final, overwrite, expectedVersion)
                   && var o := old(client.objects)[ValidateKey(staging).value];
                      expected == "" || Effective(o, expected, sha256) == expected)
      ensures TrueSums(old(client.objects), sha256) ==> TrueSums(client.objects, sha256)
      ensures r.Success? && expected != "" && TrueSums(old(client.objects), sha256)
              && ValidateKey(staging) != ValidateKey(final) ==>
                ValidateKey(final).value in client.objects
                && sha256(client.objects[ValidateKey(final).value].data) == expected
      ensures client.Calm() && r.Success? && expected != "" && TrueSums(old(client.objects), sha256) ==>
                (HoldsBytes(client.objects, ValidateKey(final).value, expected, sha256) <==>
                 ValidateKey(staging) != ValidateKey(final) || !deleteStaging)
    {
      hide Strip, SafeKey, Effective, Recorded, TrueSums;
      ghost var before := client.objects;
      var from, to := ValidateKey(staging), ValidateKey(final);
      if from.None? || to.None? {
        return Failure(InvalidKey);
      }
      ValidateKeyIdempotent(staging);
      ValidateKeyIdempotent(final);
      var staged :- Stat(from.value);
      var stagedSum :- ChecksumOf(from.value, staged, expected);
      if expected != "" && stagedSum != expected {
        return Failure(ChecksumMismatch);
      }
      var copy := Copy(from.value, to.value, overwrite, expectedVersion, []);
      match copy {
        case Failure(e) => return Failure(e);
        case Success(_) =>
      }
      var published :- Stat(to.value);
      var finalSum :- ChecksumOf(to.value, published, expected);
      if expected != "" && finalSum != expected {
        return Failure(ChecksumMismatch);
      }
      var deleted, failed := false, false;
      if deleteStaging {
        var gone := client.Delete(from.value);
        deleted, failed := gone.Success?, gone.Failure?;
      }
      var result := PublishResult(from.value, to.value, finalSum, deleted, failed);
      if TrueSums(before, sha256) {
        PublishedSums(before, client.objects, from.value, to.value, deleteStaging, result, expected, sha256);
        if expected != "" {
          PublishedBytes(before, client.objects, from.value, to.value, deleteStaging, result, expected, sha256);
        }
      }
      return Success(result);
    }

    method DeleteObject(key: string) returns (r: Result<(), StorageError>)
      modifies client
      ensures r.Success? ==>
                ValidateKey(key).Some? && client.objects == old(client.objects) - {ValidateKey(key).value}
      ensures r.Failure? ==>
                || client.objects == old(client.objects)
                || (ValidateKey(key).Some? && client.objects == old(client.objects) - {ValidateKey(key).value})
      ensures client.Calm() ==> (r.Success? <==> ValidateKey(key).Some?)
      ensures TrueSums(old(client.objects), sha256) ==> TrueSums(client.objects, sha256)
    {
      hide TrueSums;
      var value := ValidateKey(key);
      if value.None? {
        return Failure(InvalidKey);
      }
      if TrueSums(client.objects, sha256) {
        DeletionsKeepTrueSums(client.objects, {value.value}, sha256);
      }
      r := client.Delete(value.value);
    }

    /** `list_page`; every listed key is validated when its URI is made. */
    method ListPage(prefix: string, pageSize: int, cursor: Option<string>)
      returns (r: Result<(seq<string>, Option<string>), StorageError>)
      modifies client`calls
      ensures ValidatePrefix(prefix, false, false).Failure? ==> r.Failure?
      ensures ValidatePrefix(prefix, false, false).Success? ==>
                var rest := Ascending(Beyond(Under(client.objects, Strip(prefix)), cursor));
                var n := PageLimit(pageSize);
                var page := if |rest| <= n then rest else rest[..n];
                && (r.Success? ==> r.value == (page, if |rest| <= n then None else Some(rest[n - 1])) && AllValid(page))
                && (client.Calm() ==> (r.Success? <==> AllValid(page)))
    {
      hide ValidateKey, Ascending, Beyond, Under, Strip;
      var checked := ValidatePrefix(prefix, false, false);
      if checked.Failure? {
        return Failure(InvalidKey);
      }
      var page :- client.ListKeys(checked.value, cursor, PageLimit(pageSize));
      for i := 0 to |page.0|
        invariant AllValid(page.0[..i])
      {
        if ValidateKey(page.0[i]).None? {
          assert !AllValid(page.0);
          return Failure(InvalidKey);
        }
        assert page.0[..i + 1] == page.0[..i] + [page.0[i]];
      }
      assert page.0[..|page.0|] == page.0;
      return Success(page);
    }

    /** `iter_list`: with any page size, all keys under the prefix in order. */
    method IterList(prefix: string, pageSize: int) returns (r: Result<seq<string>, StorageError>)
      modifies client`calls
      ensures ValidatePrefix(prefix, false, false).Failure? ==> r.Failure?
      ensures ValidatePrefix(prefix, false, false).Success? ==>
                var all := Ascending(Under(client.objects, Strip(prefix)));
                && (r.Success? ==> r.value == all && AllValid(all))
                && (client.Calm() ==> (r.Success? <==> AllValid(all)))
    {
      hide ValidateKey, ValidatePrefix, Strip, Ascending, Under, Beyond, AllValid, PageLimit, ListedTo;
      ghost var keys := Under(client.objects, Strip(prefix));
      var listed, cursor := [], None;
      WholeListing(keys);
      while true
        invariant ListedTo(keys, listed, cursor)
        decreases |Ascending(keys)| - |listed|
      {
        ghost var n := PageLimit(pageSize);
        var page := ListPage(prefix, pageSize, cursor);
        OnePage(keys, listed, cursor, n);
        match page {
          case Failure(e) => return Failure(e);
          case Success(_) =>
        }
        listed := listed + page.value.0;
        if page.value.1.None? {
          return Success(listed);
        }
        cursor := page.value.1;
      }
    }

    /** `delete_prefix` */
    method DeletePrefix(prefix: string, requireTrailingSlash: bool, maxObjects: Option<int>)
      returns (r: Result<nat, StorageError>)
      modifies client
      ensures r.Success? ==>
                && Deletable(old(client.objects), prefix, requireTrailingSlash, maxObjects)
                && r.value == |Under(old(client.objects), Strip(prefix))|
                && client.objects == old(client.objects) - Reached(Under(old(client.objects), Strip(prefix)))
      ensures r.Failure? ==>
                exists gone :: gone <= Reached(Under(old(client.objects), Strip(prefix)))
                               && client.objects == old(client.objects) - gone
      ensures !Deletable(old(client.objects), prefix, requireTrailingSlash, maxObjects) ==>
                r.Failure? && client.objects == old(client.objects)
      ensures client.Calm() ==>
                (r.Success? <==> Deletable(old(client.objects), prefix, requireTrailingSlash, maxObjects))
      ensures TrueSums(old(client.objects), sha256) ==> TrueSums(client.objects, sha256)
    {
      hide Strip, ValidateKey, Under, Ascending, DropSlashes, Reached, Elements, AllValid, TrueSums;
      ghost var before := client.objects;
      assert before == before - {} && {} <= Reached(Under(before, Strip(prefix)));
      var checked := ValidatePrefix(prefix, true, requireTrailingSlash);
      if checked.Failure? {
        return Failure(if checked.error == UnsafePrefix then UnsafePrefixDelete else InvalidKey);
      }
      ValidatePrefixAgain(prefix, true, requireTrailingSlash);
      StripTwice(prefix);
      hide ValidatePrefix;
      AscendingOrder(Under(before, checked.value));
      AllListedValid(Under(before, checked.value));
      var keys :- IterList(checked.value, 1000);
      NoneReached(keys);
      hide Deletable;
      if maxObjects.Some? && |keys| > maxObjects.value {
        return Failure(UnsafePrefixDelete);
      }
      for i := 0 to |keys|
        invariant client.objects == before - Reached(Elements(keys[..i]))
        invariant TrueSums(before, sha256) ==> TrueSums(client.objects, sha256)
      {
        ReachedOneMore(keys, i);
        var one := DeleteObject(keys[i]);
        match one {
          case Failure(e) => return Failure(e);
          case Success(_) =>
        }
      }
      assert keys[..|keys|] == keys;
      return Success(|keys|);
    }
  }

  function PageLimit(pageSize: int): (n: nat)
    ensures 1 <= n <= 1000
  {
    if pageSize == 0 || pageSize > 1000 then 1000 else if pageSize < 1 then 1 else pageSize
  }

  ghost predicate AllValid(keys: seq<string>) {
    forall i :: 0 <= i < |keys| ==> ValidateKey(keys[i]).Some?
  }

  ghost function Elements(keys: seq<string>): set<string> {
    set k | k in keys
  }

  /** The keys that deleting these keys really addresses. */
  ghost function Reached(keys: set<string>): set<string> {
    set k | k in keys && ValidateKey(k).Some? :: ValidateKey(k).value
  }

  ghost predicate OwnSpellings(keys: set<string>) {
    forall k :: k in keys ==> ValidateKey(k) == Some(k)
  }

  ghost predicate Deletable<T>(
    objects: map<string, T>, prefix: string, trailingSlash: bool, maxObjects: Option<int>)
  {
    && ValidatePrefix(prefix, true, trailingSlash).Success?
    && (forall k :: k in Under(objects, Strip(prefix)) ==> ValidateKey(k).Some?)
    && (maxObjects.Some? ==> |Under(objects, Strip(prefix))| <= maxObjects.value)
  }

  // ----- Listing and deleting -----

  /** The listing has come as far as the cursor says, and all of it is valid. */
  ghost predicate ListedTo(keys: set<string>, listed: seq<string>, cursor: Option<string>) {
    var all := Ascending(keys);
    listed <= all && AllValid(listed) && Ascending(Beyond(keys, cursor)) == all[|listed|..]
  }

  lemma WholeListing(keys: set<string>)
    ensures ListedTo(keys, [], None)
  {
    assert Beyond(keys, None) == keys;
  }

  /** The last page completes the listing; any other page carries it to the new cursor. */
  lemma OnePage(keys: set<string>, listed: seq<string>, cursor: Option<string>, n: nat)
    requires ListedTo(keys, listed, cursor) && n >= 1
    ensures var rest, all := Ascending(Beyond(keys, cursor)), Ascending(keys);
            if |rest| <= n then listed + rest == all && (AllValid(rest) <==> AllValid(all))
            else
              && (AllValid(rest[..n]) ==> ListedTo(keys, listed + rest[..n], Some(rest[n - 1])))
              && (AllValid(all) ==> AllValid(rest[..n])) && |listed + rest[..n]| <= |all|
  {
    hide Ascending, Beyond, ValidateKey;
    var rest, all := Ascending(Beyond(keys, cursor)), Ascending(keys);
    assert listed + rest == all;
    if |rest| > n {
      assert listed + rest[..n] == all[..|listed| + n] && rest[n - 1] == all[|listed| + n - 1];
      AfterCursor(keys, |listed| + n);
    }
  }

  /** What lies beyond the n-th key of a listing is the rest of it. */
  lemma AfterCursor(keys: set<string>, n: nat)
    requires 0 < n <= |Ascending(keys)|
    ensures Ascending(Beyond(keys, Some(Ascending(keys)[n - 1]))) == Ascending(keys)[n..]
  {
    hide Less;
    var all := Ascending(keys);
    var beyond := Beyond(keys, Some(all[n - 1]));
    AscendingOrder(keys);
    LessIsTotalOrder();
    forall x ensures x in all[n..] <==> x in beyond {
      if x in all[n..] {
        var j :| n <= j < |all| && all[j] == x;
        assert x in all;
      }
      if x in beyond {
        assert x in all;
        var j :| 0 <= j < |all| && all[j] == x;
        assert j >= n;
      }
    }
    AscendingUnique(all[n..], beyond);
  }

  lemma AllListedValid(keys: set<string>)
    ensures AllValid(Ascending(keys)) <==> forall k :: k in keys ==> ValidateKey(k).Some?
    ensures Elements(Ascending(keys)) == keys
  {
    hide ValidateKey;
    var all := Ascending(keys);
    if AllValid(all) {
      forall k | k in keys ensures ValidateKey(k).Some? {
        assert k in all;
      }
    } else {
      var i :| 0 <= i < |all| && ValidateKey(all[i]).None?;
      assert all[i] in all;
    }
  }

  lemma NoneReached(keys: seq<string>)
    ensures Reached(Elements(keys[..0])) == {}
  {
  }

  lemma ReachedOneMore(keys: seq<string>, i: nat)
    requires i < |keys|
    ensures ValidateKey(keys[i]).Some? ==>
              Reached(Elements(keys[..i + 1])) == Reached(Elements(keys[..i])) + {ValidateKey(keys[i]).value}
    ensures ValidateKey(keys[i]).None? ==> Reached(Elements(keys[..i + 1])) == Reached(Elements(keys[..i]))
    ensures Reached(Elements(keys[..i + 1])) <= Reached(Elements(keys))
    ensures Reached(Elements(keys[..i])) <= Reached(Elements(keys))
  {
    hide ValidateKey;
    assert Elements(keys[..i + 1]) == Elements(keys[..i]) + {keys[i]};
    assert Elements(keys[..i + 1]) <= Elements(keys);
  }

  /**
   * A prefix deletion removes exactly the keys under the prefix when each of them is its own validated spelling, and
   * otherwise leaves one of them behind.
   */
  lemma DeletionIsExact(objects: Objects, prefix: string)
    requires forall k :: k in Under(objects, prefix) ==> ValidateKey(k).Some?
    ensures objects - Reached(Under(objects, prefix)) == objects - Under(objects, prefix) <==>
            OwnSpellings(Under(objects, prefix))
  {
    hide ValidateKey;
    var keys := Under(objects, prefix);
    if forall k :: k in keys ==> ValidateKey(k) == Some(k) {
      forall k ensures k in Reached(keys) <==> k in keys {
      }
    } else {
      var k :| k in keys && ValidateKey(k) != Some(k);
      forall other | other in keys ensures ValidateKey(other) != Some(k) {
        ValidateKeyIdempotent(other);
      }
      assert k in objects - Reached(keys) && k !in objects - keys;
    }
  }

  lemma {:induction false} StripRightKeeps(key: string, prefix: string)
    requires prefix <= key && prefix != "" && !IsSpace(prefix[|prefix| - 1])
    ensures prefix <= StripRight(key)
  {
    assert !IsSpace(key[|prefix| - 1]);
    if IsSpace(key[|key| - 1]) {
      StripRightKeeps(key[..|key| - 1], prefix);
    }
  }

  /** A prefix deletion addresses no key outside its prefix. */
  lemma DeletionStaysUnderPrefix(objects: Objects, prefix: string, trailingSlash: bool, maxObjects: Option<int>)
    requires Deletable(objects, prefix, trailingSlash, maxObjects)
    ensures forall v :: v in Reached(Under(objects, Strip(prefix))) ==> StartsWith(v, Strip(prefix))
  {
    hide SafeKey, DropSlashes;
    var p := Strip(prefix);
    StripTrims(prefix);
    forall k | k in Under(objects, p) && ValidateKey(k).Some? ensures StartsWith(ValidateKey(k).value, p) {
      assert StripLeft(k) == k;
      StripRightKeeps(k, p);
    }
  }

  /** The condition is needed: a key with a final blank under the prefix outlives a deletion that succeeds. */
  lemma BlankOutlivesDeletion(o: StoredObject)
    ensures var objects := map["p/a " := o];
            && Deletable(objects, "p/", true, None) && ValidateKey("p/a ") == Some("p/a")
            && "p/a " in objects - Reached(Under(objects, Strip("p/")))
  {
    hide StripLeft, StripRight;
    var objects := map["p/a " := o];
    Spellings();
    assert Under(objects, "p/") == {"p/a "} by {
      assert "p/a "[..2] == "p/";
    }
    assert DropSlashes("p/") == "p" by {
      assert "p/"[..1] == "p";
    }
  }

  lemma Spellings()
    ensures Strip("p/") == "p/" && Strip("p") == "p" && Strip("p/a ") == "p/a"
    ensures SafeKey("p") && SafeKey("p/a")
  {
    assert IsSpace(' ') && !IsSpace('a') && !IsSpace('p') && !IsSpace('/');
    assert "p/a "[..3] == "p/a";
    assert StripLeft("p/a ") == "p/a " && StripRight("p/a ") == StripRight("p/a") == "p/a";
    assert "p/a"[1..] == "/a" && "/a"[1..] == "a" && "a"[1..] == "" && "p"[1..] == "";
    NothingContained();
  }

  lemma NothingContained()
    ensures forall part :: part in {"://", "//", ".."} ==> !Contains("p", part) && !Contains("p/a", part)
  {
    assert "p/a"[1..] == "/a" && "/a"[1..] == "a" && "a"[1..] == "" && "p"[1..] == "";
    forall part | part in {"://", "//", ".."}
      ensures !Contains("", part) && !Contains("a", part) && !Contains("/a", part) && !Contains("p/a", part)
      ensures !Contains("p", part)
    {
      assert part[0] in {':', '/', '.'} && part[1] in {'/', '.'};
    }
  }

  /** The copy is allowed and its source is there. */
  ghost predicate Copyable(
    objects: Objects, source: string, target: string, overwrite: bool, expectedVersion: string)
  {
    && ValidateKey(source).Some? && ValidateKey(target).Some? && expectedVersion == ""
    && (overwrite || ValidateKey(target).value !in objects) && ValidateKey(source).value in objects
  }

  ghost function AfterCopy(objects: Objects, source: string, target: string, metadata: seq<(string, string)>): Objects
    requires Copyable(objects, source, target, true, "")
  {
    var from := ValidateKey(source).value;
    Copied(objects, from, ValidateKey(target).value,
           if metadata != [] then Some(MetadataWithChecksum(metadata, Recorded(objects[from]))) else None)
  }

  /** The checksum `publish` compares with the expected one. */
  function Effective(o: StoredObject, expected: string, sha256: Hash): string {
    if expected != "" && Recorded(o) == "" then sha256(o.data) else Recorded(o)
  }

  /** The final key holds the staged object, and staging is gone or its deletion is reported as failed. */
  ghost predicate Published(
    before: Objects, after: Objects, staging: string, final: string, deleteStaging: bool, r: PublishResult)
    requires staging in before
  {
    var copied := before[final := before[staging]];
    && r.staging == staging && r.final == final
    && (r.stagingDeleted || r.stagingDeleteFailed <==> deleteStaging) && !(r.stagingDeleted && r.stagingDeleteFailed)
    && (r.stagingDeleted ==> after == copied - {staging})
    && (r.stagingDeleteFailed ==> after == copied || after == copied - {staging})
    && (!deleteStaging ==> after == copied)
  }

  // ----- What publication guarantees -----

  /** No operation of the store records a false checksum. */
  lemma WritesKeepTrueSums(
    objects: Objects, key: string, data: Bytes, metadata: seq<(string, string)>, sha256: Hash)
    requires TrueSums(objects, sha256)
    ensures TrueSums(objects[key := Written(data, metadata, sha256)], sha256)
  {
    hide CleanMetadata;
  }

  lemma CopiesKeepTrueSums(
    objects: Objects, source: string, target: string, metadata: seq<(string, string)>, sha256: Hash)
    requires TrueSums(objects, sha256) && Copyable(objects, source, target, true, "")
    ensures TrueSums(AfterCopy(objects, source, target, metadata), sha256)
  {
    hide CleanMetadata, ValidateKey;
  }

  lemma DeletionsKeepTrueSums(objects: Objects, keys: set<string>, sha256: Hash)
    requires TrueSums(objects, sha256)
    ensures TrueSums(objects - keys, sha256)
  {
    hide Recorded;
  }

  /** With true checksums, the one `publish` compares is the hash of the bytes. */
  lemma EffectiveIsTrue(objects: Objects, key: string, expected: string, sha256: Hash)
    requires TrueSums(objects, sha256) && key in objects && expected != ""
    ensures Effective(objects[key], expected, sha256) == sha256(objects[key].data)
  {
  }

  ghost predicate HoldsBytes(objects: Objects, key: string, hash: string, sha256: Hash) {
    key in objects && sha256(objects[key].data) == hash
  }

  /**
   * A publication that returns with an expected hash, and whose deletion of staging did not fail, leaves bytes of that
   * hash under the final key exactly when the validated keys differ or staging was to be kept. If the deletion failed
   * the bytes are there unless the keys are equal and the object went all the same. Every other key is as it was.
   */
  lemma PublishedBytes(
    before: Objects, after: Objects, staging: string, final: string, deleteStaging: bool, r: PublishResult,
    expected: string, sha256: Hash)
    requires TrueSums(before, sha256) && staging in before && expected != ""
    requires Effective(before[staging], expected, sha256) == expected
    requires Published(before, after, staging, final, deleteStaging, r)
    ensures !r.stagingDeleteFailed ==>
              (HoldsBytes(after, final, expected, sha256) <==> staging != final || !deleteStaging)
    ensures r.stagingDeleteFailed ==>
              (HoldsBytes(after, final, expected, sha256) <==> staging != final || staging in after)
    ensures deleteStaging && staging != final ==> staging !in after || r.stagingDeleteFailed
    ensures forall k :: k !in {staging, final} ==>
              (k in after <==> k in before) && (k in after ==> after[k] == before[k])
    ensures TrueSums(after, sha256)
  {
    hide Recorded;
    EffectiveIsTrue(before, staging, expected, sha256);
  }

  /** However a publication ended, the sums are still true, and with different keys the final bytes are the expected. */
  lemma PublishedSums(
    before: Objects, after: Objects, staging: string, final: string, deleteStaging: bool, r: PublishResult,
    expected: string, sha256: Hash)
    requires TrueSums(before, sha256) && staging in before
    requires expected != "" ==> Effective(before[staging], expected, sha256) == expected
    requires Published(before, after, staging, final, deleteStaging, r)
    ensures TrueSums(after, sha256)
    ensures expected != "" && staging != final ==> final in after && sha256(after[final].data) == expected
  {
    hide Recorded;
    if expected != "" {
      PublishedBytes(before, after, staging, final, deleteStaging, r, expected, sha256);
    }
  }

  /** Two spellings that validate to one key: publishing onto it with overwrite and deletion leaves nothing there. */
  lemma PublishOntoItself(before: Objects, o: StoredObject)
    requires "a" in before && before["a"] == o
    ensures ValidateKey("a") == ValidateKey("a ") == Some("a") && Copyable(before, "a", "a ", true, "")
    ensures var r := PublishResult("a", "a", Recorded(o), true, false);
            Published(before, before - {"a"}, "a", "a", true, r)
  {
    assert IsSpace(' ') && !IsSpace('a');
    assert StripLeft("a ") == "a " && StripRight("a ") == "a";
    assert Strip("a") == "a" && Strip("a ") == "a";
    assert SafeKey("a") by {
      assert "a"[1..] == "";
      assert !Contains("", "://") && !Contains("", "//") && !Contains("", "..");
    }
    assert before["a" := before["a"]] == before;
  }
}
