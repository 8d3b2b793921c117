/** The release inspector: a paged list scan between two lookups of the tag. */
module ReleaseInspection {
  import opened Wrappers
  import opened Text
  import opened Sorting
  import opened Json

  const PAGE_SIZE := 100
  const MAX_PAGES := 100

  datatype Request = ByTag(tag: string) | Page(number: nat)

  datatype Response = Response(status: int, payload: Value)

  /** What the server answers to the i-th call. */
  type Fetcher = (nat, Request) -> Response

  datatype Metadata = Metadata(title: string, body: string, prerelease: bool, target: string, assets: seq<string>)

  /** A draft is mutable, a present release is immutable. */
  datatype Report = Absent(tag: string) | Draft(tag: string, meta: Metadata) | Present(tag: string, meta: Metadata)

  datatype InspectionError =
    | HttpStatus | ListInvalid | EntryInvalid | NotAdvancing | PaginationCap | Unsettled

  // ----- Reading one release -----

  predicate LineOfText(s: string) {
    s != "" && |s| <= 255 && '\n' !in s && '\r' !in s
  }

  predicate HasId(p: Value) {
    Get(p, "id").Int? && Get(p, "id").n > 0
  }

  predicate ValidAsset(a: Value) {
    Get(a, "name").Str? && LineOfText(Get(a, "name").s)
  }

  predicate ValidAssets(assets: seq<Value>) {
    forall i :: 0 <= i < |assets| ==> ValidAsset(assets[i])
  }

  function AssetNames(assets: seq<Value>): seq<string>
    requires ValidAssets(assets)
  {
    if assets == [] then []
    else AssetNames(assets[..|assets| - 1]) + [Get(assets[|assets| - 1], "name").s]
  }

  predicate HasMetadata(p: Value) {
    && Get(p, "assets").Arr? && ValidAssets(Get(p, "assets").items)
    && Get(p, "name").Str? && Get(p, "body").Str? && Get(p, "prerelease").Bool?
    && Get(p, "target_commitish").Str? && Get(p, "target_commitish").s != ""
  }

  function MetadataOf(p: Value): Metadata
    requires HasMetadata(p)
  {
    Metadata(Get(p, "name").s, Get(p, "body").s, Get(p, "prerelease").b, Get(p, "target_commitish").s,
             Sort(AssetNames(Get(p, "assets").items), Less))
  }

  /** `_normalize_release`: the release id and the report, or None when it raises. */
  function Normalize(p: Value, tag: string, draft: bool): Option<(int, Report)> {
    if !p.Obj? || Get(p, "tag_name") != Str(tag) || !HasId(p) then None
    else if Get(p, "draft") != Bool(draft) || Get(p, "immutable") != Bool(!draft) || !HasMetadata(p) then None
    else Some((Get(p, "id").n, if draft then Draft(tag, MetadataOf(p)) else Present(tag, MetadataOf(p))))
  }

  /** `_validate_list_entry` */
  predicate ValidEntry(p: Value) {
    p.Obj? && HasId(p) && Get(p, "tag_name").Str? && LineOfText(Get(p, "tag_name").s) && Get(p, "draft").Bool?
  }

  // ----- What one inspection concludes -----

  predicate PageRead(r: Response) {
    r.status == 200 && r.payload.Arr? && |r.payload.items| <= PAGE_SIZE
  }

  function Items(fetch: Fetcher, n: nat): seq<Value> {
    var p := fetch(n, Page(n)).payload;
    if p.Arr? then p.items else []
  }

  /** Everything the first n pages listed. */
  function Listed(fetch: Fetcher, n: nat): seq<Value> {
    if n == 0 then [] else Listed(fetch, n - 1) + Items(fetch, n)
  }

  /** Valid entries, no id twice. */
  ghost predicate Clean(entries: seq<Value>) {
    && (forall i :: 0 <= i < |entries| ==> ValidEntry(entries[i]))
    && forall i, j :: 0 <= i < j < |entries| ==> Get(entries[i], "id") != Get(entries[j], "id")
  }

  ghost predicate FullPages(fetch: Fetcher, n: nat) {
    forall k: nat :: 1 <= k <= n ==> PageRead(fetch(k, Page(k))) && |Items(fetch, k)| == PAGE_SIZE
  }

  /** The scan ended with page n, the first that was not full. */
  ghost predicate Scanned(fetch: Fetcher, n: nat) {
    && 1 <= n <= MAX_PAGES && FullPages(fetch, n - 1)
    && PageRead(fetch(n, Page(n))) && |Items(fetch, n)| < PAGE_SIZE && Clean(Listed(fetch, n))
  }

  function Matches(entries: seq<Value>, tag: string): seq<Value> {
    if entries == [] then []
    else
      var last := entries[|entries| - 1];
      Matches(entries[..|entries| - 1], tag) + if Get(last, "tag_name") == Str(tag) then [last] else []
  }

  /** The end of `inspect_release`: the matches against the second lookup. */
  function Settle(tag: string, matches: seq<Value>, settled: Response): Option<Report> {
    if |matches| > 1 then None
    else if matches == [] then
      if settled.status == 200 then
        var now := Normalize(settled.payload, tag, false);
        if now.Some? then Some(now.value.1) else None
      else if settled.status == 404 then Some(Absent(tag)) else None
    else
      var listed := Normalize(matches[0], tag, Get(matches[0], "draft") == Bool(true));
      if listed.None? then None
      else if settled.status == 200 then
        var now := Normalize(settled.payload, tag, false);
        if now.None? || now.value.0 != listed.value.0 || now.value.1.meta != listed.value.1.meta then None
        else Some(now.value.1)
      else if settled.status != 404 || !listed.value.1.Draft? then None
      else Some(listed.value.1)
  }

  /** The inspection returns this report. */
  ghost predicate Concludes(fetch: Fetcher, tag: string, report: Report) {
    var first := fetch(0, ByTag(tag));
    || (first.status == 200 && Normalize(first.payload, tag, false).Some?
        && report == Normalize(first.payload, tag, false).value.1)
    || (first.status == 404 && exists n: nat ::
          Scanned(fetch, n)
          && Settle(tag, Matches(Listed(fetch, n), tag), fetch(n + 1, ByTag(tag))) == Some(report))
  }

  // ----- The inspector -----

  function Ids(entries: seq<Value>): set<Value> {
    set e | e in entries :: Get(e, "id")
  }

  /** One page of the list. */
  method ReadPage(page: seq<Value>, tag: string, seen: set<Value>, matches: seq<Value>, ghost before: seq<Value>)
    returns (r: Result<(set<Value>, seq<Value>), InspectionError>)
    requires Clean(before) && seen == Ids(before) && matches == Matches(before, tag)
    ensures r.Success? <==> Clean(before + page)
    ensures r.Success? ==> r.value == (Ids(before + page), Matches(before + page, tag))
  {
    hide Clean, Ids, Matches, ValidEntry;
    var ids, found := seen, matches;
    assert before + page[..0] == before;
    for i := 0 to |page|
      invariant Clean(before + page[..i])
      invariant ids == Ids(before + page[..i]) && found == Matches(before + page[..i], tag)
    {
      var entry := page[i];
      OneEntry(before + page[..i], entry, tag);
      assert before + page[..i] + [entry] == before + page[..i + 1];
      PrefixClean(before, page, i + 1);
      if !ValidEntry(entry) {
        return Failure(EntryInvalid);
      }
      if Get(entry, "id") in ids {
        return Failure(NotAdvancing);
      }
      ids := ids + {Get(entry, "id")};
      if Get(entry, "tag_name") == Str(tag) {
        found := found + [entry];
      }
    }
    assert page[..|page|] == page;
    return Success((ids, found));
  }

  lemma OneEntry(entries: seq<Value>, e: Value, tag: string)
    requires Clean(entries)
    ensures Clean(entries + [e]) <==> ValidEntry(e) && Get(e, "id") !in Ids(entries)
    ensures Ids(entries + [e]) == Ids(entries) + {Get(e, "id")}
    ensures Matches(entries + [e], tag)
         == Matches(entries, tag) + if Get(e, "tag_name") == Str(tag) then [e] else []
  {
    hide ValidEntry;
    var all := entries + [e];
    assert all[..|all| - 1] == entries && all[|entries|] == e;
    assert forall i :: 0 <= i < |entries| ==> all[i] == entries[i];
    forall x ensures x in Ids(all) <==> x in Ids(entries) + {Get(e, "id")} {
      assert forall y :: y in all <==> y in entries || y == e;
    }
  }

  lemma PrefixClean(before: seq<Value>, page: seq<Value>, i: nat)
    requires i <= |page|
    ensures Clean(before + page) ==> Clean(before + page[..i])
  {
    assert before + page == before + page[..i] + page[i..];
    if Clean(before + page) {
      CleanPrefix(before + page[..i], before + page);
    }
  }

  /** `inspect_release` */
  method InspectRelease(tag: string, fetch: Fetcher) returns (r: Result<Report, InspectionError>)
    ensures r.Success? ==> Concludes(fetch, tag, r.value)
    ensures r.Failure? ==> !exists report :: Concludes(fetch, tag, report)
  {
    hide Clean, Ids, Matches, Normalize, Settle, Listed;
    var first := fetch(0, ByTag(tag));
    if first.status == 200 {
      var now := Normalize(first.payload, tag, false);
      return if now.Some? then Success(now.value.1) else Failure(Unsettled);
    }
    if first.status != 404 {
      return Failure(HttpStatus);
    }
    var seen, matches, n := {}, [], 0;
    Nothing(fetch, tag);
    while n < MAX_PAGES
      invariant 0 <= n <= MAX_PAGES && FullPages(fetch, n)
      invariant Clean(Listed(fetch, n)) && seen == Ids(Listed(fetch, n)) && matches == Matches(Listed(fetch, n), tag)
    {
      hide Scanned, FullPages;
      ghost var before := Listed(fetch, n);
      n := n + 1;
      NextPage(fetch, n);
      var answer := fetch(n, Page(n));
      if !PageRead(answer) {
        return Failure(ListInvalid);
      }
      var page := ReadPage(answer.payload.items, tag, seen, matches, before);
      match page {
        case Failure(e) => return Failure(e);
        case Success(read) => seen, matches := read.0, read.1;
      }
      if |answer.payload.items| < PAGE_SIZE {
        var report := Settle(tag, matches, fetch(n + 1, ByTag(tag)));
        return if report.Some? then Success(report.value) else Failure(Unsettled);
      }
    }
    assert forall m: nat :: !Scanned(fetch, m);
    return Failure(PaginationCap);
  }

  lemma Nothing(fetch: Fetcher, tag: string)
    ensures Clean(Listed(fetch, 0)) && Ids(Listed(fetch, 0)) == {} && Matches(Listed(fetch, 0), tag) == []
  {
  }

  /** The scan can end only with the first page that is not full. */
  lemma NextPage(fetch: Fetcher, n: nat)
    requires 1 <= n <= MAX_PAGES && FullPages(fetch, n - 1)
    ensures Listed(fetch, n) == Listed(fetch, n - 1) + Items(fetch, n)
    ensures PageRead(fetch(n, Page(n))) && |Items(fetch, n)| == PAGE_SIZE ==> FullPages(fetch, n)
    ensures FullPages(fetch, n) || forall m: nat :: Scanned(fetch, m) ==> m == n
    ensures Scanned(fetch, n) <==>
              PageRead(fetch(n, Page(n))) && |Items(fetch, n)| < PAGE_SIZE && Clean(Listed(fetch, n))
    ensures !PageRead(fetch(n, Page(n))) || !Clean(Listed(fetch, n)) ==> forall m: nat :: !Scanned(fetch, m)
  {
    hide Clean, Listed, PageRead, Items;
    ListedAppends(fetch, n);
    forall m: nat | Scanned(fetch, m)
      ensures m >= n && PageRead(fetch(n, Page(n))) && Clean(Listed(fetch, n)) && (m > n ==> FullPages(fetch, n))
    {
      assert 1 <= m < n ==> |Items(fetch, m)| == PAGE_SIZE;
      if m > n {
        assert FullPages(fetch, m - 1);
        ListedPrefix(fetch, n, m);
        CleanPrefix(Listed(fetch, n), Listed(fetch, m));
      }
    }
  }

  lemma ListedAppends(fetch: Fetcher, n: nat)
    requires 1 <= n
    ensures Listed(fetch, n) == Listed(fetch, n - 1) + Items(fetch, n)
  {
  }

  lemma CleanPrefix(some: seq<Value>, entries: seq<Value>)
    requires some <= entries && Clean(entries)
    ensures Clean(some)
  {
    hide ValidEntry;
    assert forall j :: 0 <= j < |some| ==> some[j] == entries[j];
  }

  lemma {:induction false} ListedPrefix(fetch: Fetcher, n: nat, m: nat)
    requires n <= m
    ensures Listed(fetch, n) <= Listed(fetch, m)
  {
    if n < m {
      ListedPrefix(fetch, n, m - 1);
    }
  }
}
