/** The server side of an inspection: a release list that moves while it is read. */
module ReleaseServer {
  import opened Wrappers
  import opened Text
  import opened Sorting
  import opened Json
  import opened ReleaseInspection

  datatype Release = Release(id: int, tag: string, draft: bool, immutable: bool, meta: Metadata)

  /** All releases, newest first. */
  type State = seq<Release>

  function AssetPayloads(names: seq<string>): (assets: seq<Value>)
    ensures |assets| == |names|
    ensures forall i :: 0 <= i < |names| ==> Get(assets[i], "name") == Str(names[i])
  {
    if names == [] then []
    else AssetPayloads(names[..|names| - 1]) + [Obj(map["name" := Str(names[|names| - 1])])]
  }

  function Payload(r: Release): Value {
    Obj(map[
      "id" := Int(r.id), "tag_name" := Str(r.tag), "draft" := Bool(r.draft), "immutable" := Bool(r.immutable),
      "name" := Str(r.meta.title), "body" := Str(r.meta.body), "prerelease" := Bool(r.meta.prerelease),
      "target_commitish" := Str(r.meta.target), "assets" := Arr(AssetPayloads(r.meta.assets))])
  }

  function Payloads(releases: seq<Release>): (entries: seq<Value>)
    ensures |entries| == |releases| && forall i :: 0 <= i < |releases| ==> entries[i] == Payload(releases[i])
  {
    if releases == [] then [] else Payloads(releases[..|releases| - 1]) + [Payload(releases[|releases| - 1])]
  }

  function WithTag(releases: seq<Release>, tag: string): seq<Release> {
    if releases == [] then []
    else
      var last := releases[|releases| - 1];
      WithTag(releases[..|releases| - 1], tag) + if last.tag == tag then [last] else []
  }

  function Published(releases: seq<Release>): seq<Release> {
    if releases == [] then []
    else
      var last := releases[|releases| - 1];
      Published(releases[..|releases| - 1]) + if last.draft then [] else [last]
  }

  /** The tag endpoint sees published releases only. */
  function TagAnswer(state: State, tag: string): Response {
    var found := Published(WithTag(state, tag));
    if found == [] then Response(404, Null) else Response(200, Payload(found[0]))
  }

  function Bound(n: nat, state: State): nat {
    if PAGE_SIZE * n <= |state| then PAGE_SIZE * n else |state|
  }

  function PageOf(state: State, n: nat): seq<Release> {
    if n == 0 then [] else state[Bound(n - 1, state)..Bound(n, state)]
  }

  function Answer(state: State, q: Request): Response {
    match q
    case ByTag(tag) => TagAnswer(state, tag)
    case Page(n) => Response(200, Arr(Payloads(PageOf(state, n))))
  }

  /** Releases are added at the head; the others keep their place, id and tag, and a published one stays published. */
  ghost predicate Evolves(s: State, t: State) {
    && |s| <= |t|
    && forall i :: 0 <= i < |s| ==>
         var r := t[i + |t| - |s|];
         r.id == s[i].id && r.tag == s[i].tag && (!s[i].draft ==> !r.draft)
  }

  type History = nat -> State

  ghost predicate MovesAt(h: History, i: nat) {
    Evolves(h(i), h(i + 1))
  }

  ghost predicate Moves(h: History) {
    forall i: nat :: MovesAt(h, i)
  }

  /** The i-th call sees the i-th state, or fails with another status. */
  ghost predicate Honest(fetch: Fetcher, h: History) {
    forall i: nat, q: Request :: fetch(i, q) == Answer(h(i), q) || fetch(i, q).status !in {200, 404}
  }

  function ReportOf(r: Release): Report {
    var meta := r.meta.(assets := Sort(r.meta.assets, Less));
    if r.draft then Draft(r.tag, meta) else Present(r.tag, meta)
  }

  /** The report is what a look at this one state would show. */
  ghost predicate TrueIn(state: State, tag: string, report: Report) {
    if report.Absent? then report.tag == tag && forall i :: 0 <= i < |state| ==> state[i].tag != tag
    else exists i :: 0 <= i < |state| && state[i].tag == tag && report == ReportOf(state[i])
  }

  // ----- Payloads read back -----

  lemma PayloadFields(r: Release)
    ensures var p := Payload(r);
            && Get(p, "id") == Int(r.id) && Get(p, "tag_name") == Str(r.tag) && Get(p, "draft") == Bool(r.draft)
            && Get(p, "immutable") == Bool(r.immutable) && Get(p, "name") == Str(r.meta.title)
            && Get(p, "body") == Str(r.meta.body) && Get(p, "prerelease") == Bool(r.meta.prerelease)
            && Get(p, "target_commitish") == Str(r.meta.target)
            && Get(p, "assets") == Arr(AssetPayloads(r.meta.assets))
  {
    assert "id" != "name" && "tag_name" != "name" && "body" != "name" && "draft" != "assets";
  }

  lemma {:induction false} NamesReadBack(names: seq<string>)
    requires ValidAssets(AssetPayloads(names))
    ensures AssetNames(AssetPayloads(names)) == names
  {
    if names != [] {
      var init := names[..|names| - 1];
      assert AssetPayloads(names)[..|names| - 1] == AssetPayloads(init);
      NamesReadBack(init);
    }
  }

  predicate ValidMeta(m: Metadata) {
    m.target != "" && forall i :: 0 <= i < |m.assets| ==> LineOfText(m.assets[i])
  }

  /** A served release is reported as it is, or refused. */
  lemma NormalizeServed(r: Release, tag: string, draft: bool)
    ensures Normalize(Payload(r), tag, draft).Some? <==>
              r.tag == tag && r.id > 0 && r.draft == draft && r.immutable == !draft && ValidMeta(r.meta)
    ensures Normalize(Payload(r), tag, draft).Some? ==>
              Normalize(Payload(r), tag, draft).value == (r.id, ReportOf(r))
  {
    hide Payload, AssetPayloads, AssetNames, LineOfText, Sort;
    PayloadFields(r);
    assert ValidAssets(AssetPayloads(r.meta.assets)) <==>
           forall i :: 0 <= i < |r.meta.assets| ==> LineOfText(r.meta.assets[i]) by {
      var assets := AssetPayloads(r.meta.assets);
      assert forall i :: 0 <= i < |assets| ==> (ValidAsset(assets[i]) <==> LineOfText(r.meta.assets[i]));
    }
    if ValidAssets(AssetPayloads(r.meta.assets)) {
      NamesReadBack(r.meta.assets);
    }
  }

  lemma {:induction false} WithTagMembers(releases: seq<Release>, tag: string)
    ensures forall r :: r in WithTag(releases, tag) <==> r in releases && r.tag == tag
  {
    if releases != [] {
      WithTagMembers(releases[..|releases| - 1], tag);
      assert releases == releases[..|releases| - 1] + [releases[|releases| - 1]];
    }
  }

  lemma {:induction false} PublishedMembers(releases: seq<Release>)
    ensures forall r :: r in Published(releases) <==> r in releases && !r.draft
  {
    if releases != [] {
      PublishedMembers(releases[..|releases| - 1]);
      assert releases == releases[..|releases| - 1] + [releases[|releases| - 1]];
    }
  }

  lemma {:induction false} MatchesServed(releases: seq<Release>, tag: string)
    ensures Matches(Payloads(releases), tag) == Payloads(WithTag(releases, tag))
  {
    hide Payload;
    if releases != [] {
      var init, last := releases[..|releases| - 1], releases[|releases| - 1];
      PayloadFields(last);
      MatchesServed(init, tag);
      assert Payloads(releases)[..|releases| - 1] == Payloads(init);
      assert last.tag == tag ==> WithTag(releases, tag)[..|WithTag(init, tag)|] == WithTag(init, tag);
    }
  }

  // ----- Nothing is skipped -----

  lemma {:induction false} EvolvesTo(h: History, i: nat, j: nat)
    requires Moves(h) && i <= j
    ensures Evolves(h(i), h(j))
  {
    if i < j {
      EvolvesTo(h, i, j - 1);
      assert MovesAt(h, j - 1);
    }
  }

  ghost predicate Lists(entries: seq<Value>, r: Release) {
    exists i :: 0 <= i < |entries| && Get(entries[i], "id") == Int(r.id) && Get(entries[i], "tag_name") == Str(r.tag)
  }

  /** Where the release at place p of the first state is at instant n. */
  function Place(h: History, p: nat, n: nat): int {
    p + |h(n)| - |h(1)|
  }

  /** After n full pages, the release was listed or lies behind everything read. */
  lemma {:induction false} ListedOrBehind(fetch: Fetcher, h: History, p: nat, n: nat)
    requires Moves(h) && Honest(fetch, h) && p < |h(1)| && FullPages(fetch, n)
    ensures Lists(Listed(fetch, n), h(1)[p]) || n == 0 || Place(h, p, n) >= PAGE_SIZE * n
  {
    hide Lists, Listed, Moves, Honest, PageRead, Items;
    if n > 0 {
      ListedOrBehind(fetch, h, p, n - 1);
      ReadsPage(fetch, h, p, n);
    }
  }

  /** A page that is read lists the release if the release is not before it and not behind it. */
  lemma ReadsPage(fetch: Fetcher, h: History, p: nat, n: nat)
    requires Moves(h) && Honest(fetch, h) && p < |h(1)| && n >= 1 && PageRead(fetch(n, Page(n)))
    requires Lists(Listed(fetch, n - 1), h(1)[p]) || n == 1 || Place(h, p, n - 1) >= PAGE_SIZE * (n - 1)
    ensures || Lists(Listed(fetch, n), h(1)[p])
            || (Place(h, p, n) >= PAGE_SIZE * n && |Items(fetch, n)| == PAGE_SIZE)
  {
    hide Payload, Lists, Listed, Moves;
    var r, state := h(1)[p], h(n);
    EvolvesTo(h, 1, n);
    assert n > 1 ==> Evolves(h(n - 1), h(n)) by {
      if n > 1 {
        EvolvesTo(h, n - 1, n);
      }
    }
    ListedAppends(fetch, n);
    assert fetch(n, Page(n)) == Answer(state, Page(n));
    assert Items(fetch, n) == Payloads(PageOf(state, n));
    var at := Place(h, p, n);
    assert 0 <= at < |state| && state[at].id == r.id && state[at].tag == r.tag;
    if Lists(Listed(fetch, n - 1), r) {
      ListsMore(Listed(fetch, n - 1), Items(fetch, n), r);
    } else if at < PAGE_SIZE * n {
      var low := Bound(n - 1, state);
      assert low == PAGE_SIZE * (n - 1) && low <= at < Bound(n, state);
      assert PageOf(state, n)[at - low] == state[at];
      PayloadFields(state[at]);
      assert Lists(Items(fetch, n), r) by {
        ListsAt(Items(fetch, n), at - low, r);
      }
      ListsMore(Listed(fetch, n - 1), Items(fetch, n), r);
    }
  }

  lemma ListsAt(entries: seq<Value>, i: nat, r: Release)
    requires i < |entries| && Get(entries[i], "id") == Int(r.id) && Get(entries[i], "tag_name") == Str(r.tag)
    ensures Lists(entries, r)
  {
  }

  lemma ListsMore(some: seq<Value>, more: seq<Value>, r: Release)
    ensures Lists(some, r) || Lists(more, r) ==> Lists(some + more, r)
  {
    var all := some + more;
    if i :| 0 <= i < |some| && Get(some[i], "id") == Int(r.id) && Get(some[i], "tag_name") == Str(r.tag) {
      ListsAt(all, i, r);
      assert all[i] == some[i];
    }
    if i :| 0 <= i < |more| && Get(more[i], "id") == Int(r.id) && Get(more[i], "tag_name") == Str(r.tag) {
      assert all[|some| + i] == more[i];
      ListsAt(all, |some| + i, r);
    }
  }

  /** A release that is there when the list is first read is found, whatever is added while the list is read. */
  lemma NeverSkipped(fetch: Fetcher, h: History, n: nat, p: nat)
    requires Moves(h) && Honest(fetch, h) && Scanned(fetch, n) && p < |h(1)|
    ensures Lists(Listed(fetch, n), h(1)[p])
  {
    hide Lists, Listed, Clean, Moves, Honest, PageRead, Items;
    ListedOrBehind(fetch, h, p, n - 1);
    ReadsPage(fetch, h, p, n);
  }

  // ----- Every report was true -----

  ghost predicate ServedDuring(h: History, n: nat, e: Value, i: nat) {
    1 <= i <= n && exists k :: 0 <= k < |h(i)| && e == Payload(h(i)[k])
  }

  /** Everything listed is a release of the state its page was read from. */
  lemma {:induction false} ListedIsServed(fetch: Fetcher, h: History, n: nat)
    requires Honest(fetch, h) && forall k: nat :: 1 <= k <= n ==> PageRead(fetch(k, Page(k)))
    ensures forall e :: e in Listed(fetch, n) ==> exists i: nat :: ServedDuring(h, n, e, i)
  {
    hide Payload, Honest, Items, ServedDuring;
    if n > 0 {
      ListedIsServed(fetch, h, n - 1);
      forall e | e in Listed(fetch, n) ensures exists i: nat :: ServedDuring(h, n, e, i) {
        if e in Listed(fetch, n - 1) {
          var i: nat :| ServedDuring(h, n - 1, e, i);
          ServedLater(h, n, e, i);
        } else {
          PageIsServed(fetch, h, n, e);
        }
      }
    }
  }

  lemma ServedLater(h: History, n: nat, e: Value, i: nat)
    requires n >= 1 && ServedDuring(h, n - 1, e, i)
    ensures ServedDuring(h, n, e, i)
  {
  }

  lemma PageIsServed(fetch: Fetcher, h: History, n: nat, e: Value)
    requires Honest(fetch, h) && n >= 1 && PageRead(fetch(n, Page(n))) && e in Items(fetch, n)
    ensures ServedDuring(h, n, e, n)
  {
    hide Payload, Published, WithTag;
    var state := h(n);
    assert fetch(n, Page(n)) == Answer(state, Page(n));
    assert Items(fetch, n) == Payloads(PageOf(state, n));
    var k :| 0 <= k < |Items(fetch, n)| && Items(fetch, n)[k] == e;
    assert PageOf(state, n)[k] == state[Bound(n - 1, state) + k];
  }

  lemma LookupIsTrue(fetch: Fetcher, h: History, i: nat, tag: string)
    requires Honest(fetch, h)
    ensures fetch(i, ByTag(tag)).status == 200 && Normalize(fetch(i, ByTag(tag)).payload, tag, false).Some? ==>
              TrueIn(h(i), tag, Normalize(fetch(i, ByTag(tag)).payload, tag, false).value.1)
    ensures fetch(i, ByTag(tag)).status == 404 ==> forall r :: r in h(i) && r.tag == tag ==> r.draft
  {
    hide Payload, Normalize;
    var found := Published(WithTag(h(i), tag));
    PublishedMembers(WithTag(h(i), tag));
    WithTagMembers(h(i), tag);
    assert fetch(i, ByTag(tag)).status in {200, 404} ==> fetch(i, ByTag(tag)) == TagAnswer(h(i), tag) by {
      assert fetch(i, ByTag(tag)) == Answer(h(i), ByTag(tag)) || fetch(i, ByTag(tag)).status !in {200, 404};
    }
    if found != [] {
      assert found[0] in found;
      var k :| 0 <= k < |h(i)| && h(i)[k] == found[0];
      NormalizeServed(found[0], tag, false);
    }
  }

  lemma {:induction false} MatchesMembers(entries: seq<Value>, tag: string)
    ensures forall e :: e in Matches(entries, tag) <==> e in entries && Get(e, "tag_name") == Str(tag)
  {
    if entries != [] {
      MatchesMembers(entries[..|entries| - 1], tag);
      assert entries == entries[..|entries| - 1] + [entries[|entries| - 1]];
    }
  }

  /** The release with this id and tag is there, and a draft. */
  ghost predicate DraftIn(state: State, tag: string, id: int) {
    exists r :: r in state && r.id == id && r.tag == tag && r.draft
  }

  /** The k-th release of instant i, read during a scan of n pages, is what a draft report says. */
  ghost predicate DraftSeen(h: History, n: nat, tag: string, report: Report, i: nat, k: nat) {
    1 <= i <= n && k < |h(i)| && h(i)[k].tag == tag && h(i)[k].draft && report == ReportOf(h(i)[k])
  }

  /** A draft report was true when one of the n pages was read, and that very release was still a draft at the end. */
  ghost predicate DraftThroughout(h: History, n: nat, tag: string, report: Report) {
    exists i: nat, k: nat :: DraftSeen(h, n, tag, report, i, k) && DraftIn(h(n + 1), tag, h(i)[k].id)
  }

  /**
   * What a report means for the calls 0 to n + 1 of an inspection whose scan ended with page n: present at the first or
   * the last call, a draft during the scan and at the last call, absent when the list was first read.
   */
  ghost predicate TrueDuring(fetch: Fetcher, h: History, n: nat, tag: string, report: Report) {
    && Scanned(fetch, n)
    && match report
       case Present(_, _) => TrueIn(h(n + 1), tag, report)
       case Draft(_, _) => DraftThroughout(h, n, tag, report)
       case Absent(_) => TrueIn(h(1), tag, report)
  }

  /** A listed draft is reported as it was when its page was read, and was still a draft at the end. */
  lemma ListedIsTrue(fetch: Fetcher, h: History, n: nat, tag: string, e: Value)
    requires Moves(h) && Honest(fetch, h) && Scanned(fetch, n) && e in Listed(fetch, n)
    requires Normalize(e, tag, true).Some? && fetch(n + 1, ByTag(tag)).status == 404
    ensures DraftThroughout(h, n, tag, Normalize(e, tag, true).value.1)
  {
    hide Payload, Normalize, Listed, Clean, Moves, Honest;
    ListedIsServed(fetch, h, n);
    var i: nat :| ServedDuring(h, n, e, i);
    var k: nat :| k < |h(i)| && e == Payload(h(i)[k]);
    NormalizeServed(h(i)[k], tag, true);
    assert DraftSeen(h, n, tag, Normalize(e, tag, true).value.1, i, k);
    EvolvesTo(h, i, n + 1);
    var later := h(n + 1)[k + |h(n + 1)| - |h(i)|];
    assert later in h(n + 1) && later.tag == tag && later.id == h(i)[k].id;
    LookupIsTrue(fetch, h, n + 1, tag);
  }

  /**
   * Whatever the server adds and publishes while it is read, and whichever calls fail, a report that is returned was
   * true inside the call: if the first lookup answers it, then at that lookup; otherwise as TrueDuring says.
   */
  lemma InspectionIsTrue(fetch: Fetcher, h: History, tag: string, report: Report)
    requires Moves(h) && Honest(fetch, h) && Concludes(fetch, tag, report)
    ensures if fetch(0, ByTag(tag)).status == 200 then report.Present? && TrueIn(h(0), tag, report)
            else exists n: nat :: TrueDuring(fetch, h, n, tag, report)
  {
    hide Moves, Honest, Scanned, Normalize, TrueIn, TrueDuring, Listed;
    LookupIsTrue(fetch, h, 0, tag);
    NormalizeKinds(fetch(0, ByTag(tag)).payload, tag);
    if fetch(0, ByTag(tag)).status != 200 {
      var n: nat :| Scanned(fetch, n)
                    && Settle(tag, Matches(Listed(fetch, n), tag), fetch(n + 1, ByTag(tag))) == Some(report);
      ScanIsTrue(fetch, h, n, tag, report);
    }
  }

  lemma NormalizeKinds(p: Value, tag: string)
    ensures Normalize(p, tag, false).Some? ==> Normalize(p, tag, false).value.1.Present?
    ensures Normalize(p, tag, true).Some? ==> Normalize(p, tag, true).value.1.Draft?
  {
  }

  lemma ScanIsTrue(fetch: Fetcher, h: History, n: nat, tag: string, report: Report)
    requires Moves(h) && Honest(fetch, h) && Scanned(fetch, n)
    requires Settle(tag, Matches(Listed(fetch, n), tag), fetch(n + 1, ByTag(tag))) == Some(report)
    ensures TrueDuring(fetch, h, n, tag, report)
  {
    hide Moves, Honest, Normalize, TrueIn, DraftThroughout, Listed, Matches, Clean;
    var matches, settled := Matches(Listed(fetch, n), tag), fetch(n + 1, ByTag(tag));
    LookupIsTrue(fetch, h, n + 1, tag);
    MatchesMembers(Listed(fetch, n), tag);
    NormalizeKinds(settled.payload, tag);
    if matches == [] {
      NoMatchMeansAbsent(fetch, h, n, tag);
    } else {
      NormalizeKinds(matches[0], tag);
      if report.Draft? {
        assert matches[0] in matches;
        ListedIsTrue(fetch, h, n, tag, matches[0]);
      }
    }
  }

  lemma NoMatchMeansAbsent(fetch: Fetcher, h: History, n: nat, tag: string)
    requires Moves(h) && Honest(fetch, h) && Scanned(fetch, n) && Matches(Listed(fetch, n), tag) == []
    ensures TrueIn(h(1), tag, Absent(tag))
  {
    hide Moves, Honest, Listed, Matches, Scanned, Lists;
    MatchesMembers(Listed(fetch, n), tag);
    forall p | 0 <= p < |h(1)| ensures h(1)[p].tag != tag {
      NeverSkipped(fetch, h, n, p);
      ListsSome(Listed(fetch, n), h(1)[p]);
    }
  }

  lemma ListsSome(entries: seq<Value>, r: Release)
    requires Lists(entries, r)
    ensures exists e :: e in entries && Get(e, "tag_name") == Str(r.tag)
  {
    var i :| 0 <= i < |entries| && Get(entries[i], "id") == Int(r.id) && Get(entries[i], "tag_name") == Str(r.tag);
    assert entries[i] in entries;
  }

  // ----- When nothing moves, the inspection succeeds -----

  predicate ValidRelease(r: Release) {
    r.id > 0 && LineOfText(r.tag) && r.immutable == !r.draft && ValidMeta(r.meta)
  }

  ghost predicate ValidState(state: State, tag: string) {
    && (forall i :: 0 <= i < |state| ==> ValidRelease(state[i]))
    && (forall i, j :: 0 <= i < j < |state| ==> state[i].id != state[j].id)
    && |WithTag(state, tag)| <= 1
  }

  ghost predicate Quiet(fetch: Fetcher, state: State) {
    forall i: nat, q: Request :: fetch(i, q) == Answer(state, q)
  }

  lemma {:induction false} ListedSoFar(fetch: Fetcher, state: State, n: nat)
    requires Quiet(fetch, state)
    ensures Listed(fetch, n) == Payloads(state[..Bound(n, state)])
  {
    hide Payload, Payloads;
    if n > 0 {
      ListedSoFar(fetch, state, n - 1);
      assert fetch(n, Page(n)) == Answer(state, Page(n));
      PayloadsAppend(state[..Bound(n - 1, state)], PageOf(state, n));
      assert state[..Bound(n, state)] == state[..Bound(n - 1, state)] + PageOf(state, n);
    }
  }

  lemma PayloadsAppend(a: seq<Release>, b: seq<Release>)
    ensures Payloads(a + b) == Payloads(a) + Payloads(b)
  {
    hide Payload, Payloads;
  }

  lemma PagesOf(fetch: Fetcher, state: State, n: nat)
    requires Quiet(fetch, state) && n >= 1
    ensures PageRead(fetch(n, Page(n))) && |Items(fetch, n)| == Bound(n, state) - Bound(n - 1, state)
  {
    hide Payload;
    assert fetch(n, Page(n)) == Answer(state, Page(n));
  }

  lemma CleanServed(state: State, tag: string)
    requires ValidState(state, tag)
    ensures Clean(Payloads(state))
  {
    hide Payload, ValidMeta, WithTag, LineOfText;
    forall i | 0 <= i < |state|
      ensures ValidEntry(Payloads(state)[i]) && Get(Payloads(state)[i], "id") == Int(state[i].id)
    {
      assert ValidRelease(state[i]);
      PayloadFields(state[i]);
      PayloadIsObject(state[i]);
    }
  }

  lemma PayloadIsObject(r: Release)
    ensures Payload(r).Obj?
  {
  }

  /**
   * On a quiet server holding valid releases, at most one of them with the tag, an inspection reports exactly when the
   * release is published or the list ends before the page cap.
   */
  lemma QuietInspection(fetch: Fetcher, state: State, tag: string)
    requires Quiet(fetch, state) && ValidState(state, tag)
    ensures (exists report :: Concludes(fetch, tag, report)) <==>
            Published(WithTag(state, tag)) != [] || |state| < PAGE_SIZE * MAX_PAGES
  {
    hide Payload, Normalize, Scanned, Listed, Settle, ValidState;
    var found := WithTag(state, tag);
    assert fetch(0, ByTag(tag)) == Answer(state, ByTag(tag));
    if Published(found) != [] {
      PublishedReads(state, tag);
      assert Concludes(fetch, tag, Normalize(fetch(0, ByTag(tag)).payload, tag, false).value.1);
    } else if |state| < PAGE_SIZE * MAX_PAGES {
      var n := |state| / PAGE_SIZE + 1;
      ScanEnds(fetch, state, tag, n);
      assert fetch(n + 1, ByTag(tag)) == Answer(state, ByTag(tag));
      SettlesQuiet(state, tag);
      assert Concludes(fetch, tag, Settle(tag, Payloads(found), Response(404, Null)).value);
    } else {
      forall n: nat ensures !Scanned(fetch, n) {
        NeverEnds(fetch, state, n);
      }
    }
  }

  lemma PublishedReads(state: State, tag: string)
    requires ValidState(state, tag) && Published(WithTag(state, tag)) != []
    ensures Normalize(Payload(Published(WithTag(state, tag))[0]), tag, false).Some?
  {
    hide Payload, Normalize;
    var found := Published(WithTag(state, tag));
    PublishedMembers(WithTag(state, tag));
    WithTagMembers(state, tag);
    assert found[0] in found;
    NormalizeServed(found[0], tag, false);
  }

  lemma ScanEnds(fetch: Fetcher, state: State, tag: string, n: nat)
    requires Quiet(fetch, state) && ValidState(state, tag)
    requires |state| < PAGE_SIZE * MAX_PAGES && n == |state| / PAGE_SIZE + 1
    ensures Scanned(fetch, n) && Matches(Listed(fetch, n), tag) == Payloads(WithTag(state, tag))
  {
    hide Payload, Clean, ValidState, Quiet, Listed, PageRead, Items, Matches, Payloads, WithTag;
    forall k: nat | 1 <= k <= n - 1 ensures PageRead(fetch(k, Page(k))) && |Items(fetch, k)| == PAGE_SIZE {
      PagesOf(fetch, state, k);
    }
    PagesOf(fetch, state, n);
    ListedSoFar(fetch, state, n);
    assert Bound(n, state) == |state| && state[..|state|] == state;
    CleanServed(state, tag);
    MatchesServed(state, tag);
  }

  lemma SettlesQuiet(state: State, tag: string)
    requires ValidState(state, tag) && Published(WithTag(state, tag)) == []
    ensures Settle(tag, Payloads(WithTag(state, tag)), Response(404, Null)).Some?
  {
    hide Payload, Normalize;
    var found := WithTag(state, tag);
    PublishedMembers(found);
    WithTagMembers(state, tag);
    if found != [] {
      assert found[0] in found && found[0] in state;
      var k :| 0 <= k < |state| && state[k] == found[0];
      assert ValidRelease(state[k]);
      PayloadFields(found[0]);
      NormalizeServed(found[0], tag, true);
      NormalizeKinds(Payload(found[0]), tag);
    }
  }

  lemma NeverEnds(fetch: Fetcher, state: State, n: nat)
    requires Quiet(fetch, state) && |state| >= PAGE_SIZE * MAX_PAGES
    ensures !Scanned(fetch, n)
  {
    hide Listed, Clean, Quiet;
    if 1 <= n {
      PagesOf(fetch, state, n);
      assert n <= MAX_PAGES ==> Bound(n, state) == PAGE_SIZE * n;
    }
  }
}
