/** Canonical storage keys, tenant and workspace scopes, and the reader URIs that must stay inside them. */
module StorageScope {
  import opened Wrappers
  import opened Text
  import opened ObjectKeys

  /** The segments `_SEGMENT` and `_GLOB_SEGMENT` match. */
  predicate SegmentChar(c: char, glob: bool) {
    || 'a' <= c <= 'z' || 'A' <= c <= 'Z' || '0' <= c <= '9'
    || c in {'_', '.', ':', '=', '-'} || (glob && c in {'*', '?'})
  }

  predicate Segment(part: string, glob: bool) {
    part != "" && part != "." && part != ".." && forall i :: 0 <= i < |part| ==> SegmentChar(part[i], glob)
  }

  predicate AllSegments(parts: seq<string>, glob: bool) {
    forall i :: 0 <= i < |parts| ==> Segment(parts[i], glob)
  }

  predicate Ascii(s: string) {
    forall i :: 0 <= i < |s| ==> s[i] < '\U{80}'
  }

  /** `canonical_storage_key`; None when it raises. ASCII text is its own NFKC form. */
  function CanonicalKey(value: string, glob: bool): Option<string> {
    var raw := Strip(value);
    if raw == "" || raw[0] == '/' || '%' in raw || '\\' in raw || Contains(raw, "//") || !Ascii(raw) || HasControl(raw)
    then None
    else
      var key := if raw[|raw| - 1] == '/' then raw[..|raw| - 1] else raw;
      if AllSegments(Split(key, '/'), glob) then Some(Join(Split(key, '/'), '/')) else None
  }

  /** A key made of segments and nothing else. */
  predicate IsCanonical(key: string, glob: bool) {
    AllSegments(Split(key, '/'), glob)
  }

  lemma {:induction false} KeyChars(parts: seq<string>, glob: bool)
    requires AllSegments(parts, glob) && parts != []
    ensures var key := Join(parts, '/');
            && key != "" && key[0] != '/' && key[|key| - 1] != '/' && !Contains(key, "//")
            && forall i :: 0 <= i < |key| ==> SegmentChar(key[i], glob) || key[i] == '/'
  {
    var first := parts[0];
    assert SegmentChar(first[0], glob) && SegmentChar(first[|first| - 1], glob);
    if |parts| == 1 {
      NoDoubleSlash(first, "", glob);
      assert first + "" == first;
    } else {
      KeyChars(parts[1..], glob);
      var rest := Join(parts[1..], '/');
      var key := Join(parts, '/');
      assert key == first + (['/'] + rest);
      NoDoubleSlash(first, ['/'] + rest, glob);
      assert (['/'] + rest)[1..] == rest;
      assert key[|key| - 1] == rest[|rest| - 1];
    }
  }

  /** Slash-free text in front of a tail without a double slash makes none. */
  lemma {:induction false} NoDoubleSlash(first: string, tail: string, glob: bool)
    requires forall i :: 0 <= i < |first| ==> SegmentChar(first[i], glob)
    requires tail == "" || (tail[0] == '/' && |tail| > 1 && tail[1] != '/' && !Contains(tail[1..], "//"))
    ensures !Contains(first + tail, "//")
  {
    var s := first + tail;
    if first == "" {
      assert s == tail;
      if tail != "" {
        assert tail[1] != "//"[1];
      }
    } else {
      assert s[1..] == first[1..] + tail;
      NoDoubleSlash(first[1..], tail, glob);
      assert s[0] != "//"[0];
    }
  }

  lemma SegmentCharsAreSafe(key: string, glob: bool)
    requires forall i :: 0 <= i < |key| ==> SegmentChar(key[i], glob) || key[i] == '/'
    ensures '%' !in key && '\\' !in key && Ascii(key) && !HasControl(key) && Trimmed(key)
  {
  }

  /** A canonical key with at most one slash appended, and outer blanks, is read as that key. */
  lemma CanonicalReads(key: string, glob: bool, value: string)
    requires IsCanonical(key, glob) && (Strip(value) == key || Strip(value) == key + "/")
    ensures CanonicalKey(value, glob) == Some(key)
  {
    hide Split, Strip, Join, Contains, SegmentChar;
    JoinOfSplit(key, '/');
    KeyChars(Split(key, '/'), glob);
    var raw := Strip(value);
    SlashAtEnd(key);
    assert forall i :: 0 <= i < |raw| ==> SegmentChar(raw[i], glob) || raw[i] == '/';
    SegmentCharsAreSafe(raw, glob);
    assert raw == key + "/" ==> raw[..|raw| - 1] == key;
  }

  lemma {:induction false} SlashAtEnd(key: string)
    requires !Contains(key, "//") && (key == "" || key[|key| - 1] != '/')
    ensures !Contains(key + "/", "//")
  {
    if key == "" {
      assert key + "/" == "/";
      assert ("/")[1..] == "";
    } else {
      assert (key + "/")[1..] == key[1..] + "/";
      assert key[1..] != "" ==> key[1..][|key[1..]| - 1] == key[|key| - 1];
      SlashAtEnd(key[1..]);
      assert "//" <= key + "/" ==> "//" <= key || key == "/";
    }
  }

  /**
   * `canonical_storage_key` accepts exactly the canonical keys, outer blanks and one final slash aside, returns the key
   * itself, and is idempotent.
   */
  lemma CanonicalKeyMeaning(value: string, glob: bool)
    ensures CanonicalKey(value, glob).Some? <==>
              exists key :: IsCanonical(key, glob) && (Strip(value) == key || Strip(value) == key + "/")
    ensures CanonicalKey(value, glob).Some? ==>
              var key := CanonicalKey(value, glob).value;
              && IsCanonical(key, glob) && (Strip(value) == key || Strip(value) == key + "/")
              && key == Join(Split(key, '/'), '/') && CanonicalKey(key, glob) == Some(key)
  {
    hide Split, Strip, Join, Contains, Segment;
    if CanonicalKey(value, glob).Some? {
      var raw := Strip(value);
      var key := if raw[|raw| - 1] == '/' then raw[..|raw| - 1] else raw;
      JoinOfSplit(key, '/');
      assert raw[|raw| - 1] == '/' ==> raw == key + "/";
      CanonicalIsTrimmed(key, glob);
      CanonicalReads(key, glob, key);
    }
    if key :| IsCanonical(key, glob) && (Strip(value) == key || Strip(value) == key + "/") {
      CanonicalReads(key, glob, value);
    }
  }

  lemma CanonicalIsTrimmed(key: string, glob: bool)
    requires IsCanonical(key, glob)
    ensures Strip(key) == key
  {
    hide Split, Strip, Join, Contains, SegmentChar;
    JoinOfSplit(key, '/');
    KeyChars(Split(key, '/'), glob);
    SegmentCharsAreSafe(key, glob);
    StripTrims(key);
  }

  // ----- Scopes -----

  /** `SCOPE_INDEX_BY_ROOT` */
  function ScopeIndex(root: string): Option<nat> {
    if root in {"raw", "silver", "gold", "knowledge_bits"} then Some(3)
    else if root == "uploads" then Some(2) else None
  }

  predicate HasGlob(part: string) {
    '*' in part || '?' in part
  }

  /** The only segment that starts so is the one at place i. */
  ghost predicate OnlyAt(parts: seq<string>, start: string, i: nat) {
    forall j :: 0 <= j < |parts| ==> (start <= parts[j] <==> j == i)
  }

  /** `[index for index, part in enumerate(parts) if part.startswith(start)]` */
  function Positions(parts: seq<string>, start: string): seq<nat> {
    if parts == [] then []
    else
      var n := |parts| - 1;
      Positions(parts[..n], start) + if start <= parts[n] then [n] else []
  }

  lemma {:induction false} PositionsMembers(parts: seq<string>, start: string)
    ensures forall j: nat :: j in Positions(parts, start) <==> j < |parts| && start <= parts[j]
    ensures |Positions(parts, start)| <= 1 || Positions(parts, start)[0] < Positions(parts, start)[1]
    ensures forall m, n :: 0 <= m < n < |Positions(parts, start)| ==>
              Positions(parts, start)[m] < Positions(parts, start)[n]
  {
    if parts != [] {
      var n := |parts| - 1;
      var before := Positions(parts[..n], start);
      PositionsMembers(parts[..n], start);
      assert forall j: nat :: j < n ==> parts[..n][j] == parts[j];
      forall m | 0 <= m < |before| ensures before[m] < n {
        assert before[m] in before;
      }
      forall j: nat ensures j in Positions(parts, start) <==> j < |parts| && start <= parts[j] {
        assert j in before <==> j < n && start <= parts[j];
      }
    }
  }

  lemma PositionsAre(parts: seq<string>, start: string, i: nat)
    requires i < |parts|
    ensures Positions(parts, start) == [i] <==> OnlyAt(parts, start, i)
  {
    hide Positions;
    var positions := Positions(parts, start);
    PositionsMembers(parts, start);
    if positions == [i] {
      assert i in positions;
    }
    if OnlyAt(parts, start, i) {
      assert i in positions;
      forall m | 0 <= m < |positions| ensures positions[m] == i {
        assert positions[m] in positions;
      }
    }
  }

  /** What `has_exact_storage_scope` requires. */
  ghost predicate InScope(key: string, tenant: string, workspace: string) {
    && Strip(tenant) != "" && Strip(workspace) != ""
    && CanonicalKey(key, true).Some?
    && var parts := Split(CanonicalKey(key, true).value, '/');
       ScopeIndex(parts[0]).Some?
       && var i := ScopeIndex(parts[0]).value;
          && i + 1 < |parts| && (forall j :: 0 <= j < i + 2 ==> !HasGlob(parts[j]))
          && OnlyAt(parts, "tenant_id=", i) && OnlyAt(parts, "workspace_id=", i + 1)
          && parts[i] == "tenant_id=" + Strip(tenant) && parts[i + 1] == "workspace_id=" + Strip(workspace)
  }

  /** `has_exact_storage_scope` */
  predicate HasExactStorageScope(key: string, tenant: string, workspace: string) {
    var clean := CanonicalKey(key, true);
    if Strip(tenant) == "" || Strip(workspace) == "" || clean.None? then false
    else
      var parts := Split(clean.value, '/');
      var index := ScopeIndex(parts[0]);
      if index.None? || |parts| <= index.value + 1 then false
      else if exists j :: 0 <= j < index.value + 2 && HasGlob(parts[j]) then false
      else
        && Positions(parts, "tenant_id=") == [index.value] && Positions(parts, "workspace_id=") == [index.value + 1]
        && parts[index.value] == "tenant_id=" + Strip(tenant)
        && parts[index.value + 1] == "workspace_id=" + Strip(workspace)
  }

  lemma ExactScopeMeaning(key: string, tenant: string, workspace: string)
    ensures HasExactStorageScope(key, tenant, workspace) <==> InScope(key, tenant, workspace)
  {
    hide CanonicalKey, Split, Strip, OnlyAt, HasGlob, Positions;
    if CanonicalKey(key, true).Some? {
      var parts := Split(CanonicalKey(key, true).value, '/');
      var index := ScopeIndex(parts[0]);
      if index.Some? && index.value + 1 < |parts| {
        PositionsAre(parts, "tenant_id=", index.value);
        PositionsAre(parts, "workspace_id=", index.value + 1);
      }
    }
  }

  /** A key is in the scope of one trimmed tenant and workspace at most. */
  lemma ScopeIsUnique(key: string, tenant: string, workspace: string, tenant': string, workspace': string)
    requires InScope(key, tenant, workspace) && InScope(key, tenant', workspace')
    ensures Strip(tenant) == Strip(tenant') && Strip(workspace) == Strip(workspace')
  {
    hide CanonicalKey, Split, Strip, OnlyAt, HasGlob;
    var parts := Split(CanonicalKey(key, true).value, '/');
    var i := ScopeIndex(parts[0]).value;
    SamePrefix("tenant_id=", Strip(tenant), Strip(tenant'));
    SamePrefix("workspace_id=", Strip(workspace), Strip(workspace'));
  }

  lemma SamePrefix(prefix: string, a: string, b: string)
    requires prefix + a == prefix + b
    ensures a == b
  {
    assert a == (prefix + a)[|prefix|..] && b == (prefix + b)[|prefix|..];
  }

  // ----- Glob patterns -----

  /** The most liberal reading of a pattern: a star stands for any text, slashes included. */
  ghost predicate Matches(pattern: string, key: string) {
    if pattern == "" then key == ""
    else if pattern[0] == '*' then Matches(pattern[1..], key) || (key != "" && Matches(pattern, key[1..]))
    else key != "" && (pattern[0] == '?' || pattern[0] == key[0]) && Matches(pattern[1..], key[1..])
  }

  lemma {:induction false} LiteralPrefixMatches(literal: string, pattern: string, key: string)
    requires !HasGlob(literal) && Matches(literal + pattern, key)
    ensures literal <= key && Matches(pattern, key[|literal|..])
  {
    if literal == "" {
      assert literal + pattern == pattern && key[0..] == key;
    } else {
      assert (literal + pattern)[1..] == literal[1..] + pattern && literal[0] in literal;
      assert !HasGlob(literal[1..]);
      LiteralPrefixMatches(literal[1..], pattern, key[1..]);
      assert literal == [literal[0]] + literal[1..] && key == [key[0]] + key[1..];
    }
  }

  lemma {:induction false} JoinWithoutGlob(parts: seq<string>)
    requires forall i :: 0 <= i < |parts| ==> !HasGlob(parts[i])
    ensures !HasGlob(Join(parts, '/'))
  {
    if |parts| > 1 {
      JoinWithoutGlob(parts[1..]);
    }
  }

  lemma {:induction false} JoinOfTwo(a: seq<string>, b: seq<string>)
    requires a != [] && b != []
    ensures Join(a + b, '/') == Join(a, '/') + ['/'] + Join(b, '/')
  {
    if |a| == 1 {
      assert (a + b)[1..] == b;
    } else {
      JoinOfTwo(a[1..], b);
      assert (a + b)[1..] == a[1..] + b;
    }
  }

  /** Whatever matches a pattern whose first n segments are literal has those segments itself. */
  lemma LiteralSegments(parts: seq<string>, n: nat, key: string)
    requires 0 < n <= |parts| && (forall i :: 0 <= i < |parts| ==> '/' !in parts[i])
    requires forall i :: 0 <= i < n ==> !HasGlob(parts[i])
    requires Matches(Join(parts, '/'), key)
    ensures n <= |Split(key, '/')| && Split(key, '/')[..n] == parts[..n]
  {
    hide Split, Join, HasGlob, Matches;
    var head := parts[..n];
    JoinWithoutGlob(head);
    if n == |parts| {
      assert head == parts && Join(parts, '/') + "" == Join(parts, '/');
      LiteralPrefixMatches(Join(parts, '/'), "", key);
      EmptyMatches(key[|Join(parts, '/')|..]);
      assert key == Join(parts, '/');
      SplitOfJoin(parts, '/');
    } else {
      JoinOfTwo(head, parts[n..]);
      assert parts == head + parts[n..];
      var literal := Join(head, '/') + ['/'];
      SlashIsLiteral(Join(head, '/'));
      LiteralPrefixMatches(literal, Join(parts[n..], '/'), key);
      var rest := Split(key[|literal|..], '/');
      JoinOfSplit(key[|literal|..], '/');
      JoinOfTwo(head, rest);
      assert key == literal + key[|literal|..];
      SplitOfJoin(head + rest, '/');
      assert (head + rest)[..n] == head;
    }
  }

  lemma EmptyMatches(key: string)
    requires Matches("", key)
    ensures key == ""
  {
  }

  lemma SlashIsLiteral(s: string)
    requires !HasGlob(s)
    ensures !HasGlob(s + ['/'])
  {
  }

  /** Every key an accepted pattern matches lies under the pattern's own tenant and workspace segments. */
  lemma PatternStaysInScope(pattern: string, tenant: string, workspace: string, key: string)
    requires InScope(pattern, tenant, workspace) && Matches(CanonicalKey(pattern, true).value, key)
    ensures var parts, found := Split(CanonicalKey(pattern, true).value, '/'), Split(key, '/');
            var i := ScopeIndex(parts[0]).value;
            && i + 2 <= |found| && found[..i + 2] == parts[..i + 2]
            && found[i] == "tenant_id=" + Strip(tenant) && found[i + 1] == "workspace_id=" + Strip(workspace)
  {
    hide CanonicalKey, Split, Strip, Join, Matches, HasGlob, OnlyAt;
    var clean := CanonicalKey(pattern, true).value;
    var parts := Split(clean, '/');
    CanonicalKeyMeaning(pattern, true);
    JoinOfSplit(clean, '/');
    forall i | 0 <= i < |parts| ensures '/' !in parts[i] {
      assert parts[i] in parts;
    }
    var i := ScopeIndex(parts[0]).value;
    LiteralSegments(parts, i + 2, key);
    var found := Split(key, '/');
    assert found[..i + 2][i] == found[i] && found[..i + 2][i + 1] == found[i + 1];
  }

  // ----- Scope markers -----

  predicate ScopeValue(s: string) {
    s != "" && forall i :: 0 <= i < |s| ==> SegmentChar(s[i], false) && s[i] != '='
  }

  /** first, a scope value, second, a scope value, and perhaps a slash. */
  function ParseMarker(first: string, second: string, marker: string): Option<(string, string)> {
    if !(first <= marker) then None
    else
      var rest := marker[|first|..];
      var tenant, tail := rest[..IndexOf(rest, '/')], rest[IndexOf(rest, '/')..];
      if !(second <= tail) then None
      else
        var workspace := DropSlash(tail[|second|..]);
        if ScopeValue(tenant) && ScopeValue(workspace) then Some((tenant, workspace)) else None
  }

  function DropSlash(s: string): string {
    if s != "" && s[|s| - 1] == '/' then s[..|s| - 1] else s
  }

  /** `parse_required_scope`; None when it raises. */
  function ParseRequiredScope(marker: string): Option<(string, string)> {
    ParseMarker("tenant_id=", "/workspace_id=", marker)
  }

  lemma ParseOfMarker(first: string, second: string, tenant: string, workspace: string, end: string)
    requires second != "" && second[0] == '/' && ScopeValue(tenant) && ScopeValue(workspace) && end in {"", "/"}
    ensures ParseMarker(first, second, first + (tenant + (second + (workspace + end)))) == Some((tenant, workspace))
  {
    hide IndexOf, SegmentChar, ScopeValue;
    NoSlashInScope(tenant);
    NoSlashInScope(workspace);
    var tail := second + (workspace + end);
    var marker := first + (tenant + tail);
    assert marker[|first|..] == tenant + tail;
    IndexOfAfter(tenant, tail, '/');
    assert (tenant + tail)[..|tenant|] == tenant && (tenant + tail)[|tenant|..] == tail;
    assert tail[|second|..] == workspace + end;
    assert DropSlash(workspace + end) == workspace by {
      assert workspace[|workspace| - 1] in workspace;
      assert end == "/" ==> (workspace + end)[..|workspace|] == workspace;
      assert workspace + "" == workspace;
    }
  }

  lemma NoSlashInScope(s: string)
    requires ScopeValue(s)
    ensures '/' !in s && s != ""
  {
  }

  lemma PutSlashBack(s: string) returns (end: string)
    ensures end in {"", "/"} && s == DropSlash(s) + end
  {
    end := if s != "" && s[|s| - 1] == '/' then "/" else "";
  }

  lemma MarkerOfParse(first: string, second: string, marker: string)
    requires ParseMarker(first, second, marker).Some?
    ensures var (tenant, workspace) := ParseMarker(first, second, marker).value;
            && ScopeValue(tenant) && ScopeValue(workspace)
            && exists end :: end in {"", "/"} && marker == first + (tenant + (second + (workspace + end)))
  {
    hide IndexOf, ScopeValue, DropSlash;
    var rest := marker[|first|..];
    var tenant, tail := rest[..IndexOf(rest, '/')], rest[IndexOf(rest, '/')..];
    var last := tail[|second|..];
    assert marker == first + rest;
    assert rest == tenant + tail;
    assert tail == second + last;
    var end := PutSlashBack(last);
  }

  function Marker(tenant: string, workspace: string, end: string): string {
    "tenant_id=" + (tenant + ("/workspace_id=" + (workspace + end)))
  }

  /** Parsing inverts building the marker, with or without a final slash, and accepts nothing else. */
  lemma MarkerRoundTrip(marker: string, tenant: string, workspace: string)
    ensures ParseRequiredScope(marker) == Some((tenant, workspace)) <==>
            && ScopeValue(tenant) && ScopeValue(workspace)
            && exists end :: end in {"", "/"} && marker == Marker(tenant, workspace, end)
  {
    hide ParseMarker, ScopeValue;
    if ParseRequiredScope(marker) == Some((tenant, workspace)) {
      MarkerOfParse("tenant_id=", "/workspace_id=", marker);
      var end :| end in {"", "/"} && marker == "tenant_id=" + (tenant + ("/workspace_id=" + (workspace + end)));
      assert marker == Marker(tenant, workspace, end);
    }
    if ScopeValue(tenant) && ScopeValue(workspace) {
      if end :| end in {"", "/"} && marker == Marker(tenant, workspace, end) {
        ParseOfMarker("tenant_id=", "/workspace_id=", tenant, workspace, end);
      }
    }
  }

  // ----- Reader URIs -----

  datatype UriError = NotCanonical | HasQuery | ForbiddenScheme | WrongPrefix | Traversal | WrongScope

  predicate StartsWithAny(value: string, prefixes: seq<string>) {
    exists i :: 0 <= i < |prefixes| && prefixes[i] <= value
  }

  /** `_reader_prefixes` */
  function ReaderPrefixes(prefixes: seq<string>): seq<string> {
    if prefixes == [] then []
    else
      var last := prefixes[|prefixes| - 1];
      ReaderPrefixes(prefixes[..|prefixes| - 1]) + if last == "" then [] else [DropSlashes(last) + "/"]
  }

  const DENIED_SCHEMES := ["file:", "/", "../", "~", "http:", "https:"]
  const S3_SCHEME := "s3://"

  function OrEmpty(s: Option<string>): string {
    if s.Some? then s.value else ""
  }

  /** `require_scoped_reader_uri` */
  function RequireScopedReaderUri(
    value: string, prefixes: seq<string>, tenant: Option<string>, workspace: Option<string>): Result<string, UriError>
  {
    if value == "" || value != Strip(value) then Failure(NotCanonical)
    else if '?' in value || '#' in value then Failure(HasQuery)
    else if StartsWithAny(Lower(value), DENIED_SCHEMES) then Failure(ForbiddenScheme)
    else if !(S3_SCHEME <= value) then Failure(WrongPrefix)
    else
      var rest := value[|S3_SCHEME|..];
      if ".." in Split(rest, '/') then Failure(Traversal)
      else if CanonicalKey(rest, true) != Some(rest) || '/' !in rest then Failure(NotCanonical)
      else if !StartsWithAny(value, ReaderPrefixes(prefixes)) then Failure(WrongPrefix)
      else if tenant.None? && workspace.None? then Success(value)
      else if !HasExactStorageScope(rest[IndexOf(rest, '/') + 1..], OrEmpty(tenant), OrEmpty(workspace))
      then Failure(WrongScope)
      else Success(value)
  }

  /** The key part of a reader URI, after the bucket. */
  function UriKey(uri: string): string
    requires S3_SCHEME <= uri && '/' in uri[|S3_SCHEME|..]
  {
    var rest := uri[|S3_SCHEME|..];
    rest[IndexOf(rest, '/') + 1..]
  }

  /**
   * A reader URI accepted for a tenant and a workspace is an s3 URI under one of the allowed prefixes, and every object
   * its key pattern matches carries that tenant and workspace in its own path.
   */
  lemma ReaderStaysInScope(
    uri: string, prefixes: seq<string>, tenant: string, workspace: string, key: string)
    requires RequireScopedReaderUri(uri, prefixes, Some(tenant), Some(workspace)).Success?
    ensures S3_SCHEME <= uri && '/' in uri[|S3_SCHEME|..] && StartsWithAny(uri, ReaderPrefixes(prefixes))
    ensures CanonicalKey(UriKey(uri), true).Some?
    ensures Matches(CanonicalKey(UriKey(uri), true).value, key) ==>
              exists i: nat :: 2 <= i <= 3 && i + 2 <= |Split(key, '/')|
                               && Split(key, '/')[i] == "tenant_id=" + Strip(tenant)
                               && Split(key, '/')[i + 1] == "workspace_id=" + Strip(workspace)
  {
    hide CanonicalKey, Split, Strip, Matches, HasExactStorageScope, StartsWithAny, Lower, IndexOf;
    var pattern := UriKey(uri);
    ExactScopeMeaning(pattern, tenant, workspace);
    ScopedIsCanonical(pattern, tenant, workspace);
    if Matches(CanonicalKey(pattern, true).value, key) {
      PatternStaysInScope(pattern, tenant, workspace, key);
    }
  }

  lemma ScopedIsCanonical(key: string, tenant: string, workspace: string)
    requires InScope(key, tenant, workspace)
    ensures CanonicalKey(key, true).Some?
    ensures 2 <= ScopeIndex(Split(CanonicalKey(key, true).value, '/')[0]).value <= 3
  {
    hide CanonicalKey, Split, Strip, OnlyAt, HasGlob;
  }
}
