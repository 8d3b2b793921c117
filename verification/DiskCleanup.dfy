/** Removing inventoried targets in order until the disk budget is met. */
module DiskCleanup {
  import opened Wrappers
  import opened Text
  import opened Sorting
  import opened DiskTree
  import opened DiskReclaim

  // ----- The index -----

  ghost predicate IndexKey(expected: map<string, Entry>, k: string) {
    exists r :: r in expected &&
                ((KindOf(expected[r].mode) == Directory && DirectoryKey(r) == k) || (r != "." && RPartition(r).0 == k))
  }

  lemma NamesUnderAdd(seen: map<string, Entry>, r: string, e: Entry, k: string)
    ensures NamesUnder(seen[r := e], k)
         == NamesUnder(seen, k) + if r != "." && RPartition(r).0 == k then {RPartition(r).1} else {}
  {
    hide RPartition;
    var after := seen[r := e];
    forall n ensures n in NamesUnder(after, k)
                     <==> n in NamesUnder(seen, k) || (r != "." && RPartition(r) == (k, n)) {
      if n in NamesUnder(after, k) {
        var x :| x in after && x != "." && RPartition(x) == (k, n);
        assert x == r || x in seen;
      }
      if n in NamesUnder(seen, k) {
        var x :| x in seen && x != "." && RPartition(x) == (k, n);
        assert x in after;
      }
      if r != "." && RPartition(r) == (k, n) {
        assert r in after;
      }
    }
  }

  /** The index of the entries in seen is complete: their directories and parents, with the names under each. */
  ghost predicate IndexIs(seen: map<string, Entry>, children: map<string, set<string>>) {
    && (forall k :: k in children <==> IndexKey(seen, k))
    && forall k :: k in children ==> children[k] == NamesUnder(seen, k)
  }

  /** The body of the loop in `_index_expected_children`. */
  function IndexOne(children: map<string, set<string>>, r: string, e: Entry): map<string, set<string>> {
    var own := if KindOf(e.mode) == Directory && DirectoryKey(r) !in children
               then children[DirectoryKey(r) := {}] else children;
    var (parent, name) := RPartition(r);
    if r == "." then own else own[parent := (if parent in own then own[parent] else {}) + {name}]
  }

  /** `_index_expected_children`: one pass over the flat entries, in any order. */
  method IndexExpectedChildren(expected: map<string, Entry>) returns (children: map<string, set<string>>)
    ensures IndexIs(expected, children)
  {
    children := map[];
    var todo := expected.Keys;
    ghost var seen: map<string, Entry> := map[];
    assert IndexIs(seen, children);
    while todo != {}
      invariant seen.Keys !! todo && seen.Keys + todo == expected.Keys
      invariant forall r :: r in seen ==> seen[r] == expected[r]
      invariant IndexIs(seen, children)
    {
      hide IndexIs, IndexOne;
      var relative :| relative in todo;
      IndexStep(seen, relative, expected[relative], children);
      children := IndexOne(children, relative, expected[relative]);
      todo := todo - {relative};
      seen := seen[relative := expected[relative]];
    }
    assert seen == expected;
  }

  /** Adding one entry to the index. */
  lemma IndexStep(seen: map<string, Entry>, r: string, e: Entry, before: map<string, set<string>>)
    requires IndexIs(seen, before) && r !in seen
    ensures IndexIs(seen[r := e], IndexOne(before, r, e))
  {
    hide RPartition, KindOf, DirectoryKey, IndexKey, NamesUnder;
    var after, now := IndexOne(before, r, e), seen[r := e];
    forall k ensures k in after <==> IndexKey(now, k) {
      IndexKeyAdd(seen, r, e, k);
    }
    forall k ensures k in after ==> after[k] == NamesUnder(now, k) {
      NamesUnderAdd(seen, r, e, k);
      NoKeyNoNames(seen, k);
    }
  }

  lemma NoKeyNoNames(seen: map<string, Entry>, k: string)
    ensures IndexKey(seen, k) || NamesUnder(seen, k) == {}
  {
    hide RPartition, KindOf, DirectoryKey;
    if n :| n in NamesUnder(seen, k) {
      var x :| x in seen && x != "." && RPartition(x) == (k, n);
      assert IndexKey(seen, k);
    }
  }

  lemma IndexKeyAdd(seen: map<string, Entry>, r: string, e: Entry, k: string)
    requires r !in seen
    ensures IndexKey(seen[r := e], k) <==>
            || IndexKey(seen, k) || (KindOf(e.mode) == Directory && DirectoryKey(r) == k)
            || (r != "." && RPartition(r).0 == k)
  {
    hide RPartition, KindOf, DirectoryKey;
    var after := seen[r := e];
    assert r in after && after[r] == e;
    if IndexKey(seen, k) {
      var x :| x in seen && ((KindOf(seen[x].mode) == Directory && DirectoryKey(x) == k)
                             || (x != "." && RPartition(x).0 == k));
      assert x in after && after[x] == seen[x];
    }
  }

  // ----- One target -----

  lemma InventoryDescribes(fs: FileTree, target: Target, device: int)
    requires Tree(fs) && target.path != [] && target.path in fs
    requires InventoryOf(fs, target, device).Some?
    ensures Describes(ByPath(InventoryOf(fs, target, device).value.entries), fs, target.path)
  {
    hide RelPath, KindOf, ChainOk, AllAdmissible;
    var path := target.path;
    var list := [EntryFor(".", fs[path])] + Flat(fs, path, path);
    var entries := Sort(list, ByPathOrder);
    SortMembers(list, ByPathOrder);
    FlatMembers(fs, path, path);
    RootKey(path);
    forall e ensures e in entries <==> exists q :: q in fs && path <= q && e == EntryOf(fs, path, q) {
      if e in entries {
        if e == EntryFor(".", fs[path]) {
          assert e == EntryOf(fs, path, path);
        }
      }
      if q :| q in fs && path <= q && e == EntryOf(fs, path, q) {
        if q == path {
          assert e == list[0];
        } else {
          assert Listed(fs, path, path, e);
        }
      }
    }
    forall a, b | a in entries && b in entries && a.path == b.path ensures a == b {
      var p :| p in fs && path <= p && a == EntryOf(fs, path, p);
      var q :| q in fs && path <= q && b == EntryOf(fs, path, q);
      PartsValid(fs, path, p);
      PartsValid(fs, path, q);
      KeyInjective(p[|path|..], q[|path|..]);
      assert p == path + p[|path|..] && q == path + q[|path|..];
    }
    ByPathMembers(entries);
    var expected := ByPath(entries);
    forall r | r in expected ensures exists q :: q in fs && path <= q && r == Key(q[|path|..]) {
      assert expected[r] in entries;
    }
    forall q | q in fs && path <= q
      ensures Key(q[|path|..]) in expected && expected[Key(q[|path|..])] == EntryOf(fs, path, q)
    {
      assert EntryOf(fs, path, q) in entries;
    }
  }

  lemma InventoryIsFaithful(
    fs: FileTree, target: Target, device: int, expected: map<string, Entry>, children: map<string, set<string>>)
    requires Tree(fs) && target.path != [] && target.path in fs
    requires InventoryOf(fs, target, device).Some?
    requires Describes(expected, fs, target.path)
    requires IndexIs(expected, children)
    ensures Faithful(fs, expected, children, fs, target.path, target.path, device)
  {
    hide RPartition, Rel, ChildNames, NamesUnder, ChainOk, Admissible, KindOf;
    var path := target.path;
    forall q | q in fs && path <= q && IsDirectory(fs[q])
      ensures RelPath(q[|path|..]) in children && children[RelPath(q[|path|..])] == ChildNames(fs, q)
    {
      IndexRebuildsChildren(expected, fs, path, q);
      var r := Key(q[|path|..]);
      assert expected[r] == EntryOf(fs, path, q);
      DirectoryKeyOfPath(fs, path, q);
      assert IndexKey(expected, RelPath(q[|path|..])) by {
        assert r in expected && KindOf(expected[r].mode) == Directory && DirectoryKey(r) == RelPath(q[|path|..]);
      }
    }
  }

  lemma DirectoryKeyOfPath(fs: FileTree, root: Path, q: Path)
    requires Tree(fs) && q in fs && root <= q
    ensures DirectoryKey(Key(q[|root|..])) == RelPath(q[|root|..])
  {
    PartsValid(fs, root, q);
    if q[|root|..] != [] {
      RelPathNotDot(q[|root|..]);
    }
  }

  /** The tree under a directory has gone and the directory goes with it. */
  lemma RootGone(before: FileTree, after: FileTree, path: Path)
    requires OnlyBelow(before, after, path) && Below(after, path) == {}
    ensures after - {path} == Without(before, [path])
  {
    var gone := Without(before, [path]);
    assert path in [path];
    forall q ensures q in after - {path} <==> q in gone {
      assert q in Below(after, path) <==> q in after && path < q;
      assert path <= q <==> path < q || path == q;
    }
  }

  /** `_remove_inventory`: if the inventory is still true the whole subtree goes; if not, nothing does. */
  method RemoveInventory(fs: FileSystem, inventory: Inventory, device: int) returns (r: Result<(), DiskError>)
    requires Tree(fs.nodes) && inventory.target.path != [] && inventory.present
    modifies fs
    ensures Tree(fs.nodes)
    ensures var stillTrue := InventoryOf(old(fs.nodes), inventory.target, device) == Some(inventory);
            && (r.Success? <==> stillTrue)
            && fs.nodes == if stillTrue then Without(old(fs.nodes), [inventory.target.path]) else old(fs.nodes)
  {
    hide Tree, RelPath, Key, KindOf, Flat, Sort, ChildNames, Below, Describes, Faithful, IndexIs, Without, OnlyBelow;
    var path := inventory.target.path;
    ghost var before := fs.nodes;
    var current :- fs.InventoryTarget(inventory.target, device);
    if current != inventory {
      return Failure(Changed);
    }
    PresentTarget(before, inventory.target, device);
    var expected := ByPath(inventory.entries);
    var children := IndexExpectedChildren(expected);
    InventoryDescribes(before, inventory.target, device);
    InventoryIsFaithful(before, inventory.target, device, expected, children);
    RootDescribed(expected, before, path);
    if "." !in expected || EntryFor(".", fs.nodes[path]) != expected["."] {
      return Failure(Changed);
    }
    var contents := fs.DeleteDirectoryContents(path, "", expected, children, device, before, path);
    RootStays(before, fs.nodes, path);
    if contents.Failure? {
      return contents;
    }
    if path !in fs.nodes || EntryFor(".", fs.nodes[path]) != expected["."] {
      return Failure(Changed);
    }
    RemovableTree(fs.nodes, path);
    RootGone(before, fs.nodes, path);
    var ok := fs.RemoveDirectory(path);
    if !ok {
      return Failure(NotRemovable);
    }
    return Success(());
  }

  lemma RootStays(before: FileTree, after: FileTree, path: Path)
    requires OnlyBelow(before, after, path) && path in before
    ensures path in after && after[path] == before[path]
  {
  }

  lemma RootDescribed(expected: map<string, Entry>, fs: FileTree, path: Path)
    requires Describes(expected, fs, path) && path in fs
    ensures "." in expected && expected["."] == EntryFor(".", fs[path])
    ensures RelPath(path[|path|..]) == ""
  {
    RootKey(path);
    assert path <= path && expected[Key(path[|path|..])] == EntryOf(fs, path, path);
  }

  lemma PresentTarget(fs: FileTree, target: Target, device: int)
    requires target.path != []
    ensures var inventory := InventoryOf(fs, target, device);
            inventory.Some? ==>
              && inventory.value.target == target && (inventory.value.present <==> target.path in fs)
              && (target.path in fs ==> IsDirectory(fs[target.path]))
  {
  }

  // ----- The whole cleanup -----

  predicate Named(target: Target) {
    target.name != "" && forall i :: 0 <= i < |target.name| ==> !IsSpace(target.name[i])
  }

  predicate Overlap(a: Path, b: Path) {
    a <= b || b <= a
  }

  predicate ValidTarget(t: Target) {
    Named(t) && |t.path| >= 2
  }

  predicate Compatible(a: Target, b: Target) {
    a.name != b.name && !Overlap(a.path, b.path)
  }

  /** What `_validate_target_set` accepts. */
  ghost predicate ValidTargets(targets: seq<Target>) {
    && (forall i :: 0 <= i < |targets| ==> ValidTarget(targets[i]))
    && forall i, j :: 0 <= i < j < |targets| ==> Compatible(targets[i], targets[j])
  }

  /** `_validate_target_set` */
  method ValidateTargetSet(targets: seq<Target>) returns (ok: bool)
    ensures ok <==> ValidTargets(targets)
  {
    var i := 0;
    while i < |targets|
      invariant 0 <= i <= |targets| && ValidTargets(targets[..i])
    {
      hide Named, Overlap;
      assert targets[..i + 1][..i] == targets[..i];
      if !ValidTarget(targets[i]) {
        return false;
      }
      var j := 0;
      while j < i
        invariant 0 <= j <= i
        invariant forall k :: 0 <= k < j ==> Compatible(targets[k], targets[i])
      {
        if !Compatible(targets[j], targets[i]) {
          return false;
        }
        j := j + 1;
      }
      i := i + 1;
    }
    assert targets[..i] == targets;
    return true;
  }

  /** The paths the cleanup must stay clear of: the disk root, the workspace and the protected executables. */
  datatype Boundary = Boundary(keep: seq<Path>, runnerTemp: Path)

  predicate Clear(path: Path, boundary: Boundary) {
    path != boundary.runnerTemp && forall i :: 0 <= i < |boundary.keep| ==> !(path <= boundary.keep[i])
  }

  ghost predicate Ready(fs: FileTree, targets: seq<Target>, boundary: Boundary, device: int) {
    && ValidTargets(targets)
    && forall i :: 0 <= i < |targets| ==>
         targets[i].path != [] && Clear(targets[i].path, boundary) && InventoryOf(fs, targets[i], device).Some?
  }

  /** The targets that exist, in order. */
  function Existing(fs: FileTree, targets: seq<Target>): seq<Target> {
    if targets == [] then []
    else Existing(fs, targets[..|targets| - 1])
         + if targets[|targets| - 1].path in fs then [targets[|targets| - 1]] else []
  }

  function Roots(targets: seq<Target>): (paths: seq<Path>)
    ensures |paths| == |targets| && forall i :: 0 <= i < |paths| ==> paths[i] == targets[i].path
  {
    if targets == [] then [] else Roots(targets[..|targets| - 1]) + [targets[|targets| - 1].path]
  }

  function NamesOf(targets: seq<Target>): (names: seq<string>)
    ensures |names| == |targets| && forall i :: 0 <= i < |names| ==> names[i] == targets[i].name
  {
    if targets == [] then [] else NamesOf(targets[..|targets| - 1]) + [targets[|targets| - 1].name]
  }

  /** The tree once the first k existing targets are gone. */
  function Cleaned(fs: FileTree, targets: seq<Target>, k: nat): FileTree
    requires k <= |Existing(fs, targets)|
  {
    Without(fs, Roots(Existing(fs, targets)[..k]))
  }

  datatype Report = Report(before: Snapshot, after: Snapshot, removed: seq<string>)

  datatype Budget = Budget(bytes: nat, inodes: nat)

  predicate Met(s: Snapshot, budget: Budget) {
    BudgetMet(s, budget.bytes, budget.inodes)
  }

  /** The free space depends on the tree. */
  type Snapshotter = FileTree -> Snapshot

  ghost predicate ShortBefore(fs: FileTree, targets: seq<Target>, snap: Snapshotter, budget: Budget, k: nat) {
    forall j: nat :: j < k && j <= |Existing(fs, targets)| ==> !Met(snap(Cleaned(fs, targets, j)), budget)
  }

  /** k existing targets were removed, and no fewer would have done. */
  ghost predicate Stopped(
    fs: FileTree, targets: seq<Target>, snap: Snapshotter, budget: Budget, after: FileTree,
    r: Result<Report, DiskError>, k: nat)
  {
    && k <= |Existing(fs, targets)| && after == Cleaned(fs, targets, k) && ShortBefore(fs, targets, snap, budget, k)
    && (Met(snap(after), budget) ==>
          r == Success(Report(snap(fs), snap(after), NamesOf(Existing(fs, targets)[..k]))))
    && (!Met(snap(after), budget) ==> r == Failure(BudgetNotMet(snap(after))))
    && (r.Failure? ==> k == |Existing(fs, targets)|)
  }

  /** `reclaim_hosted_runner_disk`: checks, then inventories, then removal target by target. */
  method Reclaim(
    fs: FileSystem, targets: seq<Target>, boundary: Boundary, device: int, budget: Budget, snap: Snapshotter)
    returns (r: Result<Report, DiskError>)
    requires Tree(fs.nodes)
    modifies fs
    ensures Tree(fs.nodes)
    ensures !Ready(old(fs.nodes), targets, boundary, device) ==>
              && fs.nodes == old(fs.nodes) && r.Failure?
              && r.error in {InvalidTarget, ForbiddenPath, ForbiddenEntry}
    ensures Ready(old(fs.nodes), targets, boundary, device) ==>
              exists k: nat :: Stopped(old(fs.nodes), targets, snap, budget, fs.nodes, r, k)
  {
    ghost var start := fs.nodes;
    var valid := ValidateTargetSet(targets);
    if !valid {
      return Failure(InvalidTarget);
    }
    var before := snap(fs.nodes);
    var clear := ClearOfBoundary(targets, boundary);
    if !clear {
      return Failure(ForbiddenPath);
    }
    var inventories :- InventoryAll(fs, targets, device);
    var current, removed, i := before, [], 0;
    ghost var k: nat := 0;
    NothingCleaned(start, targets);
    while i < |inventories| && !Met(current, budget)
      invariant 0 <= i <= |inventories| && Tree(fs.nodes)
      invariant Progress(start, targets, fs.nodes, removed, i, k)
      invariant current == snap(fs.nodes) && ShortBefore(start, targets, snap, budget, k)
    {
      hide Progress, ShortBefore, InventoryOf, Tree, Existing, Without, Cleaned, Met, ValidTargets;
      StillTrue(start, targets, fs.nodes, removed, i, k, device);
      StepProgress(start, targets, fs.nodes, removed, i, k);
      ShortStep(start, targets, snap, budget, fs.nodes, removed, i, k);
      if !inventories[i].present {
        if targets[i].path in fs.nodes {
          return Failure(Changed);
        }
      } else {
        var gone := RemoveInventory(fs, inventories[i], device);
        match gone {
          case Failure(e) => return Failure(e);
          case Success(_) =>
        }
        removed := removed + [targets[i].name];
        current := snap(fs.nodes);
        k := k + 1;
      }
      i := i + 1;
    }
    AllTried(start, targets, fs.nodes, removed, i, k);
    r := if Met(current, budget) then Success(Report(before, current, removed)) else Failure(BudgetNotMet(current));
    assert Stopped(start, targets, snap, budget, fs.nodes, r, k);
  }

  /** `_validate_cleanup_boundaries` */
  method ClearOfBoundary(targets: seq<Target>, boundary: Boundary) returns (ok: bool)
    ensures ok <==> forall i :: 0 <= i < |targets| ==> Clear(targets[i].path, boundary)
  {
    for i := 0 to |targets|
      invariant forall j :: 0 <= j < i ==> Clear(targets[j].path, boundary)
    {
      if !Clear(targets[i].path, boundary) {
        return false;
      }
    }
    return true;
  }

  method InventoryAll(fs: FileSystem, targets: seq<Target>, device: int)
    returns (r: Result<seq<Inventory>, DiskError>)
    requires Tree(fs.nodes) && forall i :: 0 <= i < |targets| ==> targets[i].path != []
    ensures r.Success? <==> forall i :: 0 <= i < |targets| ==> InventoryOf(fs.nodes, targets[i], device).Some?
    ensures r.Success? ==>
              && |r.value| == |targets|
              && forall i :: 0 <= i < |targets| ==> InventoryOf(fs.nodes, targets[i], device) == Some(r.value[i])
    ensures r.Failure? ==> r.error in {ForbiddenPath, ForbiddenEntry}
  {
    hide InventoryOf, Tree;
    var inventories := [];
    for i := 0 to |targets|
      invariant |inventories| == i
      invariant forall j :: 0 <= j < i ==> InventoryOf(fs.nodes, targets[j], device) == Some(inventories[j])
    {
      var inventory :- fs.InventoryTarget(targets[i], device);
      inventories := inventories + [inventory];
    }
    return Success(inventories);
  }

  /** After i targets, the k that existed are gone and named. */
  ghost predicate Progress(
    start: FileTree, targets: seq<Target>, now: FileTree, removed: seq<string>, i: nat, k: nat)
  {
    && i <= |targets| && ValidTargets(targets) && k == |Existing(start, targets[..i])|
    && now == Without(start, Roots(Existing(start, targets[..i])))
    && removed == NamesOf(Existing(start, targets[..i]))
  }

  lemma NothingCleaned(start: FileTree, targets: seq<Target>)
    requires ValidTargets(targets)
    ensures Progress(start, targets, start, [], 0, 0)
  {
    assert targets[..0] == [];
  }

  lemma {:induction false} ExistingPrefix(fs: FileTree, targets: seq<Target>, i: nat)
    requires i <= |targets|
    ensures Existing(fs, targets[..i]) <= Existing(fs, targets)
  {
    if i < |targets| {
      ExistingPrefix(fs, targets[..|targets| - 1], i);
      assert targets[..|targets| - 1][..i] == targets[..i];
    } else {
      assert targets[..i] == targets;
    }
  }

  lemma {:induction false} ExistingMembers(fs: FileTree, targets: seq<Target>)
    ensures forall t :: t in Existing(fs, targets) ==> t in targets && t.path in fs
  {
    if targets != [] {
      ExistingMembers(fs, targets[..|targets| - 1]);
    }
  }

  lemma OverlapUp(p: Path, q: Path, path: Path)
    ensures p <= q && Overlap(q, path) ==> Overlap(p, path)
  {
    if p <= q && path <= q {
      assert forall n :: 0 <= n <= |p| && n <= |path| ==> p[..n] == q[..n] == path[..n];
      assert |p| <= |path| ==> p == path[..|p|];
      assert |path| <= |p| ==> path == p[..|path|];
    }
  }

  /** Removing targets that do not overlap this one leaves its inventory as it was. */
  lemma InventoryStays(start: FileTree, roots: seq<Path>, target: Target, device: int)
    requires target.path != [] && forall p :: p in roots ==> !Overlap(p, target.path)
    ensures var now := Without(start, roots);
            && InventoryOf(now, target, device) == InventoryOf(start, target, device)
            && (target.path in now <==> target.path in start)
  {
    hide KindOf, Flat, Sort, RelPath, ComponentOk, Admissible, IsDirectory;
    var now, path := Without(start, roots), target.path;
    forall q | Overlap(q, path) ensures q in now <==> q in start {
      forall p | p in roots ensures !(p <= q) {
        OverlapUp(p, q, path);
      }
    }
    forall m | 0 <= m <= |path| ensures path[..m] in now <==> path[..m] in start {
      assert path[..m] <= path;
    }
    var parent := path[..|path| - 1];
    forall m | 0 <= m <= |parent| ensures parent[..m] in now <==> parent[..m] in start {
      assert parent[..m] == path[..m];
    }
    assert SameUnder(start, now, path);
    FlatLocal(start, now, path, path);
    assert Below(start, path) == Below(now, path);
    assert path[..|path|] == path;
  }

  /** When its turn comes, a target is still as it was inventoried. */
  lemma StillTrue(
    start: FileTree, targets: seq<Target>, now: FileTree, removed: seq<string>, i: nat, k: nat, device: int)
    requires Progress(start, targets, now, removed, i, k) && i < |targets| && targets[i].path != []
    ensures InventoryOf(now, targets[i], device) == InventoryOf(start, targets[i], device)
    ensures targets[i].path in now <==> targets[i].path in start
    ensures InventoryOf(start, targets[i], device).Some? ==>
              && InventoryOf(start, targets[i], device).value.target == targets[i]
              && (InventoryOf(start, targets[i], device).value.present <==> targets[i].path in start)
  {
    hide InventoryOf, Existing, Named;
    var gone := Existing(start, targets[..i]);
    ExistingMembers(start, targets[..i]);
    forall p | p in Roots(gone) ensures !Overlap(p, targets[i].path) {
      var j :| 0 <= j < |gone| && Roots(gone)[j] == p;
      assert gone[j] in targets[..i];
      var m :| 0 <= m < i && targets[m] == gone[j];
      assert Compatible(targets[m], targets[i]);
    }
    InventoryStays(start, Roots(gone), targets[i], device);
    PresentTarget(start, targets[i], device);
  }

  lemma WithoutOneMore(fs: FileTree, roots: seq<Path>, path: Path)
    ensures Without(Without(fs, roots), [path]) == Without(fs, roots + [path])
  {
    assert path in [path];
    var all := roots + [path];
    assert forall p :: p in all <==> p in roots || p == path;
    forall q | q in fs
      ensures (forall p :: p in all ==> !(p <= q)) <==> (forall p :: p in roots ==> !(p <= q)) && !(path <= q)
    {
      assert path in all;
      assert forall p :: p in roots ==> p in all;
    }
    assert forall q :: q in Without(Without(fs, roots), [path]) <==> q in Without(fs, all);
  }

  lemma RootsGrow(targets: seq<Target>, t: Target)
    ensures Roots(targets + [t]) == Roots(targets) + [t.path]
    ensures NamesOf(targets + [t]) == NamesOf(targets) + [t.name]
  {
    assert (targets + [t])[..|targets|] == targets;
  }

  lemma StepProgress(
    start: FileTree, targets: seq<Target>, now: FileTree, removed: seq<string>, i: nat, k: nat)
    requires Progress(start, targets, now, removed, i, k) && i < |targets|
    ensures targets[i].path in start ==>
              Progress(start, targets, Without(now, [targets[i].path]), removed + [targets[i].name], i + 1, k + 1)
    ensures targets[i].path !in start ==> Progress(start, targets, now, removed, i + 1, k)
  {
    hide Without, ValidTargets;
    var gone := Existing(start, targets[..i]);
    assert targets[..i + 1][..i] == targets[..i];
    RootsGrow(gone, targets[i]);
    assert targets[i].path in start ==> Existing(start, targets[..i + 1]) == gone + [targets[i]];
    assert targets[i].path !in start ==> Existing(start, targets[..i + 1]) == gone;
    WithoutOneMore(start, Roots(gone), targets[i].path);
  }

  lemma CleanedIsNow(start: FileTree, targets: seq<Target>, now: FileTree, removed: seq<string>, i: nat, k: nat)
    requires Progress(start, targets, now, removed, i, k)
    ensures k <= |Existing(start, targets)| && now == Cleaned(start, targets, k)
    ensures removed == NamesOf(Existing(start, targets)[..k])
  {
    hide Existing, Without, ValidTargets;
    ExistingPrefix(start, targets, i);
    assert Existing(start, targets)[..k] == Existing(start, targets[..i]);
  }

  lemma ShortStep(
    start: FileTree, targets: seq<Target>, snap: Snapshotter, budget: Budget, now: FileTree, removed: seq<string>,
    i: nat, k: nat)
    requires Progress(start, targets, now, removed, i, k) && ShortBefore(start, targets, snap, budget, k)
    requires !Met(snap(now), budget)
    ensures ShortBefore(start, targets, snap, budget, k + 1)
  {
    hide Progress, Cleaned, Met;
    CleanedIsNow(start, targets, now, removed, i, k);
  }

  lemma AllTried(start: FileTree, targets: seq<Target>, now: FileTree, removed: seq<string>, i: nat, k: nat)
    requires Progress(start, targets, now, removed, i, k)
    ensures k <= |Existing(start, targets)| && now == Cleaned(start, targets, k)
    ensures removed == NamesOf(Existing(start, targets)[..k])
    ensures i == |targets| ==> k == |Existing(start, targets)|
  {
    CleanedIsNow(start, targets, now, removed, i, k);
    assert i == |targets| ==> targets[..i] == targets;
  }

  /** A ready cleanup, wherever it stops, keeps the disk root, the workspace and every protected executable. */
  lemma KeepsBoundary(fs: FileTree, targets: seq<Target>, boundary: Boundary, device: int, k: nat, p: Path)
    requires Ready(fs, targets, boundary, device) && k <= |Existing(fs, targets)|
    requires p in fs && p in boundary.keep
    ensures var after := Cleaned(fs, targets, k); p in after && after[p] == fs[p]
  {
    hide InventoryOf, ValidTargets, Existing;
    var gone := Existing(fs, targets)[..k];
    ExistingMembers(fs, targets);
    forall root | root in Roots(gone) ensures !(root <= p) {
      var j :| 0 <= j < |gone| && Roots(gone)[j] == root;
      assert gone[j] in targets;
      var m :| 0 <= m < |targets| && targets[m] == gone[j];
      assert Clear(targets[m].path, boundary);
    }
  }

  /** The number of removed targets is determined by the tree, the order, the sizes and the budget. */
  lemma StopsOnce(
    fs: FileTree, targets: seq<Target>, snap: Snapshotter, budget: Budget, after: FileTree, other: FileTree,
    r: Result<Report, DiskError>, r': Result<Report, DiskError>, k: nat, k': nat)
    requires Stopped(fs, targets, snap, budget, after, r, k) && Stopped(fs, targets, snap, budget, other, r', k')
    ensures k == k' && after == other && r == r'
  {
    hide Cleaned, Met, Existing;
  }
}
