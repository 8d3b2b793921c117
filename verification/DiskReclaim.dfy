/** The disk reclaimer on a quiet file system: every change to the tree is its own, and no call fails by itself. */
module DiskReclaim {
  import opened Wrappers
  import opened Text
  import opened Sorting
  import opened Listing
  import opened Sets
  import opened DiskTree

  datatype Target = Target(name: string, path: Path)

  /** present is false for a target that was absent. */
  datatype Inventory = Inventory(target: Target, present: bool, entries: seq<Entry>)

  datatype Snapshot = Snapshot(freeBytes: int, freeInodes: int)

  datatype DiskError =
    | InvalidTarget | ForbiddenPath | ForbiddenEntry | Changed | MissingIndex | NotRemovable
    | BudgetNotMet(after: Snapshot)

  predicate BudgetMet(s: Snapshot, minBytes: int, minInodes: int) {
    s.freeBytes >= minBytes && s.freeInodes >= minInodes
  }

  predicate ByPathOrder(a: Entry, b: Entry) {
    Less(a.path, b.path)
  }

  /** `_validate_real_directory_chain`: the checks on the n-th component of a path that exists. */
  predicate ComponentOk(s: Stat, n: nat, device: int) {
    IsDirectory(s) && s.device == device && (n > 0 ==> !s.mount)
  }

  /** Every existing ancestor, up to the first that is missing, is a real directory on the device. */
  ghost predicate ChainOk(fs: FileTree, path: Path, device: int) {
    forall n :: 0 <= n <= |path| && (forall m :: 0 <= m <= n ==> path[..m] in fs) ==>
      ComponentOk(fs[path[..n]], n, device)
  }

  /** What taking the inventory of a target gives; None when it raises. */
  ghost function InventoryOf(fs: FileTree, target: Target, device: int): Option<Inventory>
    requires target.path != []
  {
    var path := target.path;
    if !ChainOk(fs, path[..|path| - 1], device) then None
    else if path !in fs then Some(Inventory(target, false, []))
    else if !IsDirectory(fs[path]) || fs[path].device != device || fs[path].mount then None
    else if !AllAdmissible(fs, path, device) then None
    else Some(Inventory(target, true, Sort([EntryFor(".", fs[path])] + Flat(fs, path, path), ByPathOrder)))
  }

  /** A directory's index entries are complete for everything under dir in base. */
  ghost predicate Indexed(
    expected: map<string, Entry>, children: map<string, set<string>>, base: FileTree, root: Path, dir: Path)
    requires root <= dir
  {
    && (forall q :: q in base && dir < q ==>
          Key(q[|root|..]) in expected && expected[Key(q[|root|..])] == EntryOf(base, root, q))
    && forall q :: q in base && dir <= q && IsDirectory(base[q]) ==>
      RelPath(q[|root|..]) in children && children[RelPath(q[|root|..])] == ChildNames(base, q)
  }

  /** The tree without anything at or under the given roots. */
  function Without(fs: FileTree, roots: seq<Path>): FileTree {
    map q | q in fs && forall r :: r in roots ==> !(r <= q) :: fs[q]
  }

  class FileSystem {
    var nodes: FileTree

    constructor (nodes: FileTree)
      ensures this.nodes == nodes
    {
      this.nodes := nodes;
    }

    /** `sorted(os.listdir(...))` */
    method ListDirectory(dir: Path) returns (names: seq<string>)
      ensures names == Ascending(ChildNames(nodes, dir))
    {
      names := InOrder(ChildNames(nodes, dir));
    }

    method LStat(path: Path) returns (s: Option<Stat>)
      ensures s == if path in nodes then Some(nodes[path]) else None
    {
      s := if path in nodes then Some(nodes[path]) else None;
    }

    method Unlink(path: Path) returns (ok: bool)
      modifies this
      ensures ok <==> path in old(nodes) && !IsDirectory(old(nodes)[path])
      ensures nodes == if ok then old(nodes) - {path} else old(nodes)
    {
      ok := path in nodes && !IsDirectory(nodes[path]);
      if ok {
        nodes := nodes - {path};
      }
    }

    method RemoveDirectory(path: Path) returns (ok: bool)
      modifies this
      ensures ok <==> path in old(nodes) && IsDirectory(old(nodes)[path]) && ChildNames(old(nodes), path) == {}
      ensures nodes == if ok then old(nodes) - {path} else old(nodes)
    {
      ok := path in nodes && IsDirectory(nodes[path]) && ChildNames(nodes, path) == {};
      if ok {
        nodes := nodes - {path};
      }
    }

    /** `_inventory_directory`: appends everything under dir, or refuses exactly when some entry is not admissible. */
    method InventoryDirectory(ghost root: Path, dir: Path, prefix: string, device: int, entries: seq<Entry>)
      returns (r: Result<seq<Entry>, DiskError>)
      requires Tree(nodes) && root <= dir && prefix == RelPath(dir[|root|..])
      ensures r.Success? <==> AllAdmissible(nodes, dir, device)
      ensures r.Success? ==> r.value == entries + Flat(nodes, root, dir)
      ensures r.Failure? ==> r.error == ForbiddenEntry
      decreases |Below(nodes, dir)|
    {
      hide Flat, FlatNames, AllAdmissible, NamesAdmissible, Admissible, Below, Ascending, ChildNames, Tree;
      hide IsDirectory, RelPath, Rel, Key;
      var names := ListDirectory(dir);
      AllByNames(nodes, root, dir, device);
      var all := entries;
      var i := 0;
      assert names[..0] == [];
      NoNames(nodes, root, dir, device);
      while i < |names|
        invariant 0 <= i <= |names|
        invariant forall n :: n in names[..i] ==> dir + [n] in nodes
        invariant all == entries + FlatNames(nodes, root, dir, names[..i])
        invariant NamesAdmissible(nodes, dir, names[..i], device)
      {
        var name := names[i];
        var child := dir + [name];
        NextName(nodes, root, dir, names, i, device);
        var s := nodes[child];
        KeyOfChild(root, dir, name);
        if !Admissible(s, device) {
          return Failure(ForbiddenEntry);
        }
        all := all + [EntryFor(Rel(prefix, name), s)];
        if IsDirectory(s) {
          BelowShrinks(nodes, dir, name);
          all :- InventoryDirectory(root, child, Rel(prefix, name), device, all);
        }
        i := i + 1;
      }
      assert names[..i] == names;
      return Success(all);
    }

    /** `_validate_real_directory_chain` */
    method ValidateChain(path: Path, device: int) returns (ok: bool)
      ensures ok <==> ChainOk(nodes, path, device)
    {
      var n := 0;
      while n <= |path|
        invariant 0 <= n <= |path| + 1
        invariant forall m :: 0 <= m < n ==> path[..m] in nodes && ComponentOk(nodes[path[..m]], m, device)
      {
        if path[..n] !in nodes {
          return true;
        }
        if !ComponentOk(nodes[path[..n]], n, device) {
          return false;
        }
        n := n + 1;
      }
      return true;
    }

    /** `_inventory_target` */
    method InventoryTarget(target: Target, device: int) returns (r: Result<Inventory, DiskError>)
      requires Tree(nodes) && target.path != []
      ensures match InventoryOf(nodes, target, device)
              case None => r.Failure? && r.error in {ForbiddenPath, ForbiddenEntry}
              case Some(inventory) => r == Success(inventory)
    {
      var path := target.path;
      var chain := ValidateChain(path[..|path| - 1], device);
      if !chain {
        return Failure(ForbiddenPath);
      }
      var s := LStat(path);
      if s.None? {
        return Success(Inventory(target, false, []));
      }
      if !IsDirectory(s.value) || s.value.device != device || s.value.mount {
        return Failure(ForbiddenPath);
      }
      assert path[|path|..] == [];
      var entries :- InventoryDirectory(path, path, "", device, [EntryFor(".", s.value)]);
      return Success(Inventory(target, true, Sort(entries, ByPathOrder)));
    }

    /** `_delete_directory_contents`; base is the tree the index was built on. */
    method DeleteDirectoryContents(
      dir: Path, prefix: string, expected: map<string, Entry>, children: map<string, set<string>>, device: int,
      ghost base: FileTree, ghost root: Path) returns (r: Result<(), DiskError>)
      requires Tree(nodes) && root <= dir && prefix == RelPath(dir[|root|..])
      modifies this
      ensures Tree(nodes) && OnlyBelow(old(nodes), nodes, dir)
      ensures Faithful(old(nodes), expected, children, base, root, dir, device) ==>
                r.Success? && Below(nodes, dir) == {}
      decreases |Below(nodes, dir)|
    {
      var names := ListDirectory(dir);
      ghost var faithful := Faithful(nodes, expected, children, base, root, dir, device);
      ghost var before := nodes;
      StartDeleting(nodes, expected, children, base, root, dir, device);
      if prefix !in children {
        return Failure(MissingIndex);
      }
      if (set n | n in names) != children[prefix] {
        return Failure(Changed);
      }
      var i := 0;
      while i < |names|
        invariant 0 <= i <= |names|
        invariant Tree(nodes) && OnlyBelow(before, nodes, dir)
        invariant faithful ==> Untouched(before, nodes, dir, names[i..]) && Cleared(nodes, dir, names[i..])
      {
        hide Faithful, Tree, OnlyBelow, Untouched, Cleared, Below, ChildNames, Ascending, Admissible, KindOf;
        hide RelPath, Rel, Key;
        var name := names[i];
        var child := dir + [name];
        var relative := Rel(prefix, name);
        ghost var now := nodes;
        if faithful {
          NextFaithful(before, nodes, names, i, expected, children, base, root, dir, device);
        }
        if relative !in expected {
          return Failure(Changed);
        }
        var s := LStat(child);
        if s.None? || EntryFor(relative, s.value) != expected[relative] {
          return Failure(Changed);
        }
        var ok: bool;
        if IsDirectory(s.value) {
          if s.value.device != device || s.value.mount {
            return Failure(ForbiddenEntry);
          }
          KeyOfChild(root, dir, name);
          ShrunkBelow(before, nodes, dir, name);
          var sub := DeleteDirectoryContents(child, relative, expected, children, device, base, root);
          OnlyBelowChild(before, now, nodes, dir, name);
          if sub.Failure? {
            return sub;
          }
          if child !in nodes || EntryFor(relative, nodes[child]) != expected[relative] {
            return Failure(Changed);
          }
          RemovableTree(nodes, child);
          ok := RemoveDirectory(child);
        } else if KindOf(s.value.mode) == Special {
          return Failure(ForbiddenEntry);
        } else {
          RemovableTree(nodes, child);
          ok := Unlink(child);
        }
        ChildRemoved(before, now, nodes, names, i, dir);
        if !ok {
          return Failure(NotRemovable);
        }
        i := i + 1;
      }
      assert names[i..] == [];
      return Success(());
    }
  }

  // ----- Deleting -----

  /** Nothing outside dir, and dir itself, was removed; nothing was changed or added. */
  ghost predicate OnlyBelow(before: FileTree, after: FileTree, dir: Path) {
    && (forall q :: q in after ==> q in before && after[q] == before[q])
    && forall q :: q in before && !(dir < q) ==> q in after
  }

  ghost predicate Untouched(before: FileTree, after: FileTree, dir: Path, names: seq<string>) {
    forall q :: q in before && dir < q && q[|dir|] in names ==> q in after
  }

  ghost predicate Cleared(after: FileTree, dir: Path, names: seq<string>) {
    forall q :: q in after && dir < q ==> q[|dir|] in names
  }

  /** What lies under dir is what was inventoried, and the index describes it. */
  ghost predicate Faithful(
    nodes: FileTree, expected: map<string, Entry>, children: map<string, set<string>>, base: FileTree, root: Path,
    dir: Path, device: int)
    requires root <= dir
  {
    && Tree(base) && SameUnder(base, nodes, dir) && Indexed(expected, children, base, root, dir)
    && dir in base && IsDirectory(base[dir]) && AllAdmissible(base, dir, device)
  }

  /** Everything reached through the given names is admissible. */
  ghost predicate NamesAdmissible(fs: FileTree, dir: Path, names: seq<string>, device: int) {
    forall q :: q in fs && dir < q && q[|dir|] in names ==> Admissible(fs[q], device)
  }

  lemma NoNames(fs: FileTree, root: Path, dir: Path, device: int)
    requires root <= dir
    ensures NamesAdmissible(fs, dir, [], device) && FlatNames(fs, root, dir, []) == []
  {
  }

  /** A directory is what its sorted names lead to. */
  lemma AllByNames(fs: FileTree, root: Path, dir: Path, device: int)
    requires Tree(fs) && root <= dir
    ensures var names := Ascending(ChildNames(fs, dir));
            && (forall n :: n in names ==> dir + [n] in fs)
            && Flat(fs, root, dir) == FlatNames(fs, root, dir, names)
            && (AllAdmissible(fs, dir, device) <==> NamesAdmissible(fs, dir, names, device))
  {
    var names := Ascending(ChildNames(fs, dir));
    forall n ensures n in names <==> dir + [n] in fs {
      ChildNamesMembers(fs, dir, n);
    }
    forall q | q in fs && dir < q ensures q[|dir|] in names {
      ThroughChild(fs, dir, q);
    }
  }

  /** What one more name adds. */
  lemma NextName(fs: FileTree, root: Path, dir: Path, names: seq<string>, i: nat, device: int)
    requires Tree(fs) && root <= dir && i < |names| && forall n :: n in names ==> dir + [n] in fs
    ensures var child := dir + [names[i]];
            && child in fs && root <= child
            && (forall n :: n in names[..i + 1] ==> dir + [n] in fs)
            && (forall n :: n in names[..i] ==> dir + [n] in fs)
            && FlatNames(fs, root, dir, names[..i + 1])
               == FlatNames(fs, root, dir, names[..i]) + [EntryFor(Key(child[|root|..]), fs[child])]
                  + (if IsDirectory(fs[child]) then Flat(fs, root, child) else [])
            && (NamesAdmissible(fs, dir, names[..i + 1], device) <==>
                  && NamesAdmissible(fs, dir, names[..i], device) && Admissible(fs[child], device)
                  && (IsDirectory(fs[child]) ==> AllAdmissible(fs, child, device)))
            && (NamesAdmissible(fs, dir, names, device) ==> NamesAdmissible(fs, dir, names[..i + 1], device))
  {
    var child := dir + [names[i]];
    assert names[i] in names && names[..i + 1][..i] == names[..i];
    assert dir < child && child[|dir|] == names[i];
    assert forall n :: n in names[..i + 1] <==> n in names[..i] || n == names[i];
    forall q | q in fs && dir < q && q[|dir|] == names[i]
      ensures q == child || (child < q && IsDirectory(fs[child]))
    {
      ThroughChild(fs, dir, q);
    }
    forall q | q in fs && child < q ensures dir < q && q[|dir|] == names[i] {
      assert q[|dir|] == child[|dir|];
    }
  }

  lemma StartDeleting(
    nodes: FileTree, expected: map<string, Entry>, children: map<string, set<string>>, base: FileTree, root: Path,
    dir: Path, device: int)
    requires Tree(nodes) && root <= dir
    ensures var names := Ascending(ChildNames(nodes, dir));
            && OnlyBelow(nodes, nodes, dir) && Untouched(nodes, nodes, dir, names) && Cleared(nodes, dir, names)
            && (Faithful(nodes, expected, children, base, root, dir, device) ==>
                  && RelPath(dir[|root|..]) in children
                  && (set n | n in names) == children[RelPath(dir[|root|..])])
  {
    var names := Ascending(ChildNames(nodes, dir));
    forall q | q in nodes && dir < q ensures q[|dir|] in names {
      ThroughChild(nodes, dir, q);
      ChildNamesMembers(nodes, dir, q[|dir|]);
    }
    if Faithful(nodes, expected, children, base, root, dir, device) {
      forall n ensures n in ChildNames(base, dir) <==> n in names {
        ChildNamesMembers(base, dir, n);
        ChildNamesMembers(nodes, dir, n);
        assert dir <= dir + [n];
      }
    }
  }

  /** The next child is as inventoried, and what lies under it is still faithful. */
  lemma NextFaithful(
    before: FileTree, nodes: FileTree, names: seq<string>, i: nat, expected: map<string, Entry>,
    children: map<string, set<string>>, base: FileTree, root: Path, dir: Path, device: int)
    requires Tree(before) && root <= dir && Faithful(before, expected, children, base, root, dir, device)
    requires names == Ascending(ChildNames(before, dir)) && i < |names|
    requires OnlyBelow(before, nodes, dir) && Untouched(before, nodes, dir, names[i..])
    ensures var child := dir + [names[i]];
            var relative := Rel(RelPath(dir[|root|..]), names[i]);
            && child in nodes && relative in expected && EntryFor(relative, nodes[child]) == expected[relative]
            && Admissible(nodes[child], device)
            && (IsDirectory(nodes[child]) ==> Faithful(nodes, expected, children, base, root, child, device))
  {
    hide KindOf, Tree, Ascending, ChildNames, RelPath, Rel;
    var child := dir + [names[i]];
    assert names[i] in names && names[i] in names[i..];
    ChildNamesMembers(before, dir, names[i]);
    KeyOfChild(root, dir, names[i]);
    assert child[|dir|] == names[i] && dir < child;
    assert child in Below(base, dir);
    forall q | child <= q ensures dir < q && q[|dir|] == names[i] {
      FirstName(dir, names[i], q);
    }
    assert SameUnder(base, nodes, child);
  }

  lemma FirstName(dir: Path, name: string, q: Path)
    requires dir < q
    ensures dir + [name] <= q <==> q[|dir|] == name
  {
    var child := dir + [name];
    assert q[|dir|] == name ==> q[..|child|] == child;
    assert child <= q ==> q[|dir|] == child[|dir|];
  }

  lemma ShrunkBelow(before: FileTree, nodes: FileTree, dir: Path, name: string)
    requires OnlyBelow(before, nodes, dir) && dir + [name] in nodes
    ensures |Below(nodes, dir + [name])| < |Below(before, dir)|
  {
    BelowShrinks(nodes, dir, name);
    assert Below(nodes, dir) <= Below(before, dir);
    SubsetSize(Below(nodes, dir), Below(before, dir));
  }

  lemma OnlyBelowChild(before: FileTree, now: FileTree, after: FileTree, dir: Path, name: string)
    requires OnlyBelow(before, now, dir) && OnlyBelow(now, after, dir + [name])
    ensures OnlyBelow(before, after, dir)
  {
  }

  /** An entry with nothing below it can go, and the rest is still a tree. */
  lemma RemovableTree(fs: FileTree, p: Path)
    requires Tree(fs)
    ensures p in fs && (!IsDirectory(fs[p]) || ChildNames(fs, p) == {}) ==>
              Tree(fs - {p}) && Below(fs, p) == {}
    ensures Below(fs, p) == {} ==> ChildNames(fs, p) == {}
  {
    forall q | q in fs && p < q ensures p in fs && IsDirectory(fs[p]) && q[|p|] in ChildNames(fs, p) {
      AncestorsPresent(fs, p, q);
      ThroughChild(fs, p, q);
      ChildNamesMembers(fs, p, q[|p|]);
    }
    if p in fs && (!IsDirectory(fs[p]) || ChildNames(fs, p) == {}) {
      forall q | q in fs - {p} ensures Placed(fs - {p}, q) {
        assert Placed(fs, q);
        assert q != [] && q[..|q| - 1] == p ==> p < q;
      }
    }
    forall n | n in ChildNames(fs, p) ensures p + [n] in Below(fs, p) {
      ChildNamesMembers(fs, p, n);
    }
  }

  /** Child i and everything below it is gone, the later children are as they were. */
  lemma ChildRemoved(before: FileTree, now: FileTree, after: FileTree, names: seq<string>, i: nat, dir: Path)
    requires i < |names| && names == Ascending(ChildNames(before, dir))
    requires OnlyBelow(before, now, dir)
    requires forall q :: q in now && !(dir + [names[i]] <= q) ==> q in after
    requires forall q :: q in after ==> q in now && after[q] == now[q]
    ensures OnlyBelow(before, after, dir)
    ensures Untouched(before, now, dir, names[i..]) ==> Untouched(before, after, dir, names[i + 1..])
    ensures Cleared(now, dir, names[i..]) && Below(after, dir + [names[i]]) == {} && dir + [names[i]] !in after ==>
              Cleared(after, dir, names[i + 1..])
  {
    var child := dir + [names[i]];
    AscendingDistinct(ChildNames(before, dir));
    assert names[i..] == [names[i]] + names[i + 1..];
    assert names[i] !in names[i + 1..];
    forall q | dir < q ensures child <= q <==> q[|dir|] == names[i] {
      FirstName(dir, names[i], q);
    }
    forall q | q in after && child <= q ensures q == child || q in Below(after, child) {
    }
  }
}
