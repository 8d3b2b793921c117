/** A quiet file system as a map from absolute paths to lstat results, and the flat inventories taken of it. */
module DiskTree {
  import opened Listing
  import opened Sets

  /** The components of a normalized absolute path; [] is the root directory. */
  type Path = seq<string>

  datatype Stat = Stat(device: int, inode: int, mode: nat, mount: bool)

  type FileTree = map<Path, Stat>

  datatype Kind = Directory | File | Symlink | Special

  /** `_entry_kind`: the file-type bits of st_mode. */
  function KindOf(mode: nat): Kind {
    match mode / 0x1000 % 0x10
    case 4 => Directory
    case 8 => File
    case 10 => Symlink
    case _ => Special
  }

  predicate IsDirectory(s: Stat) {
    KindOf(s.mode) == Directory
  }

  /** What a directory listing can name. */
  predicate ValidName(name: string) {
    name != "" && name != "." && name != ".." && '/' !in name
  }

  predicate Placed(fs: FileTree, q: Path) {
    q != [] ==> ValidName(q[|q| - 1]) && q[..|q| - 1] in fs && IsDirectory(fs[q[..|q| - 1]])
  }

  /** Every entry lies in a directory that is there. */
  ghost predicate Tree(fs: FileTree) {
    forall q {:trigger Placed(fs, q)} :: q in fs ==> Placed(fs, q)
  }

  ghost function Below(fs: FileTree, dir: Path): set<Path> {
    set q | q in fs && dir < q
  }

  function ChildNames(fs: FileTree, dir: Path): set<string> {
    set q | q in fs && |q| == |dir| + 1 && dir <= q :: q[|dir|]
  }

  lemma ChildNamesMembers(fs: FileTree, dir: Path, name: string)
    ensures name in ChildNames(fs, dir) <==> dir + [name] in fs
  {
    if name in ChildNames(fs, dir) {
      var q :| q in fs && |q| == |dir| + 1 && dir <= q && q[|dir|] == name;
      assert q == dir + [name];
    }
    if dir + [name] in fs {
      assert (dir + [name])[|dir|] == name;
    }
  }

  lemma BelowShrinks(fs: FileTree, dir: Path, name: string)
    requires dir + [name] in fs
    ensures |Below(fs, dir + [name])| < |Below(fs, dir)|
  {
    var child := dir + [name];
    assert Below(fs, child) <= Below(fs, dir) - {child};
    SubsetSize(Below(fs, child), Below(fs, dir) - {child});
  }

  lemma {:induction false} AncestorsPresent(fs: FileTree, p: Path, q: Path)
    requires Tree(fs) && q in fs && p <= q
    ensures p in fs && (p < q ==> IsDirectory(fs[p]))
    decreases |q|
  {
    if p < q {
      var parent := q[..|q| - 1];
      assert Placed(fs, q) && p <= parent;
      assert |p| == |parent| ==> p == parent;
      AncestorsPresent(fs, p, parent);
    } else {
      assert p == q;
    }
  }

  // ----- Relative paths as strings -----

  /** The f-string that extends a relative prefix by one name. */
  function Rel(prefix: string, name: string): string {
    if prefix == "" then name else prefix + "/" + name
  }

  function RelPath(parts: Path): string {
    if parts == [] then "" else Rel(RelPath(parts[..|parts| - 1]), parts[|parts| - 1])
  }

  /** The key an inventory stores an entry under: "." for its root. */
  function Key(parts: Path): string {
    if parts == [] then "." else RelPath(parts)
  }

  predicate ValidParts(parts: Path) {
    forall i :: 0 <= i < |parts| ==> ValidName(parts[i])
  }

  function LastSlash(s: string): (i: int)
    ensures -1 <= i < |s| && (i >= 0 ==> s[i] == '/') && '/' !in s[i + 1..]
  {
    if s == "" then -1 else if s[|s| - 1] == '/' then |s| - 1 else LastSlash(s[..|s| - 1])
  }

  /** `rpartition("/")`, without the separator. */
  function RPartition(s: string): (string, string) {
    var i := LastSlash(s);
    if i < 0 then ("", s) else (s[..i], s[i + 1..])
  }

  lemma {:induction false} LastSlashAfter(head: string, name: string)
    requires '/' !in name && (head == "" || head[|head| - 1] == '/')
    ensures LastSlash(head + name) == |head| - 1
  {
    if name == "" {
      assert head + name == head;
    } else {
      LastSlashAfter(head, name[..|name| - 1]);
      assert (head + name)[..|head + name| - 1] == head + name[..|name| - 1];
      assert name[|name| - 1] in name;
    }
  }

  lemma RPartitionOfRel(prefix: string, name: string)
    requires '/' !in name
    ensures RPartition(Rel(prefix, name)) == (prefix, name)
  {
    hide LastSlash;
    if prefix != "" {
      var s := prefix + "/" + name;
      LastSlashAfter(prefix + "/", name);
      assert s[|prefix| + 1..] == name && s[..|prefix|] == prefix;
    } else {
      LastSlashAfter("", name);
      assert "" + name == name;
    }
  }

  lemma RelPathNotDot(parts: Path)
    requires ValidParts(parts) && parts != []
    ensures RelPath(parts) != "" && RelPath(parts) != "."
  {
    var prefix, name := RelPath(parts[..|parts| - 1]), parts[|parts| - 1];
    RPartitionOfRel(prefix, name);
    RPartitionOfRel("", ".");
    assert RelPath(parts) == Rel(prefix, name);
  }

  lemma {:induction false} RelPathInjective(a: Path, b: Path)
    requires ValidParts(a) && ValidParts(b) && RelPath(a) == RelPath(b)
    ensures a == b
  {
    hide RPartition, Rel, ValidName;
    if a != [] { RelPathNotDot(a); }
    if b != [] { RelPathNotDot(b); }
    if a != [] && b != [] {
      RelPathSplits(a);
      RelPathSplits(b);
      RelPathInjective(a[..|a| - 1], b[..|b| - 1]);
      assert a == a[..|a| - 1] + [a[|a| - 1]] && b == b[..|b| - 1] + [b[|b| - 1]];
    }
  }

  lemma RelPathSplits(parts: Path)
    requires ValidParts(parts) && parts != []
    ensures RPartition(RelPath(parts)) == (RelPath(parts[..|parts| - 1]), parts[|parts| - 1])
  {
    hide RPartition;
    RPartitionOfRel(RelPath(parts[..|parts| - 1]), parts[|parts| - 1]);
  }

  lemma KeyInjective(a: Path, b: Path)
    requires ValidParts(a) && ValidParts(b) && Key(a) == Key(b)
    ensures a == b
  {
    if a != [] { RelPathNotDot(a); }
    if b != [] { RelPathNotDot(b); }
    if a != [] && b != [] { RelPathInjective(a, b); }
  }

  // ----- Inventories -----

  datatype Entry = Entry(path: string, device: int, inode: int, mode: nat)

  function EntryFor(path: string, s: Stat): Entry {
    Entry(path, s.device, s.inode, s.mode)
  }

  /** The entry of path q in an inventory of the tree at root. */
  function EntryOf(fs: FileTree, root: Path, q: Path): Entry
    requires q in fs && root <= q
  {
    EntryFor(Key(q[|root|..]), fs[q])
  }

  /** What an entry inside a cleanup target must not be. */
  predicate Admissible(s: Stat, device: int) {
    && KindOf(s.mode) != Special
    && (KindOf(s.mode) != Symlink ==> s.device == device)
    && (IsDirectory(s) ==> !s.mount)
  }

  ghost predicate AllAdmissible(fs: FileTree, dir: Path, device: int) {
    forall q :: q in Below(fs, dir) ==> Admissible(fs[q], device)
  }

  /** What `_inventory_directory` appends: each entry, a directory followed by its own contents. */
  ghost function Flat(fs: FileTree, root: Path, dir: Path): seq<Entry>
    requires root <= dir
    decreases |Below(fs, dir)|, 1, 0
  {
    assert forall n :: n in Ascending(ChildNames(fs, dir)) ==> dir + [n] in fs by {
      forall n { ChildNamesMembers(fs, dir, n); }
    }
    FlatNames(fs, root, dir, Ascending(ChildNames(fs, dir)))
  }

  ghost function FlatNames(fs: FileTree, root: Path, dir: Path, names: seq<string>): seq<Entry>
    requires root <= dir && forall n :: n in names ==> dir + [n] in fs
    decreases |Below(fs, dir)|, 0, |names|
  {
    if names == [] then []
    else
      var child := dir + [names[|names| - 1]];
      assert names[|names| - 1] in names;
      BelowShrinks(fs, dir, names[|names| - 1]);
      FlatNames(fs, root, dir, names[..|names| - 1])
      + [EntryOf(fs, root, child)] + if IsDirectory(fs[child]) then Flat(fs, root, child) else []
  }

  // ----- What a flat inventory contains -----

  ghost predicate ListedUnder(fs: FileTree, root: Path, dir: Path, names: seq<string>, e: Entry)
    requires root <= dir
  {
    exists q :: q in fs && dir < q && q[|dir|] in names && e == EntryOf(fs, root, q)
  }

  ghost predicate Listed(fs: FileTree, root: Path, dir: Path, e: Entry)
    requires root <= dir
  {
    exists q :: q in fs && dir < q && e == EntryOf(fs, root, q)
  }

  /** A path below dir either is the named child or lies below it, and then the child is a directory. */
  lemma ThroughChild(fs: FileTree, dir: Path, q: Path)
    requires Tree(fs) && q in fs && dir < q
    ensures var child := dir + [q[|dir|]];
            child in fs && (q == child || (child < q && IsDirectory(fs[child])))
  {
    var child := dir + [q[|dir|]];
    assert child <= q;
    AncestorsPresent(fs, child, q);
    assert |q| == |child| ==> q == child;
  }

  lemma {:induction false} FlatMembers(fs: FileTree, root: Path, dir: Path)
    requires Tree(fs) && root <= dir
    ensures forall e :: e in Flat(fs, root, dir) <==> Listed(fs, root, dir, e)
    decreases |Below(fs, dir)|, 1, 0
  {
    var names := Ascending(ChildNames(fs, dir));
    forall n ensures n in names <==> dir + [n] in fs {
      ChildNamesMembers(fs, dir, n);
    }
    FlatNamesMembers(fs, root, dir, names);
    forall e ensures Listed(fs, root, dir, e) <==> ListedUnder(fs, root, dir, names, e) {
      if Listed(fs, root, dir, e) {
        var q :| q in fs && dir < q && e == EntryOf(fs, root, q);
        ThroughChild(fs, dir, q);
      }
    }
  }

  lemma {:induction false} FlatNamesMembers(fs: FileTree, root: Path, dir: Path, names: seq<string>)
    requires Tree(fs) && root <= dir && forall n :: n in names ==> dir + [n] in fs
    ensures forall e :: e in FlatNames(fs, root, dir, names) <==> ListedUnder(fs, root, dir, names, e)
    decreases |Below(fs, dir)|, 0, |names|
  {
    if names != [] {
      var init, name := names[..|names| - 1], names[|names| - 1];
      var child := dir + [name];
      assert name in names;
      BelowShrinks(fs, dir, name);
      FlatNamesMembers(fs, root, dir, init);
      if IsDirectory(fs[child]) {
        FlatMembers(fs, root, child);
      }
      forall e ensures e in FlatNames(fs, root, dir, names) <==> ListedUnder(fs, root, dir, names, e) {
        LastName(fs, root, dir, names, e);
      }
    }
  }

  /** The entries under names are those under all but the last, the last child, and those below it. */
  lemma LastName(fs: FileTree, root: Path, dir: Path, names: seq<string>, e: Entry)
    requires Tree(fs) && root <= dir && names != [] && forall n :: n in names ==> dir + [n] in fs
    ensures var init, child := names[..|names| - 1], dir + [names[|names| - 1]];
            ListedUnder(fs, root, dir, names, e) <==>
            || ListedUnder(fs, root, dir, init, e) || e == EntryOf(fs, root, child)
            || (IsDirectory(fs[child]) && Listed(fs, root, child, e))
  {
    var init, name := names[..|names| - 1], names[|names| - 1];
    var child := dir + [name];
    assert name in names;
    if ListedUnder(fs, root, dir, names, e) {
      var q :| q in fs && dir < q && q[|dir|] in names && e == EntryOf(fs, root, q);
      ThroughChild(fs, dir, q);
    }
    if ListedUnder(fs, root, dir, init, e) {
      var q :| q in fs && dir < q && q[|dir|] in init && e == EntryOf(fs, root, q);
      assert q[|dir|] in names;
    }
    assert dir < child && child[|dir|] == name;
    if Listed(fs, root, child, e) {
      var q :| q in fs && child < q && e == EntryOf(fs, root, q);
      assert dir < q && q[|dir|] == child[|dir|];
    }
  }

  ghost predicate SameUnder(fs: FileTree, other: FileTree, dir: Path) {
    forall q :: dir <= q ==> (q in fs <==> q in other) && (q in fs ==> fs[q] == other[q])
  }

  /** An inventory depends only on what lies under its directory. */
  lemma {:induction false} FlatLocal(fs: FileTree, other: FileTree, root: Path, dir: Path)
    requires SameUnder(fs, other, dir) && root <= dir
    ensures Flat(fs, root, dir) == Flat(other, root, dir)
    decreases |Below(fs, dir)|, 1, 0
  {
    forall n ensures n in ChildNames(fs, dir) <==> n in ChildNames(other, dir) {
      ChildNamesMembers(fs, dir, n);
      ChildNamesMembers(other, dir, n);
      assert dir <= dir + [n];
    }
    assert ChildNames(fs, dir) == ChildNames(other, dir);
    forall n ensures n in Ascending(ChildNames(fs, dir)) ==> dir + [n] in fs && dir + [n] in other {
      ChildNamesMembers(fs, dir, n);
      ChildNamesMembers(other, dir, n);
    }
    FlatNamesLocal(fs, other, root, dir, Ascending(ChildNames(fs, dir)));
  }

  lemma {:induction false} FlatNamesLocal(fs: FileTree, other: FileTree, root: Path, dir: Path, names: seq<string>)
    requires SameUnder(fs, other, dir) && root <= dir
    requires forall n :: n in names ==> dir + [n] in fs && dir + [n] in other
    ensures FlatNames(fs, root, dir, names) == FlatNames(other, root, dir, names)
    decreases |Below(fs, dir)|, 0, |names|
  {
    if names != [] {
      var child := dir + [names[|names| - 1]];
      assert names[|names| - 1] in names;
      BelowShrinks(fs, dir, names[|names| - 1]);
      FlatNamesLocal(fs, other, root, dir, names[..|names| - 1]);
      assert dir <= child;
      if IsDirectory(fs[child]) {
        FlatLocal(fs, other, root, child);
      }
    }
  }

  // ----- The index of expected children -----

  /** `{entry.relative_path: entry for entry in entries}` */
  function ByPath(entries: seq<Entry>): map<string, Entry> {
    if entries == [] then map[]
    else ByPath(entries[..|entries| - 1])[entries[|entries| - 1].path := entries[|entries| - 1]]
  }

  lemma {:induction false} ByPathMembers(entries: seq<Entry>)
    requires forall a, b :: a in entries && b in entries && a.path == b.path ==> a == b
    ensures forall e :: e in entries <==> e.path in ByPath(entries) && ByPath(entries)[e.path] == e
    ensures forall k :: k in ByPath(entries) ==> ByPath(entries)[k].path == k
  {
    if entries != [] {
      ByPathMembers(entries[..|entries| - 1]);
      assert entries == entries[..|entries| - 1] + [entries[|entries| - 1]];
    }
  }

  /** The key `_index_expected_children` gives a directory: "" for the root. */
  function DirectoryKey(relative: string): string {
    if relative == "." then "" else relative
  }

  /** The names the flat paths put directly under a directory key. */
  function NamesUnder(expected: map<string, Entry>, k: string): set<string> {
    set r | r in expected && r != "." && RPartition(r).0 == k :: RPartition(r).1
  }

  /** The expected entries are those of the tree at root. */
  ghost predicate Describes(expected: map<string, Entry>, fs: FileTree, root: Path) {
    && (forall q :: q in fs && root <= q ==>
          Key(q[|root|..]) in expected && expected[Key(q[|root|..])] == EntryOf(fs, root, q))
    && forall r :: r in expected ==> exists q :: q in fs && root <= q && r == Key(q[|root|..])
  }

  lemma PartsValid(fs: FileTree, root: Path, q: Path)
    requires Tree(fs) && q in fs && root <= q
    ensures ValidParts(q[|root|..])
  {
    forall i | |root| <= i < |q| ensures ValidName(q[i]) {
      AncestorsPresent(fs, q[..i + 1], q);
      assert Placed(fs, q[..i + 1]);
    }
  }

  lemma KeyOfChild(root: Path, dir: Path, name: string)
    requires root <= dir
    ensures Key((dir + [name])[|root|..]) == Rel(RelPath(dir[|root|..]), name)
    ensures RelPath((dir + [name])[|root|..]) == Rel(RelPath(dir[|root|..]), name)
  {
    assert (dir + [name])[|root|..] == dir[|root|..] + [name];
  }

  /** Splitting a flat path at its last slash gives back the parent's flat path and the name, and only those. */
  lemma PathFromParent(parts: Path, dir: Path, name: string)
    requires ValidParts(parts) && parts != [] && ValidParts(dir)
    ensures RPartition(RelPath(parts)) == (RelPath(dir), name) <==> parts == dir + [name]
  {
    hide RPartition, Rel;
    var init, last := parts[..|parts| - 1], parts[|parts| - 1];
    assert parts == init + [last];
    RPartitionOfRel(RelPath(init), last);
    assert RelPath(parts) == Rel(RelPath(init), last);
    if RelPath(init) == RelPath(dir) {
      RelPathInjective(init, dir);
    }
    assert parts == dir + [name] ==> init == dir && last == name;
  }

  lemma ChildFromPath(fs: FileTree, root: Path, dir: Path, q: Path, name: string)
    requires Tree(fs) && dir in fs && root <= dir && q in fs && root < q
    ensures RPartition(Key(q[|root|..])) == (RelPath(dir[|root|..]), name) <==> q == dir + [name]
    ensures Key(q[|root|..]) != "."
  {
    hide RPartition, RelPath, ValidName;
    PartsValid(fs, root, q);
    PartsValid(fs, root, dir);
    PathFromParent(q[|root|..], dir[|root|..], name);
    RelPathNotDot(q[|root|..]);
    assert q == root + q[|root|..] && dir == root + dir[|root|..];
    assert (dir + [name])[|root|..] == dir[|root|..] + [name];
  }

  /** The names indexed under a directory are exactly its children, though the index sees only flat paths. */
  lemma IndexRebuildsChildren(expected: map<string, Entry>, fs: FileTree, root: Path, dir: Path)
    requires Tree(fs) && Describes(expected, fs, root) && dir in fs && root <= dir
    ensures NamesUnder(expected, RelPath(dir[|root|..])) == ChildNames(fs, dir)
  {
    hide RPartition, RelPath, Key;
    var k := RelPath(dir[|root|..]);
    forall n ensures n in NamesUnder(expected, k) <==> n in ChildNames(fs, dir) {
      ChildNamesMembers(fs, dir, n);
      var child := dir + [n];
      if child in fs {
        ChildFromPath(fs, root, dir, child, n);
        assert Key(child[|root|..]) in expected;
      }
      if n in NamesUnder(expected, k) {
        var r :| r in expected && r != "." && RPartition(r) == (k, n);
        var q :| q in fs && root <= q && r == Key(q[|root|..]);
        assert q != root by {
          RootKey(root);
        }
        ChildFromPath(fs, root, dir, q, n);
      }
    }
  }

  lemma RootKey(root: Path)
    ensures Key(root[|root|..]) == "."
  {
  }
}
