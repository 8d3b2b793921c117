/** The SQL guard: which parse trees may run, decided in one walk that marks reader calls in place. */
module SqlGuard {
  import opened Wrappers
  import opened Text
  import opened StorageScope
  import opened SqlTree

  // ----- Reading fields -----

  predicate Truthy(t: Tree) {
    match t
    case Null => false
    case Bool(b) => b
    case Num(n) => n != 0
    case Str(s) => s != ""
    case List(items) => items != []
    case Dict(_, keys, _) => keys != []
  }

  /** `str(value or "")`; only strings spell identifiers. */
  function StrOf(t: Tree): string {
    if t.Str? then t.s else if Truthy(t) then "?" else ""
  }

  /** `value or []` */
  function ItemsOf(t: Tree): seq<Tree> {
    if t.List? then t.items else []
  }

  predicate IdentifierStart(c: char) {
    'A' <= c <= 'Z' || 'a' <= c <= 'z' || c == '_'
  }

  /** `[A-Za-z_][A-Za-z0-9_]*` */
  predicate PlainIdentifier(s: string) {
    s != "" && IdentifierStart(s[0]) && forall i :: 0 <= i < |s| ==> IdentifierStart(s[i]) || '0' <= s[i] <= '9'
  }

  // ----- CTE names -----

  /** The relations and the table functions the engine itself provides. */
  datatype Catalog = Catalog(relations: set<string>, tableFunctions: set<string>)

  /** `_usable_name` */
  predicate UsableName(catalog: Catalog, name: string) {
    PlainIdentifier(name) && Lower(name) !in catalog.relations
  }

  function EntryKeys(entries: seq<Tree>): seq<string> {
    if entries == [] then []
    else EntryKeys(entries[..|entries| - 1]) + [StrOf(Field(entries[|entries| - 1], "key"))]
  }

  /** The CTE names one dictionary declares. */
  function DeclaredNames(node: Tree): seq<string> {
    (if Field(node, "cte_map").Dict? then EntryKeys(ItemsOf(Field(Field(node, "cte_map"), "map"))) else [])
    + if Field(node, "type") == Str("RECURSIVE_CTE_NODE") then [StrOf(Field(node, "cte_name"))] else []
  }

  /** The names declared anywhere in a tree. */
  ghost function NamesIn(t: Tree): set<string>
    decreases t
  {
    match t
    case List(items) => NamesInAll(items)
    case Dict(_, _, values) => (set name | name in DeclaredNames(t)) + NamesInAll(values)
    case _ => {}
  }

  ghost function NamesInAll(trees: seq<Tree>): set<string>
    decreases trees
  {
    if trees == [] then {} else NamesIn(trees[|trees| - 1]) + NamesInAll(trees[..|trees| - 1])
  }

  ghost predicate AllUsable(catalog: Catalog, names: set<string>) {
    forall name :: name in names ==> UsableName(catalog, name)
  }

  function LowerAll(names: set<string>): set<string> {
    set name | name in names :: Lower(name)
  }

  lemma {:induction false} PushNames(stack: seq<Tree>, more: seq<Tree>)
    ensures NamesInAll(stack + more) == NamesInAll(more) + NamesInAll(stack)
    decreases |more|
  {
    hide NamesIn;
    if more == [] {
      assert stack + more == stack;
    } else {
      assert (stack + more)[..|stack + more| - 1] == stack + more[..|more| - 1];
      PushNames(stack, more[..|more| - 1]);
    }
  }

  lemma PopNames(stack: seq<Tree>)
    requires stack != []
    ensures var t, rest := stack[|stack| - 1], stack[..|stack| - 1];
            NamesInAll(stack) == (if t.Dict? then set name | name in DeclaredNames(t) else {})
                                 + NamesInAll(rest + Children(t))
  {
    hide DeclaredNames;
    PushNames(stack[..|stack| - 1], Children(stack[|stack| - 1]));
    assert NamesInAll([]) == {};
  }

  lemma NamesOfOne(t: Tree)
    ensures NamesInAll([t]) == NamesIn(t)
  {
    assert [t][..0] == [];
  }

  /** `_cte_names`: all declared names, or None when one of them is not usable. */
  method CteNames(root: Tree, catalog: Catalog) returns (r: Option<set<string>>)
    ensures r.Some? <==> AllUsable(catalog, NamesIn(root))
    ensures r.Some? ==> r.value == LowerAll(NamesIn(root))
  {
    hide NamesIn, NamesInAll, DeclaredNames, UsableName, Lower, Children;
    var stack, names := [root], {};
    ghost var seen: set<string> := {};
    NamesOfOne(root);
    while stack != []
      invariant seen + NamesInAll(stack) == NamesIn(root)
      invariant AllUsable(catalog, seen) && names == LowerAll(seen)
      decreases WeightAll(stack)
    {
      hide WeightAll;
      var current := stack[|stack| - 1];
      PopNames(stack);
      PopWeight(stack);
      stack := stack[..|stack| - 1] + Children(current);
      if current.Dict? {
        var declared := DeclaredNames(current);
        ghost var before := seen;
        for i := 0 to |declared|
          invariant seen == before + (set name | name in declared[..i])
          invariant AllUsable(catalog, seen) && names == LowerAll(seen)
        {
          assert declared[i] in declared && declared[i] in NamesIn(root);
          if !UsableName(catalog, declared[i]) {
            return None;
          }
          names, seen := names + {Lower(declared[i])}, seen + {declared[i]};
          assert declared[..i + 1] == declared[..i] + [declared[i]];
        }
        assert declared[..|declared|] == declared;
      }
    }
    NoNamesLeft();
    return Some(names);
  }

  lemma NoNamesLeft()
    ensures NamesInAll([]) == {}
  {
  }

  // ----- Constant arguments -----

  const STATIC_CONTAINERS := {"struct_pack", "list_value", "row"}

  /** `_constant_text` */
  function ConstantText(node: Tree): Option<string> {
    if Field(node, "class") == Str("COLUMN_REF") then
      var names := ItemsOf(Field(node, "column_names"));
      if |names| == 1 then Some(StrOf(names[0])) else None
    else if Field(node, "class") != Str("CONSTANT") then None
    else
      var value := Field(node, "value");
      if Truthy(Field(value, "is_null")) || Field(Field(value, "type"), "id") != Str("VARCHAR") then None
      else Some(StrOf(Field(value, "value")))
  }

  /** `_is_static` */
  predicate IsStatic(node: Tree)
    decreases node
  {
    && node.Dict?
    && var kind := Field(node, "class");
       || kind == Str("CONSTANT")
       || (kind == Str("CAST") && Has(node, "child") && IsStatic(Field(node, "child")))
       || (kind == Str("FUNCTION") && Field(node, "function_name").Str?
           && Field(node, "function_name").s in STATIC_CONTAINERS
           && (Has(node, "children") ==>
                 var items := ItemsOf(Field(node, "children"));
                 forall i :: 0 <= i < |items| ==> IsStatic(items[i]) || ConstantText(items[i]).Some?))
  }

  predicate ValidOption(option: Tree) {
    && option.Dict?
    && if Field(option, "class") == Str("COMPARISON")
       then Field(Field(option, "left"), "class") == Str("COLUMN_REF") && IsStatic(Field(option, "right"))
       else Truthy(Field(option, "alias")) && IsStatic(option)
  }

  /** `_reader_paths`: the one path, or None. */
  function ReaderPath(call: Tree): Option<string> {
    var children := ItemsOf(Field(call, "children"));
    if children == [] || ConstantText(children[0]).None? then None
    else if exists i :: 1 <= i < |children| && !ValidOption(children[i]) then None
    else ConstantText(children[0])
  }

  // ----- One node -----

  /** What a query may use. */
  datatype Policy = Policy(
    tables: set<string>, prefixes: seq<string>, tenant: Option<string>, workspace: Option<string>, catalog: Catalog)

  datatype Violation =
    | UnusableCteName | UnsupportedRelation(kind: string) | UnknownTable | QualifiedFunction | NotLiteralReader
    | ReaderPathRefused(UriError) | ForbiddenTableFunction(name: string) | ForbiddenFunction(name: string)

  const TABLE_REF_TYPES :=
    {"BASE_TABLE", "TABLE_FUNCTION", "SUBQUERY", "JOIN", "EMPTY", "EXPRESSION_LIST", "PIVOT"}
  const READER_TABLE_FUNCTIONS := {"read_parquet", "read_csv"}
  const SAFE_TABLE_FUNCTIONS := {"range", "generate_series", "unnest"}
  const BLOCKED_PREFIXES :=
    ["read_", "parquet_", "duckdb_", "pragma_", "iceberg_", "delta_", "sqlite_", "postgres_", "mysql_", "st_read"]
  const BLOCKED_FUNCTIONS := {
    "glob", "sniff_csv", "query", "query_table", "getenv", "current_setting", "getvariable",
    "which_secret", "json_serialize_sql", "json_serialize_plan", "json_deserialize_sql",
    "json_execute_serialized_sql", "current_query", "csv_scan", "csv_auto", "json_scan", "load", "install"
  }

  predicate IsTableRef(node: Tree) {
    Field(node, "type").Str? && !Has(node, "class") && Has(node, "query_location") && Has(node, "alias")
  }

  function FunctionName(node: Tree): string {
    Lower(StrOf(Field(node, "function_name")))
  }

  function TableViolation(node: Tree, policy: Policy): Option<Violation> {
    var name := StrOf(Field(node, "table_name"));
    if Truthy(Field(node, "schema_name")) || Truthy(Field(node, "catalog_name")) || !PlainIdentifier(name)
       || Lower(name) !in policy.tables
    then Some(UnknownTable) else None
  }

  function TableFunctionViolation(node: Tree, policy: Policy): Option<Violation> {
    var f := Field(node, "function");
    var schema := Field(f, "schema");
    if schema !in {Str(""), Str("main"), Null} then Some(QualifiedFunction)
    else if FunctionName(f) in READER_TABLE_FUNCTIONS then
      match ReaderPath(f)
      case None => Some(NotLiteralReader)
      case Some(path) =>
        match RequireScopedReaderUri(path, policy.prefixes, policy.tenant, policy.workspace)
        case Failure(e) => Some(ReaderPathRefused(e))
        case Success(_) => None
    else if FunctionName(f) !in SAFE_TABLE_FUNCTIONS then Some(ForbiddenTableFunction(FunctionName(f)))
    else None
  }

  predicate BlockedName(name: string, catalog: Catalog) {
    || name in BLOCKED_FUNCTIONS || StartsWithAny(name, BLOCKED_PREFIXES)
    || (name in catalog.tableFunctions && name !in SAFE_TABLE_FUNCTIONS)
  }

  predicate IsCall(node: Tree) {
    Field(node, "class") in {Str("FUNCTION"), Str("WINDOW"), Str("AGGREGATE")}
  }

  /** `_node_violation`; marked says whether `_reader_call` was set on the node. */
  function NodeViolation(node: Tree, marked: bool, policy: Policy): Option<Violation> {
    var kind := Field(node, "type");
    var ref :=
      if !IsTableRef(node) then None
      else if kind.s !in TABLE_REF_TYPES then Some(UnsupportedRelation(Lower(kind.s)))
      else if kind.s == "BASE_TABLE" then TableViolation(node, policy)
      else if kind.s == "TABLE_FUNCTION" then TableFunctionViolation(node, policy)
      else None;
    if ref.Some? then ref
    else if IsCall(node) && BlockedName(FunctionName(node), policy.catalog) && !marked
    then Some(ForbiddenFunction(FunctionName(node)))
    else None
  }

  /** A table function whose function child gets the mark. */
  predicate ReaderTable(node: Tree) {
    && Field(node, "type") == Str("TABLE_FUNCTION") && !Has(node, "class") && Field(node, "function").Dict?
    && FunctionName(Field(node, "function")) in READER_TABLE_FUNCTIONS
  }

  // ----- The recursive definition -----

  /** The i-th child is the function of a reader table function. */
  predicate Exempt(parent: Tree, i: nat) {
    parent.Dict? && ReaderTable(parent) && i == KeyIndex(parent.keys, "function")
  }

  function OrElse(a: Option<Violation>, b: Option<Violation>): Option<Violation> {
    if a.Some? then a else b
  }

  /** The first violation in a tree; exempt says whether its root is exempt from the function check. */
  ghost function Finding(t: Tree, exempt: bool, policy: Policy): Option<Violation>
    decreases t, 1, 0
  {
    OrElse(if t.Dict? then NodeViolation(t, exempt, policy) else None, ChildFinding(t, |Children(t)|, policy))
  }

  /** The first violation among the first n children, the last of them first. */
  ghost function ChildFinding(t: Tree, n: nat, policy: Policy): Option<Violation>
    requires n <= |Children(t)|
    decreases t, 0, n
  {
    if n == 0 then None
    else OrElse(Finding(Children(t)[n - 1], Exempt(t, n - 1), policy), ChildFinding(t, n - 1, policy))
  }

  // ----- The walk -----

  predicate Marked(t: Tree, marks: set<nat>) {
    t.Dict? && t.id in marks
  }

  /** The first violation the walk will meet with this stack and these marks. */
  ghost function StackFinding(stack: seq<Tree>, marks: set<nat>, policy: Policy): Option<Violation> {
    if stack == [] then None
    else
      var n := |stack| - 1;
      OrElse(Finding(stack[n], Marked(stack[n], marks), policy), StackFinding(stack[..n], marks, policy))
  }

  /** Below the trees on the stack nothing is marked yet. */
  ghost predicate InnerUnmarked(stack: seq<Tree>, marks: set<nat>) {
    forall i, x :: 0 <= i < |stack| && x in VisitAll(Children(stack[i])) ==> !Marked(x, marks)
  }

  /** What is known of the stack at every turn. */
  ghost predicate Tidy(stack: seq<Tree>, marks: set<nat>) {
    OwnIdentities(VisitAll(stack)) && InnerUnmarked(stack, marks)
  }

  function MarkFrom(t: Tree, marks: set<nat>): set<nat> {
    if t.Dict? && ReaderTable(t) then marks + {Field(t, "function").id} else marks
  }

  lemma IdentitiesOfParts(a: seq<Tree>, b: seq<Tree>)
    requires OwnIdentities(a + b)
    ensures OwnIdentities(a) && OwnIdentities(b)
    ensures forall x, y :: x in a && y in b ==> x.Dict? && y.Dict? && x.id != y.id
  {
    OwnIdentitiesOfParts(a, b);
    forall x, y | x in a && y in b ensures x.Dict? && y.Dict? && x.id != y.id {
      assert x.id in IdsOf(a) && y.id in IdsOf(b);
    }
  }

  lemma InVisits(t: Tree, x: Tree)
    ensures x in VisitAll(Children(t)) ==> x in Visits(t)
    ensures t.Dict? ==> t in Visits(t)
  {
    hide Visits, VisitAll;
    VisitsOf(t);
  }

  lemma InStack(stack: seq<Tree>, i: nat, x: Tree)
    requires i < |stack| && x in Visits(stack[i])
    ensures x in VisitAll(stack)
  {
    hide Visits, VisitAll;
    VisitAllMembers(stack);
  }

  /** Two trees of a stack share no dictionary. */
  lemma {:induction false} ApartInStack(stack: seq<Tree>, i: nat, j: nat, x: Tree, y: Tree)
    requires OwnIdentities(VisitAll(stack)) && i < j < |stack| && x in Visits(stack[i]) && y in Visits(stack[j])
    ensures x.Dict? && y.Dict? && x.id != y.id
  {
    hide Visits, OwnIdentities;
    var n := |stack| - 1;
    assert VisitAll(stack) == Visits(stack[n]) + VisitAll(stack[..n]);
    IdentitiesOfParts(Visits(stack[n]), VisitAll(stack[..n]));
    if j < n {
      ApartInStack(stack[..n], i, j, x, y);
    } else {
      InStack(stack[..n], i, x);
    }
  }

  lemma {:induction false} OneInStack(stack: seq<Tree>, i: nat)
    requires OwnIdentities(VisitAll(stack)) && i < |stack|
    ensures OwnIdentities(Visits(stack[i]))
  {
    hide Visits, OwnIdentities;
    var n := |stack| - 1;
    assert VisitAll(stack) == Visits(stack[n]) + VisitAll(stack[..n]);
    IdentitiesOfParts(Visits(stack[n]), VisitAll(stack[..n]));
    if i < n {
      OneInStack(stack[..n], i);
    }
  }

  /** A dictionary on the stack has another identity than anything beneath a tree of the stack. */
  lemma InnerIsOther(stack: seq<Tree>, i: nat, j: nat, x: Tree)
    requires OwnIdentities(VisitAll(stack)) && i < |stack| && j < |stack|
    requires x in VisitAll(Children(stack[i])) && stack[j].Dict?
    ensures x.Dict? && x.id != stack[j].id
  {
    hide VisitAll, Visits, OwnIdentities;
    InVisits(stack[i], x);
    InVisits(stack[j], x);
    if i < j {
      ApartInStack(stack, i, j, x, stack[j]);
    } else if j < i {
      ApartInStack(stack, j, i, stack[j], x);
    } else {
      OneInStack(stack, i);
      VisitsOf(stack[i]);
      IdentitiesOfParts(Own(stack[i]), VisitAll(Children(stack[i])));
      assert stack[i] in Own(stack[i]);
    }
  }

  /** After the mark, exactly the exempt child of the current dictionary is marked. */
  lemma ExactlyExemptMarked(t: Tree, marks: set<nat>, i: nat)
    requires OwnIdentities(VisitAll(Children(t))) && i < |Children(t)|
    requires forall x :: x in VisitAll(Children(t)) ==> !Marked(x, marks)
    ensures Marked(Children(t)[i], MarkFrom(t, marks)) <==> Exempt(t, i)
  {
    hide VisitAll, Visits, OwnIdentities, FunctionName;
    var kids := Children(t);
    InVisits(kids[i], kids[i]);
    if kids[i].Dict? {
      InStack(kids, i, kids[i]);
    }
    if t.Dict? && ReaderTable(t) {
      var k := KeyIndex(t.keys, "function");
      InVisits(kids[k], kids[k]);
      if i < k && kids[i].Dict? {
        ApartInStack(kids, i, k, kids[i], kids[k]);
      } else if k < i && kids[i].Dict? {
        ApartInStack(kids, k, i, kids[k], kids[i]);
      }
    }
  }

  /** The children pushed on the stack are examined as the recursive definition says. */
  lemma {:induction false} PushFinding(rest: seq<Tree>, t: Tree, n: nat, marks: set<nat>, policy: Policy)
    requires n <= |Children(t)|
    requires forall i: nat :: i < n ==> (Marked(Children(t)[i], marks) <==> Exempt(t, i))
    ensures StackFinding(rest + Children(t)[..n], marks, policy)
         == OrElse(ChildFinding(t, n, policy), StackFinding(rest, marks, policy))
  {
    hide Finding, Marked, Exempt;
    if n == 0 {
      assert rest + Children(t)[..0] == rest;
    } else {
      var stack := rest + Children(t)[..n];
      assert stack[..|stack| - 1] == rest + Children(t)[..n - 1] && stack[|stack| - 1] == Children(t)[n - 1];
      PushFinding(rest, t, n - 1, marks, policy);
    }
  }

  lemma {:induction false} SameFinding(stack: seq<Tree>, marks: set<nat>, more: set<nat>, policy: Policy)
    requires forall i :: 0 <= i < |stack| ==> (Marked(stack[i], marks) <==> Marked(stack[i], more))
    ensures StackFinding(stack, marks, policy) == StackFinding(stack, more, policy)
  {
    hide Finding, Marked;
    if stack != [] {
      SameFinding(stack[..|stack| - 1], marks, more, policy);
    }
  }

  /** The new mark is on a child of the current dictionary, so nothing else on or beneath the stack is affected. */
  lemma MarkIsInside(stack: seq<Tree>, marks: set<nat>, x: Tree)
    requires stack != [] && OwnIdentities(VisitAll(stack))
    requires var t, rest := stack[|stack| - 1], stack[..|stack| - 1]; x == t || x in VisitAll(rest)
    ensures Marked(x, MarkFrom(stack[|stack| - 1], marks)) <==> Marked(x, marks)
  {
    hide VisitAll, Visits, OwnIdentities, FunctionName;
    var n := |stack| - 1;
    var t, rest := stack[n], stack[..n];
    if t.Dict? && ReaderTable(t) {
      var k := KeyIndex(t.keys, "function");
      var f := Children(t)[k];
      InVisits(f, f);
      InStack(Children(t), k, f);
      if x == t {
        InnerIsOther(stack, n, n, f);
      } else {
        SplitTop(stack);
        InVisits(t, f);
        IdentitiesOfParts(Visits(t), VisitAll(rest));
      }
    }
  }

  lemma SplitTop(stack: seq<Tree>)
    requires stack != []
    ensures VisitAll(stack) == Visits(stack[|stack| - 1]) + VisitAll(stack[..|stack| - 1])
  {
  }

  /** One turn of the walk keeps the stack tidy and leaves the first violation the same. */
  lemma WalkTurn(stack: seq<Tree>, marks: set<nat>, policy: Policy)
    requires stack != [] && Tidy(stack, marks)
    ensures var t, rest := stack[|stack| - 1], stack[..|stack| - 1];
            var next := MarkFrom(t, marks);
            && Tidy(rest + Children(t), next)
            && StackFinding(stack, marks, policy)
               == OrElse(if t.Dict? then NodeViolation(t, Marked(t, next), policy) else None,
                         StackFinding(rest + Children(t), next, policy))
  {
    hide VisitAll, Visits, OwnIdentities, FunctionName, NodeViolation, Marked, MarkFrom, Exempt, Children, Own;
    var n := |stack| - 1;
    var t, rest := stack[n], stack[..n];
    var next, kids := MarkFrom(t, marks), Children(t);
    PopVisits(stack);
    IdentitiesOfParts(Own(t), VisitAll(rest + kids));
    SplitTop(stack);
    IdentitiesOfParts(Visits(t), VisitAll(rest));
    VisitsOf(t);
    IdentitiesOfParts(Own(t), VisitAll(kids));
    forall i: nat | i < |kids| ensures Marked(kids[i], next) <==> Exempt(t, i) {
      ExactlyExemptMarked(t, marks, i);
    }
    forall i | 0 <= i < |rest| ensures Marked(rest[i], marks) <==> Marked(rest[i], next) {
      OnStack(rest, i);
      if rest[i].Dict? {
        MarkIsInside(stack, marks, rest[i]);
      } else {
        NotDictUnmarked(rest[i], marks, next);
      }
    }
    MarkIsInside(stack, marks, t);
    SameFinding(rest, marks, next, policy);
    assert kids[..|kids|] == kids;
    PushFinding(rest, t, |kids|, next, policy);
    TurnUnmarked(stack, marks);
  }

  lemma NotDictUnmarked(t: Tree, marks: set<nat>, more: set<nat>)
    requires !t.Dict?
    ensures !Marked(t, marks) && !Marked(t, more)
  {
  }

  lemma OnStack(stack: seq<Tree>, i: nat)
    requires i < |stack|
    ensures stack[i].Dict? ==> stack[i] in VisitAll(stack)
  {
    hide VisitAll, Visits;
    if stack[i].Dict? {
      InVisits(stack[i], stack[i]);
      InStack(stack, i, stack[i]);
    }
  }

  lemma TurnUnmarked(stack: seq<Tree>, marks: set<nat>)
    requires stack != [] && Tidy(stack, marks)
    ensures var t, rest := stack[|stack| - 1], stack[..|stack| - 1];
            InnerUnmarked(rest + Children(t), MarkFrom(t, marks))
  {
    hide VisitAll, Visits, OwnIdentities, FunctionName, Marked, MarkFrom;
    var n := |stack| - 1;
    var t, rest := stack[n], stack[..n];
    var next, kids := MarkFrom(t, marks), Children(t);
    SplitTop(stack);
    VisitsOf(t);
    IdentitiesOfParts(Visits(t), VisitAll(rest));
    IdentitiesOfParts(Own(t), VisitAll(kids));
    forall i, x | 0 <= i < |rest| && x in VisitAll(Children(rest[i])) ensures !Marked(x, next) {
      assert rest[i] == stack[i];
      InVisits(rest[i], x);
      InStack(rest, i, x);
      MarkIsInside(stack, marks, x);
    }
    forall i, x | 0 <= i < |kids| && x in VisitAll(Children(kids[i])) ensures !Marked(x, next) {
      InVisits(kids[i], x);
      InStack(kids, i, x);
      assert !Marked(x, marks);
      InnerOfChild(t, marks, i, x);
    }
    forall i, x | 0 <= i < |rest + kids| && x in VisitAll(Children((rest + kids)[i])) ensures !Marked(x, next) {
      assert i >= |rest| ==> (rest + kids)[i] == kids[i - |rest|];
    }
  }

  lemma InnerOfChild(t: Tree, marks: set<nat>, i: nat, x: Tree)
    requires OwnIdentities(VisitAll(Children(t))) && i < |Children(t)| && x in VisitAll(Children(Children(t)[i]))
    requires !Marked(x, marks)
    ensures !Marked(x, MarkFrom(t, marks))
  {
    hide VisitAll, Visits, OwnIdentities, FunctionName;
    if t.Dict? && ReaderTable(t) {
      InnerIsOther(Children(t), i, KeyIndex(t.keys, "function"), x);
    }
  }

  /**
   * The walk of `_ast_violation`: the explicit stack and the marks set on the way find exactly the first violation of
   * the recursive definition.
   */
  method WalkStatements(root: Tree, policy: Policy) returns (r: Option<Violation>)
    requires UniqueIds(root)
    ensures r == Finding(root, false, policy)
  {
    hide Visits, VisitAll, Finding, NodeViolation, Children, Tidy, ReaderTable, OwnIdentities;
    UniqueIdsMeaning(root);
    hide UniqueIds, Ids, IdsOf;
    var stack, marks := [root], {};
    StartWalk(root, policy);
    while stack != []
      invariant Tidy(stack, marks)
      invariant StackFinding(stack, marks, policy) == Finding(root, false, policy)
      decreases WeightAll(stack)
    {
      hide WeightAll, StackFinding, Marked;
      var current := stack[|stack| - 1];
      WalkTurn(stack, marks, policy);
      PopWeight(stack);
      stack := stack[..|stack| - 1];
      if current.Dict? {
        if ReaderTable(current) {
          MarkedFunction(current, marks);
          marks := marks + {Field(current, "function").id};
        }
        var found := NodeViolation(current, Marked(current, marks), policy);
        if found.Some? {
          return found;
        }
      }
      stack := stack + Children(current);
    }
    return None;
  }

  /** What the caller of the guard fixes; allowed names the tables there are at run time. */
  datatype Rules = Rules(
    allowed: set<string>, prefixes: seq<string>, tenant: Option<string>, workspace: Option<string>, catalog: Catalog)

  /** The policy of one statement: its own CTE names and the allowed tables. */
  function PolicyOf(rules: Rules, ctes: set<string>): Policy {
    Policy(ctes + LowerAll(rules.allowed), rules.prefixes, rules.tenant, rules.workspace, rules.catalog)
  }

  /** What the whole guard finds in a parsed statement. */
  ghost function StatementFinding(tree: Tree, rules: Rules): Option<Violation> {
    if !AllUsable(rules.catalog, NamesIn(tree)) then Some(UnusableCteName)
    else Finding(Field(tree, "statements"), false, PolicyOf(rules, LowerAll(NamesIn(tree))))
  }

  /** `_ast_violation` after parsing. */
  method AstViolation(tree: Tree, rules: Rules) returns (r: Option<Violation>)
    requires UniqueIds(tree)
    ensures r == StatementFinding(tree, rules)
  {
    hide Visits, NamesIn, Finding, AllUsable, LowerAll, OwnIdentities, UniqueIds, UniqueInAll;
    var ctes := CteNames(tree, rules.catalog);
    if ctes.None? {
      return Some(UnusableCteName);
    }
    FieldIdentities(tree, "statements");
    r := WalkStatements(Field(tree, "statements"), PolicyOf(rules, ctes.value));
  }

  lemma FieldIdentities(tree: Tree, key: string)
    requires UniqueIds(tree)
    ensures UniqueIds(Field(tree, key))
  {
    if Has(tree, key) {
      UniqueInStack(tree.values, KeyIndex(tree.keys, key));
    }
  }

  lemma {:induction false} UniqueInStack(trees: seq<Tree>, i: nat)
    requires UniqueInAll(trees) && i < |trees|
    ensures UniqueIds(trees[i])
  {
    hide UniqueIds, Ids;
    if i < |trees| - 1 {
      UniqueInStack(trees[..|trees| - 1], i);
    }
  }

  lemma MarkedFunction(t: Tree, marks: set<nat>)
    requires t.Dict? && ReaderTable(t)
    ensures Field(t, "function").Dict? && MarkFrom(t, marks) == marks + {Field(t, "function").id}
  {
  }

  lemma StartWalk(root: Tree, policy: Policy)
    requires OwnIdentities(Visits(root))
    ensures Tidy([root], {}) && StackFinding([root], {}, policy) == Finding(root, false, policy)
  {
    hide Visits, VisitAll, Finding, OwnIdentities;
    VisitOne(root);
    assert [root][..0] == [];
  }

  // ----- What an accepted tree may do -----

  /** The node is the function of a reader table function of the tree. */
  ghost predicate ReaderFunction(root: Tree, x: Tree) {
    exists p :: p in Visits(root) && ReaderTable(p) && Field(p, "function") == x
  }

  ghost predicate Clean(root: Tree, x: Tree, policy: Policy) {
    NodeViolation(x, false, policy).None? || (NodeViolation(x, true, policy).None? && ReaderFunction(root, x))
  }

  lemma {:induction false} CleanTree(root: Tree, t: Tree, exempt: bool, policy: Policy)
    requires Finding(t, exempt, policy) == None && (forall x :: x in Visits(t) ==> x in Visits(root))
    requires exempt ==> ReaderFunction(root, t)
    ensures forall x :: x in Visits(t) ==> Clean(root, x, policy)
    decreases t, 1, 0
  {
    hide Visits, VisitAll, NodeViolation, ReaderTable, ReaderFunction;
    VisitsOf(t);
    CleanChildren(root, t, |Children(t)|, policy);
    VisitAllMembers(Children(t));
  }

  lemma {:induction false} CleanChildren(root: Tree, t: Tree, n: nat, policy: Policy)
    requires n <= |Children(t)| && ChildFinding(t, n, policy) == None
    requires forall x :: x in Visits(t) ==> x in Visits(root)
    ensures forall i, x :: 0 <= i < n && x in Visits(Children(t)[i]) ==> Clean(root, x, policy)
    decreases t, 0, n
  {
    hide Visits, VisitAll, Finding, Clean;
    if n > 0 {
      CleanChildren(root, t, n - 1, policy);
      var c := Children(t)[n - 1];
      forall x | x in Visits(c) ensures x in Visits(root) {
        InStack(Children(t), n - 1, x);
        InVisits(t, x);
      }
      ExemptIsReaderFunction(root, t, n - 1);
      CleanTree(root, c, Exempt(t, n - 1), policy);
    }
  }

  lemma ExemptIsReaderFunction(root: Tree, t: Tree, i: nat)
    requires i < |Children(t)| && forall x :: x in Visits(t) ==> x in Visits(root)
    ensures Exempt(t, i) ==> ReaderFunction(root, Children(t)[i])
  {
    hide Visits, FunctionName;
    InVisits(t, t);
  }

  /** Every relation of an accepted tree is a known table, a safe table function or a reader with an accepted path. */
  ghost predicate KnownRelation(x: Tree, policy: Policy) {
    && Field(x, "type").Str? && Field(x, "type").s in TABLE_REF_TYPES
    && (Field(x, "type").s == "BASE_TABLE" ==>
          var name := StrOf(Field(x, "table_name"));
          && PlainIdentifier(name) && Lower(name) in policy.tables
          && !Truthy(Field(x, "schema_name")) && !Truthy(Field(x, "catalog_name")))
    && (Field(x, "type").s == "TABLE_FUNCTION" ==>
          var f := Field(x, "function");
          || FunctionName(f) in SAFE_TABLE_FUNCTIONS
          || (&& FunctionName(f) in READER_TABLE_FUNCTIONS && ReaderPath(f).Some?
              && var path := ReaderPath(f).value;
                 RequireScopedReaderUri(path, policy.prefixes, policy.tenant, policy.workspace).Success?))
  }

  /**
   * In a tree without a finding every relation is known, and every call of a blocked function is the function of a
   * reader table function.
   */
  lemma AcceptedTree(root: Tree, policy: Policy, x: Tree)
    requires Finding(root, false, policy) == None && x in Visits(root)
    ensures IsTableRef(x) ==> KnownRelation(x, policy)
    ensures IsCall(x) && BlockedName(FunctionName(x), policy.catalog) ==> ReaderFunction(root, x)
  {
    hide Visits, Finding, FunctionName, BlockedName, RequireScopedReaderUri, ReaderPath, ReaderTable, PlainIdentifier,
      Field;
    CleanTree(root, root, false, policy);
    assert Clean(root, x, policy);
  }

  /**
   * End to end for a tenant and a workspace: every object that an accepted tree's readers can match carries that
   * tenant and workspace in its path.
   */
  lemma AcceptedReadsStayInScope(root: Tree, policy: Policy, x: Tree, key: string)
    requires Finding(root, false, policy) == None && x in Visits(root)
    requires policy.tenant.Some? && policy.workspace.Some?
    requires IsTableRef(x) && ReaderTable(x)
    ensures ReaderPath(Field(x, "function")).Some?
    ensures var uri := ReaderPath(Field(x, "function")).value;
            && S3_SCHEME <= uri && '/' in uri[|S3_SCHEME|..] && CanonicalKey(UriKey(uri), true).Some?
            && (Matches(CanonicalKey(UriKey(uri), true).value, key) ==>
                  exists i: nat :: 2 <= i <= 3 && i + 2 <= |Split(key, '/')|
                                   && Split(key, '/')[i] == "tenant_id=" + Strip(policy.tenant.value)
                                   && Split(key, '/')[i + 1] == "workspace_id=" + Strip(policy.workspace.value))
  {
    hide Visits, Finding, FunctionName, RequireScopedReaderUri, ReaderPath, IsTableRef, Matches, CanonicalKey, Split,
      Strip, UriKey;
    AcceptedTree(root, policy, x);
    ReadersAreNotSafe();
    ReaderStaysInScope(ReaderPath(Field(x, "function")).value, policy.prefixes, policy.tenant.value,
                       policy.workspace.value, key);
  }

  lemma ReadersAreNotSafe()
    ensures forall name :: name in READER_TABLE_FUNCTIONS ==> name !in SAFE_TABLE_FUNCTIONS
  {
  }

  /**
   * The whole statement: every table it reads is one of its own CTE names or an allowed table, named plainly, and none
   * of its CTE names is a relation of the engine; so it reads an engine relation only where one is allowed.
   */
  lemma AcceptedStatement(tree: Tree, rules: Rules, x: Tree)
    requires StatementFinding(tree, rules) == None && x in Visits(Field(tree, "statements"))
    ensures forall name :: name in NamesIn(tree) ==> UsableName(rules.catalog, name)
    ensures IsTableRef(x) && Field(x, "type") == Str("BASE_TABLE") ==>
              var name := StrOf(Field(x, "table_name"));
              && PlainIdentifier(name) && !Truthy(Field(x, "schema_name")) && !Truthy(Field(x, "catalog_name"))
              && (Lower(name) in LowerAll(NamesIn(tree)) || Lower(name) in LowerAll(rules.allowed))
              && (Lower(name) in rules.catalog.relations ==> Lower(name) in LowerAll(rules.allowed))
  {
    hide Visits, NamesIn, Finding, PlainIdentifier, Field, Truthy, Lower, StrOf;
    AcceptedTree(Field(tree, "statements"), PolicyOf(rules, LowerAll(NamesIn(tree))), x);
  }
}
