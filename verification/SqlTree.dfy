/** The parse tree of a statement and the explicit-stack walk over it. */
module SqlTree {

  /** A dictionary keeps its identity: marking one leaves equal dictionaries elsewhere unmarked. */
  datatype Tree =
    | Null
    | Bool(b: bool)
    | Num(n: int)
    | Str(s: string)
    | List(items: seq<Tree>)
    | Dict(id: nat, keys: seq<string>, values: seq<Tree>)

  function Children(t: Tree): seq<Tree> {
    match t
    case List(items) => items
    case Dict(_, _, values) => values
    case _ => []
  }

  function KeyIndex(keys: seq<string>, key: string): (i: nat)
    ensures i <= |keys| && key !in keys[..i] && (i < |keys| ==> keys[i] == key)
  {
    if keys == [] || keys[0] == key then 0
    else
      assert forall i :: KeyIndex(keys[1..], key) == i ==> keys[..i + 1] == [keys[0]] + keys[1..][..i];
      1 + KeyIndex(keys[1..], key)
  }

  predicate Has(t: Tree, key: string) {
    t.Dict? && KeyIndex(t.keys, key) < |t.keys| && KeyIndex(t.keys, key) < |t.values|
  }

  /** `node.get(key)` */
  function Field(t: Tree, key: string): (v: Tree)
    ensures Has(t, key) ==> v < t
  {
    if Has(t, key) then t.values[KeyIndex(t.keys, key)] else Null
  }

  // ----- Visiting -----

  /** The dictionaries of a tree in the order the walk meets them: a parent, then its last child's tree, and so on. */
  ghost function Visits(t: Tree): seq<Tree>
    decreases t
  {
    match t
    case List(items) => VisitAll(items)
    case Dict(_, _, values) => [t] + VisitAll(values)
    case _ => []
  }

  /** The same for a stack, whose top is its end. */
  ghost function VisitAll(stack: seq<Tree>): seq<Tree>
    decreases stack
  {
    if stack == [] then [] else Visits(stack[|stack| - 1]) + VisitAll(stack[..|stack| - 1])
  }

  ghost predicate AllDicts(nodes: seq<Tree>) {
    forall i :: 0 <= i < |nodes| ==> nodes[i].Dict?
  }

  /** No two dictionaries of the list share an identity. */
  ghost predicate OwnIdentities(nodes: seq<Tree>) {
    AllDicts(nodes) && forall i, j :: 0 <= i < j < |nodes| ==> nodes[i].id != nodes[j].id
  }

  /** Pushing more trees means visiting them, the last first, before the rest. */
  lemma {:induction false} PushVisits(stack: seq<Tree>, more: seq<Tree>)
    ensures VisitAll(stack + more) == VisitAll(more) + VisitAll(stack)
    decreases |more|
  {
    hide Visits;
    if more == [] {
      assert stack + more == stack;
    } else {
      var init, last := more[..|more| - 1], more[|more| - 1];
      assert (stack + more)[..|stack + more| - 1] == stack + init;
      PushVisits(stack, init);
    }
  }

  function Own(t: Tree): seq<Tree> {
    if t.Dict? then [t] else []
  }

  lemma VisitsOf(t: Tree)
    ensures Visits(t) == Own(t) + VisitAll(Children(t))
  {
  }

  /** One turn of the walk. */
  lemma PopVisits(stack: seq<Tree>)
    requires stack != []
    ensures var t, rest := stack[|stack| - 1], stack[..|stack| - 1];
            VisitAll(stack) == Own(t) + VisitAll(rest + Children(t))
  {
    var t, rest := stack[|stack| - 1], stack[..|stack| - 1];
    assert VisitAll(stack) == Visits(t) + VisitAll(rest);
    hide VisitAll, Visits, Children, Own;
    VisitsOf(t);
    PushVisits(rest, Children(t));
  }

  lemma VisitNothing()
    ensures VisitAll([]) == []
  {
  }

  lemma VisitOne(t: Tree)
    ensures VisitAll([t]) == Visits(t)
  {
    assert [t][..0] == [];
  }

  ghost function Weight(t: Tree): nat
    decreases t
  {
    match t
    case List(items) => 1 + WeightAll(items)
    case Dict(_, _, values) => 1 + WeightAll(values)
    case _ => 1
  }

  ghost function WeightAll(stack: seq<Tree>): nat
    decreases stack
  {
    if stack == [] then 0 else Weight(stack[|stack| - 1]) + WeightAll(stack[..|stack| - 1])
  }

  lemma {:induction false} PushWeight(stack: seq<Tree>, more: seq<Tree>)
    ensures WeightAll(stack + more) == WeightAll(more) + WeightAll(stack)
    decreases |more|
  {
    hide Weight;
    if more == [] {
      assert stack + more == stack;
    } else {
      var init, last := more[..|more| - 1], more[|more| - 1];
      assert (stack + more)[..|stack + more| - 1] == stack + init;
      PushWeight(stack, init);
    }
  }

  lemma PopWeight(stack: seq<Tree>)
    requires stack != []
    ensures WeightAll(stack[..|stack| - 1] + Children(stack[|stack| - 1])) < WeightAll(stack)
  {
    PushWeight(stack[..|stack| - 1], Children(stack[|stack| - 1]));
  }

  /** `_walk`: the dictionaries in the order they are yielded. */
  method Walk(root: Tree) returns (visited: seq<Tree>)
    ensures visited == Visits(root)
  {
    hide Visits, VisitAll, WeightAll, Children;
    var stack := [root];
    visited := [];
    VisitNothing();
    VisitOne(root);
    while stack != []
      invariant visited + VisitAll(stack) == Visits(root)
      decreases WeightAll(stack)
    {
      var current := stack[|stack| - 1];
      PopVisits(stack);
      PopWeight(stack);
      stack := stack[..|stack| - 1] + Children(current);
      if current.Dict? {
        visited := visited + [current];
      }
    }
  }

  // ----- Identities -----

  ghost function Ids(t: Tree): set<nat>
    decreases t
  {
    match t
    case List(items) => IdsOfAll(items)
    case Dict(id, _, values) => {id} + IdsOfAll(values)
    case _ => {}
  }

  ghost function IdsOfAll(trees: seq<Tree>): set<nat>
    decreases trees
  {
    if trees == [] then {} else Ids(trees[|trees| - 1]) + IdsOfAll(trees[..|trees| - 1])
  }

  /** No two dictionaries of the tree share an identity, as after parsing JSON text. */
  ghost predicate UniqueIds(t: Tree)
    decreases t
  {
    match t
    case List(items) => UniqueInAll(items)
    case Dict(id, _, values) => id !in IdsOfAll(values) && UniqueInAll(values)
    case _ => true
  }

  ghost predicate UniqueInAll(trees: seq<Tree>)
    decreases trees
  {
    trees == []
    || (&& UniqueIds(trees[|trees| - 1]) && UniqueInAll(trees[..|trees| - 1])
        && Ids(trees[|trees| - 1]) !! IdsOfAll(trees[..|trees| - 1]))
  }

  ghost function IdsOf(nodes: seq<Tree>): set<nat> {
    set x | x in nodes && x.Dict? :: x.id
  }

  lemma IdsOfParts(a: seq<Tree>, b: seq<Tree>)
    ensures IdsOf(a + b) == IdsOf(a) + IdsOf(b)
  {
    assert forall x :: x in a + b <==> x in a || x in b;
    forall id ensures id in IdsOf(a + b) <==> id in IdsOf(a) || id in IdsOf(b) {
      if id in IdsOf(a + b) {
        var x :| x in a + b && x.Dict? && x.id == id;
      }
      if id in IdsOf(a) {
        var x :| x in a && x.Dict? && x.id == id;
        assert x in a + b;
      }
      if id in IdsOf(b) {
        var x :| x in b && x.Dict? && x.id == id;
        assert x in a + b;
      }
    }
  }

  lemma OwnIdentitiesOfParts(a: seq<Tree>, b: seq<Tree>)
    ensures OwnIdentities(a + b) <==> OwnIdentities(a) && OwnIdentities(b) && IdsOf(a) !! IdsOf(b)
  {
    var all := a + b;
    assert forall i :: 0 <= i < |a| ==> all[i] == a[i];
    assert forall i :: 0 <= i < |b| ==> all[|a| + i] == b[i];
    if OwnIdentities(all) {
      forall x, y | x in a && y in b ensures x.Dict? && y.Dict? && x.id != y.id {
        var i :| 0 <= i < |a| && a[i] == x;
        var j :| 0 <= j < |b| && b[j] == y;
        assert all[i].id != all[|a| + j].id;
      }
    }
    if OwnIdentities(a) && OwnIdentities(b) && IdsOf(a) !! IdsOf(b) {
      forall i, j | 0 <= i < j < |all| ensures all[i].Dict? && all[j].Dict? && all[i].id != all[j].id {
        if i < |a| <= j {
          assert a[i].id in IdsOf(a) && b[j - |a|].id in IdsOf(b);
        }
      }
    }
  }

  /** Identities are unique in the tree exactly when no two visits meet the same one. */
  lemma {:induction false} UniqueIdsMeaning(t: Tree)
    ensures IdsOf(Visits(t)) == Ids(t) && (OwnIdentities(Visits(t)) <==> UniqueIds(t))
    decreases t
  {
    hide OwnIdentities, IdsOf;
    VisitsNothing();
    match t
    case List(items) => UniqueInAllMeaning(items);
    case Dict(id, _, values) =>
      UniqueInAllMeaning(values);
      IdsOfParts([t], VisitAll(values));
      OwnIdentitiesOfParts([t], VisitAll(values));
      VisitsItself(t);
    case _ =>
  }

  lemma {:induction false} UniqueInAllMeaning(stack: seq<Tree>)
    ensures IdsOf(VisitAll(stack)) == IdsOfAll(stack) && (OwnIdentities(VisitAll(stack)) <==> UniqueInAll(stack))
    decreases stack
  {
    hide Visits, OwnIdentities, IdsOf, Ids, UniqueIds;
    VisitsNothing();
    if stack != [] {
      var init, last := stack[..|stack| - 1], stack[|stack| - 1];
      UniqueIdsMeaning(last);
      UniqueInAllMeaning(init);
      IdsOfParts(Visits(last), VisitAll(init));
      OwnIdentitiesOfParts(Visits(last), VisitAll(init));
    }
  }

  lemma VisitsNothing()
    ensures IdsOf([]) == {} && OwnIdentities([])
  {
  }

  lemma VisitsItself(t: Tree)
    requires t.Dict?
    ensures IdsOf([t]) == {t.id} && OwnIdentities([t])
  {
    assert t in [t];
  }

  // ----- Each once, parents first -----

  ghost predicate Occurs(t: Tree, root: Tree)
    decreases root
  {
    t == root || exists i :: 0 <= i < |Children(root)| && Occurs(t, Children(root)[i])
  }

  /** The walk visits exactly the dictionaries that occur in the tree. */
  lemma {:induction false} VisitsEverything(root: Tree)
    ensures forall t :: t in Visits(root) <==> t.Dict? && Occurs(t, root)
    decreases root
  {
    hide Visits, VisitAll;
    var kids := Children(root);
    VisitsOf(root);
    forall i | 0 <= i < |kids| ensures forall t :: t in Visits(kids[i]) <==> t.Dict? && Occurs(t, kids[i]) {
      VisitsEverything(kids[i]);
    }
    VisitAllMembers(kids);
  }

  lemma {:induction false} VisitAllMembers(stack: seq<Tree>)
    ensures forall t :: t in VisitAll(stack) <==> exists i :: 0 <= i < |stack| && t in Visits(stack[i])
    decreases stack
  {
    hide Visits;
    if stack != [] {
      var init, last := stack[..|stack| - 1], stack[|stack| - 1];
      VisitAllMembers(init);
      assert VisitAll(stack) == Visits(last) + VisitAll(init);
      hide VisitAll;
      forall t ensures t in VisitAll(stack) <==> exists i :: 0 <= i < |stack| && t in Visits(stack[i]) {
        if t in VisitAll(init) {
          var i :| 0 <= i < |init| && t in Visits(init[i]);
          assert t in Visits(stack[i]);
        }
        if i :| 0 <= i < |stack| && t in Visits(stack[i]) {
          assert i < |init| ==> t in Visits(init[i]);
        }
      }
    }
  }

  /** The dictionaries of a tree, each as often as it occurs. */
  ghost function Dicts(t: Tree): multiset<Tree>
    decreases t
  {
    match t
    case List(items) => DictsOfAll(items)
    case Dict(_, _, values) => multiset{t} + DictsOfAll(values)
    case _ => multiset{}
  }

  ghost function DictsOfAll(trees: seq<Tree>): multiset<Tree>
    decreases trees
  {
    if trees == [] then multiset{} else Dicts(trees[0]) + DictsOfAll(trees[1..])
  }

  lemma {:induction false} DictsOfLast(trees: seq<Tree>)
    requires trees != []
    ensures DictsOfAll(trees) == DictsOfAll(trees[..|trees| - 1]) + Dicts(trees[|trees| - 1])
    decreases |trees|
  {
    hide Dicts;
    if |trees| == 1 {
      assert trees[1..] == [] && trees[..0] == [];
    } else {
      var rest := trees[1..];
      DictsOfLast(rest);
      assert trees[..|trees| - 1][1..] == rest[..|rest| - 1];
    }
  }

  /** The walk visits every dictionary once for each place where it occurs. */
  lemma {:induction false} VisitsOncePerPlace(root: Tree)
    ensures multiset(Visits(root)) == Dicts(root)
    decreases root
  {
    match root
    case List(items) => VisitsAllOnce(items);
    case Dict(_, _, values) =>
      VisitsAllOnce(values);
      assert Visits(root) == [root] + VisitAll(values);
    case _ =>
  }

  lemma {:induction false} VisitsAllOnce(stack: seq<Tree>)
    ensures multiset(VisitAll(stack)) == DictsOfAll(stack)
    decreases stack
  {
    hide Visits, Dicts;
    if stack != [] {
      var init, last := stack[..|stack| - 1], stack[|stack| - 1];
      VisitsOncePerPlace(last);
      VisitsAllOnce(init);
      DictsOfLast(stack);
      assert VisitAll(stack) == Visits(last) + VisitAll(init);
    }
  }

  /** b is a value of a, directly or inside lists. */
  ghost predicate Beneath(a: Tree, b: Tree)
    decreases a
  {
    exists i :: 0 <= i < |Children(a)| && (Children(a)[i] == b || Beneath(Children(a)[i], b))
  }

  ghost predicate Before(nodes: seq<Tree>, a: Tree, b: Tree) {
    exists i, j :: 0 <= i < j < |nodes| && nodes[i] == a && nodes[j] == b
  }

  /** A dictionary is visited before every dictionary beneath it. */
  lemma {:induction false} ParentsFirst(root: Tree, a: Tree, b: Tree)
    requires a.Dict? && b.Dict? && Occurs(a, root) && Beneath(a, b)
    ensures Before(Visits(root), a, b)
    decreases root
  {
    hide Visits, VisitAll, Beneath;
    var kids := Children(root);
    VisitsOf(root);
    if a == root {
      BeneathSmaller(a, b);
      var j :| 0 <= j < |VisitAll(kids)| && VisitAll(kids)[j] == b;
      assert Visits(root)[0] == a && Visits(root)[j + 1] == b;
    } else {
      var i :| 0 <= i < |kids| && Occurs(a, kids[i]);
      ParentsFirst(kids[i], a, b);
      InsideStack(kids, i, a, b);
      var m, n :| 0 <= m < n < |VisitAll(kids)| && VisitAll(kids)[m] == a && VisitAll(kids)[n] == b;
      var shift := |Own(root)|;
      assert Visits(root)[m + shift] == a && Visits(root)[n + shift] == b;
    }
  }

  lemma {:induction false} BeneathOccurs(a: Tree, b: Tree)
    requires Beneath(a, b)
    ensures Occurs(b, a)
    decreases a
  {
    var i :| 0 <= i < |Children(a)| && (Children(a)[i] == b || Beneath(Children(a)[i], b));
    if Children(a)[i] != b {
      BeneathOccurs(Children(a)[i], b);
    }
    assert Occurs(b, Children(a)[i]);
  }

  lemma BeneathSmaller(a: Tree, b: Tree)
    requires Beneath(a, b) && b.Dict?
    ensures b in VisitAll(Children(a))
  {
    hide Visits;
    var kids := Children(a);
    var i :| 0 <= i < |kids| && (kids[i] == b || Beneath(kids[i], b));
    if kids[i] != b {
      BeneathOccurs(kids[i], b);
    }
    VisitsEverything(kids[i]);
    VisitAllMembers(kids);
    assert b in Visits(kids[i]);
  }

  lemma {:induction false} InsideStack(stack: seq<Tree>, i: nat, a: Tree, b: Tree)
    requires i < |stack| && Before(Visits(stack[i]), a, b)
    ensures Before(VisitAll(stack), a, b)
    decreases |stack|
  {
    hide Visits;
    var init, last := stack[..|stack| - 1], stack[|stack| - 1];
    var first, rest := Visits(last), VisitAll(init);
    assert VisitAll(stack) == first + rest;
    if i == |init| {
      var m, n :| 0 <= m < n < |first| && first[m] == a && first[n] == b;
      assert (first + rest)[m] == a && (first + rest)[n] == b;
    } else {
      InsideStack(init, i, a, b);
      var m, n :| 0 <= m < n < |rest| && rest[m] == a && rest[n] == b;
      assert (first + rest)[|first| + m] == a && (first + rest)[|first| + n] == b;
    }
  }
}
