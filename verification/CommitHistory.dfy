/** A commit graph, and the answers git gives about ancestors. */
module CommitHistory {
  import opened Sets

  type Commit = string

  /** Parents in order, and git's generation numbers. */
  datatype Dag = Dag(parents: map<Commit, seq<Commit>>, generation: map<Commit, nat>)

  ghost predicate Acyclic(dag: Dag) {
    forall c :: c in dag.parents ==>
      && c in dag.generation
      && forall p :: p in dag.parents[c] ==>
           p in dag.parents && p in dag.generation && dag.generation[p] < dag.generation[c]
  }

  /** `merge-base --is-ancestor`: a commit counts as its own ancestor. */
  function Ancestors(dag: Dag, c: Commit): set<Commit>
    requires Acyclic(dag)
    decreases if c in dag.generation then dag.generation[c] else 0
  {
    if c !in dag.parents then {} else {c} + set p, a | p in dag.parents[c] && a in Ancestors(dag, p) :: a
  }

  /** `rev-list --count ancestor..c` */
  function Distance(dag: Dag, ancestor: Commit, c: Commit): nat
    requires Acyclic(dag)
  {
    |Ancestors(dag, c) - Ancestors(dag, ancestor)|
  }

  /** A walk from the first commit to the last along parents. */
  ghost predicate Walk(dag: Dag, path: seq<Commit>) {
    && path != [] && path[0] in dag.parents
    && forall i :: 0 <= i < |path| - 1 ==> path[i] in dag.parents && path[i + 1] in dag.parents[path[i]]
  }

  /** Ancestors are exactly the commits some walk along parents ends in. */
  lemma AncestorsAreReachable(dag: Dag, c: Commit, a: Commit)
    requires Acyclic(dag)
    ensures a in Ancestors(dag, c) <==> exists path :: Walk(dag, path) && path[0] == c && path[|path| - 1] == a
  {
    if a in Ancestors(dag, c) {
      var path := WalkTo(dag, c, a);
      assert Walk(dag, path);
    }
    if path :| Walk(dag, path) && path[0] == c && path[|path| - 1] == a {
      WalkStaysInAncestors(dag, path);
    }
  }

  lemma {:induction false} WalkTo(dag: Dag, c: Commit, a: Commit) returns (path: seq<Commit>)
    requires Acyclic(dag) && a in Ancestors(dag, c)
    ensures Walk(dag, path) && path[0] == c && path[|path| - 1] == a
    decreases if c in dag.generation then dag.generation[c] else 0
  {
    if a == c {
      path := [c];
    } else {
      var p :| p in dag.parents[c] && a in Ancestors(dag, p);
      var rest := WalkTo(dag, p, a);
      path := [c] + rest;
    }
  }

  lemma {:induction false} WalkStaysInAncestors(dag: Dag, path: seq<Commit>)
    requires Acyclic(dag) && Walk(dag, path)
    ensures path[|path| - 1] in Ancestors(dag, path[0])
  {
    if |path| > 1 {
      assert path[1] in dag.parents[path[0]];
      forall i | 0 <= i < |path[1..]| - 1 ensures path[1..][i + 1] in dag.parents[path[1..][i]] {
        assert path[i + 1 + 1] in dag.parents[path[i + 1]];
      }
      WalkStaysInAncestors(dag, path[1..]);
    }
  }

  lemma {:induction false} AncestorsTransitive(dag: Dag, a: Commit, c: Commit)
    requires Acyclic(dag) && a in Ancestors(dag, c)
    ensures Ancestors(dag, a) <= Ancestors(dag, c)
    decreases if c in dag.generation then dag.generation[c] else 0
  {
    if a != c {
      var p :| p in dag.parents[c] && a in Ancestors(dag, p);
      AncestorsTransitive(dag, a, p);
    }
  }

  lemma {:induction false} AncestorsAreOlder(dag: Dag, a: Commit, c: Commit)
    requires Acyclic(dag) && a in Ancestors(dag, c) && a != c
    ensures a in dag.generation && c in dag.generation && dag.generation[a] < dag.generation[c]
    ensures c !in Ancestors(dag, a)
    decreases if c in dag.generation then dag.generation[c] else 0
  {
    var p :| p in dag.parents[c] && a in Ancestors(dag, p);
    if a != p {
      AncestorsAreOlder(dag, a, p);
    }
    NoOlderDescendant(dag, c, a);
  }

  lemma {:induction false} NoOlderDescendant(dag: Dag, c: Commit, a: Commit)
    requires Acyclic(dag) && a in dag.generation && c in dag.generation && dag.generation[a] < dag.generation[c]
    ensures c !in Ancestors(dag, a)
    decreases dag.generation[a]
  {
    if a in dag.parents {
      forall p | p in dag.parents[a] ensures c !in Ancestors(dag, p) {
        NoOlderDescendant(dag, c, p);
      }
    }
  }

  /** A proper ancestor is strictly farther away than its descendant. */
  lemma AncestorsAreFarther(dag: Dag, a: Commit, c: Commit, top: Commit)
    requires Acyclic(dag) && a in Ancestors(dag, c) && a != c && c in Ancestors(dag, top)
    ensures Distance(dag, c, top) < Distance(dag, a, top)
  {
    AncestorsTransitive(dag, a, c);
    AncestorsAreOlder(dag, a, c);
    assert c in Ancestors(dag, c) by {
      SelfAncestor(dag, c, top);
    }
    var near, far := Ancestors(dag, top) - Ancestors(dag, c), Ancestors(dag, top) - Ancestors(dag, a);
    assert near <= far - {c} && c in far;
    SubsetSize(near, far - {c});
  }

  lemma {:induction false} SelfAncestor(dag: Dag, c: Commit, top: Commit)
    requires Acyclic(dag) && c in Ancestors(dag, top)
    ensures c in dag.parents && c in Ancestors(dag, c)
    decreases if top in dag.generation then dag.generation[top] else 0
  {
    if c != top {
      var p :| p in dag.parents[top] && c in Ancestors(dag, p);
      SelfAncestor(dag, c, p);
    }
  }

  lemma Reflexive(dag: Dag, c: Commit)
    requires Acyclic(dag) && c in dag.parents
    ensures c in Ancestors(dag, c)
  {
  }

  /** A commit with one parent adds only itself. */
  lemma SingleParent(dag: Dag, c: Commit, p: Commit)
    requires Acyclic(dag) && c in dag.parents && dag.parents[c] == [p]
    ensures Ancestors(dag, c) == {c} + Ancestors(dag, p)
    ensures c !in Ancestors(dag, p)
  {
    assert p in dag.parents[c];
    NoOlderDescendant(dag, c, p);
  }

  // ----- A chain of single-parent commits -----

  /** Each commit after the first has the one before it as its only parent. */
  ghost predicate Chain(dag: Dag, commits: seq<Commit>) {
    && (forall i :: 0 <= i < |commits| ==> commits[i] in dag.parents)
    && forall i :: 1 <= i < |commits| ==> dag.parents[commits[i]] == [commits[i - 1]]
  }

  function Elements(commits: seq<Commit>): set<Commit> {
    set c | c in commits
  }

  /** The top of a chain reaches the chain and what its first commit reaches, and nothing else. */
  lemma {:induction false} ChainAncestors(dag: Dag, commits: seq<Commit>)
    requires Acyclic(dag) && Chain(dag, commits) && commits != []
    ensures Ancestors(dag, commits[|commits| - 1]) == Elements(commits) + Ancestors(dag, commits[0])
    ensures |Ancestors(dag, commits[|commits| - 1]) - Ancestors(dag, commits[0])| == |commits| - 1
  {
    hide Ancestors;
    var init, last := commits[..|commits| - 1], commits[|commits| - 1];
    assert commits == init + [last];
    Reflexive(dag, last);
    if init == [] {
      assert Elements(commits) == {last};
    } else {
      var below := init[|init| - 1];
      ChainAncestors(dag, init);
      SingleParent(dag, last, below);
      OneMoreOnTop(Ancestors(dag, last), Ancestors(dag, below), Ancestors(dag, commits[0]), Elements(init), last);
      assert Elements(commits) == Elements(init) + {last};
    }
  }

  lemma OneMoreOnTop(top: set<Commit>, below: set<Commit>, first: set<Commit>, chain: set<Commit>, last: Commit)
    requires top == {last} + below && last !in below && below == chain + first
    ensures top == chain + {last} + first && |top - first| == |below - first| + 1
  {
    assert top - first == {last} + (below - first);
  }
}
