/** Finite sets of names in the order a sorted listing gives them. */
module Listing {
  import opened Text
  import opened Sorting

  predicate IsLeast(m: string, s: set<string>) {
    m in s && forall x :: x in s ==> x == m || Less(m, x)
  }

  lemma {:induction false} LeastExists(s: set<string>) returns (m: string)
    requires s != {}
    ensures IsLeast(m, s)
  {
    m :| m in s;
    if s != {m} {
      var k := LeastExists(s - {m});
      LessIsTotalOrder();
      if Less(k, m) {
        m := k;
      }
    }
  }

  /** The names of a directory in sorted order. */
  ghost function Ascending(s: set<string>): (names: seq<string>)
    ensures forall x :: x in names <==> x in s
  {
    if s == {} then []
    else
      assert exists m :: IsLeast(m, s) by {
        var m := LeastExists(s);
      }
      var m :| IsLeast(m, s);
      [m] + Ascending(s - {m})
  }

  lemma {:induction false} AscendingUnique(names: seq<string>, s: set<string>)
    requires StrictlyOrdered(names)
    requires forall x :: x in names <==> x in s
    ensures names == Ascending(s)
  {
    LessIsTotalOrder();
    if names == [] {
      assert s == {};
    } else {
      assert IsLeast(names[0], s);
      forall x ensures x in names[1..] <==> x in s - {names[0]} {
        if x in s - {names[0]} {
          assert x in names;
        }
      }
      AscendingUnique(names[1..], s - {names[0]});
      assert forall m :: IsLeast(m, s) ==> m == names[0];
      assert names == [names[0]] + names[1..];
    }
  }

  lemma {:induction false} AscendingDistinct(s: set<string>)
    ensures Distinct(Ascending(s))
  {
    if s != {} {
      AscendingDistinct(s - {Ascending(s)[0]});
    }
  }

  ghost predicate StrictlyOrdered(names: seq<string>) {
    forall i, j :: 0 <= i < j < |names| ==> Less(names[i], names[j])
  }

  lemma LeastFirst(m: string, rest: seq<string>, s: set<string>)
    requires IsLeast(m, s) && StrictlyOrdered(rest) && forall x :: x in rest ==> x in s && x != m
    ensures StrictlyOrdered([m] + rest)
  {
    hide Less;
    forall j | 0 <= j < |rest| ensures Less(m, rest[j]) {
      assert rest[j] in rest;
    }
  }

  lemma FirstIsLeast(s: set<string>)
    requires s != {}
    ensures var m := Ascending(s)[0]; IsLeast(m, s) && Ascending(s)[1..] == Ascending(s - {m})
  {
    hide Less;
    var least := LeastExists(s);
  }

  lemma {:induction false} AscendingOrder(s: set<string>)
    ensures StrictlyOrdered(Ascending(s)) && |Ascending(s)| == |s|
  {
    hide Less, StrictlyOrdered;
    if s != {} {
      var m, rest := Ascending(s)[0], Ascending(s)[1..];
      FirstIsLeast(s);
      AscendingOrder(s - {m});
      LeastFirst(m, rest, s);
      assert Ascending(s) == [m] + rest;
    } else {
      StrictlyOrderedEmpty();
    }
  }

  lemma StrictlyOrderedEmpty()
    ensures StrictlyOrdered([])
  {
  }

  lemma SortedListing(listed: seq<string>)
    requires Distinct(listed)
    ensures var names := Sort(listed, Less);
            && StrictlyOrdered(names)
            && forall x :: x in names <==> x in listed
  {
    LessIsTotalOrder();
    var names := Sort(listed, Less);
    SortOrders(listed, Less);
    SortDistinct(listed, Less);
    SortMembers(listed, Less);
    forall i, j | 0 <= i < j < |names| ensures Less(names[i], names[j]) {
      assert !Less(names[j], names[i]) && names[i] != names[j];
    }
  }

  /** `sorted` of a set of names. */
  method InOrder(s: set<string>) returns (names: seq<string>)
    ensures names == Ascending(s)
  {
    var rest, listed := s, [];
    while rest != {}
      invariant forall x :: x in s <==> x in rest || x in listed
      invariant Distinct(listed) && forall x :: x in listed ==> x !in rest
    {
      var name :| name in rest;
      rest, listed := rest - {name}, listed + [name];
    }
    names := Sort(listed, Less);
    SortedListing(listed);
    AscendingUnique(names, s);
  }
}
