/**
 The layer search without heaps: expand, again and again, the best visited node
 that was not expanded yet, until `ef` visited nodes rank before it. The search
 with a frontier and a bounded result heap visits the same nodes.
 */
module BestFirst {
  import opened Base
  import opened Orders
  import opened GraphSearch

  ghost function Better(r: Order, s: set<nat>, c: nat): set<nat> { set x | x in s && r(x, c) }

  /** The nodes visited from a state in which `expanded` are done. */
  ghost function Walked(r: Order, links: Links, n: nat, ef: nat, visited: set<nat>, expanded: set<nat>): set<nat>
    requires Strict(r, n) && LinksWithin(links, n) && Within(visited, n) && expanded <= visited
    decreases n - |expanded|
  {
    var open := visited - expanded;
    if open == {} then visited
    else
      OpenIsFinite(r, n, visited, expanded);
      var c := Best(r, open);
      if |Better(r, visited, c)| >= ef then visited
      else Walked(r, links, n, ef, visited + Members(links(c)), expanded + {c})
  }

  lemma OpenIsFinite(r: Order, n: nat, visited: set<nat>, expanded: set<nat>)
    requires Strict(r, n) && Within(visited, n) && expanded <= visited && visited - expanded != {}
    ensures IsBest(r, visited - expanded, Best(r, visited - expanded))
    ensures |expanded| < n
  {
    BestIs(r, n, visited - expanded);
    SubsetSize(expanded, visited);
    WithinSize(visited, n);
  }

  /** A visited node is expanded, on the frontier, or has `ef` better ones. */
  ghost predicate Screened(r: Order, ef: nat, s: Search, expanded: set<nat>) {
    && expanded <= s.visited && s.frontier !! expanded
    && forall z :: z in s.visited && z !in expanded && z !in s.frontier ==> |Better(r, s.visited, z)| >= ef
  }

  lemma BetterGrows(r: Order, a: set<nat>, b: set<nat>, c: nat)
    requires a <= b
    ensures |Better(r, a, c)| <= |Better(r, b, c)|
  {
    assert Better(r, a, c) <= Better(r, b, c);
    SubsetSize(Better(r, a, c), Better(r, b, c));
  }

  /** A full result heap that ranks before `c` is `ef` better nodes. */
  lemma FullIsBetter(r: Order, n: nat, ef: nat, s: Search, all: set<nat>, c: nat)
    requires Inv(r, n, ef, s) && |s.results| >= ef && s.visited <= all && c !in s.results && c < n
    requires r(Worst(r, s.results), c)
    ensures |Better(r, all, c)| >= ef
  {
    WorstIs(r, n, s.results);
    forall x | x in s.results ensures x in Better(r, all, c) {}
    SubsetSize(s.results, Better(r, all, c));
  }

  lemma MeetScreens(r: Order, n: nat, ef: nat, s: Search, t: nat, expanded: set<nat>)
    requires Inv(r, n, ef, s) && t < n && Screened(r, ef, s, expanded)
    ensures Screened(r, ef, Meet(r, ef, s, t), expanded)
  {
    var after := Meet(r, ef, s, t);
    MeetKeeps(r, n, ef, s, t);
    forall z | z in after.visited && z !in expanded && z !in after.frontier
      ensures |Better(r, after.visited, z)| >= ef
    {
      if z in s.visited {
        BetterGrows(r, s.visited, after.visited, z);
      } else {
        WorstIs(r, n, s.results);
        assert r(Worst(r, s.results), t);
        FullIsBetter(r, n, ef, s, after.visited, t);
      }
    }
  }

  lemma {:induction false} MeetAllScreens(
      r: Order, n: nat, ef: nat, s: Search, list: seq<nat>, k: nat, expanded: set<nat>)
    requires Inv(r, n, ef, s) && k <= |list| && forall i :: 0 <= i < |list| ==> list[i] < n
    requires Screened(r, ef, s, expanded)
    ensures Screened(r, ef, MeetAll(r, ef, s, list, k), expanded)
  {
    if k > 0 {
      MeetAllScreens(r, n, ef, s, list, k - 1, expanded);
      MeetAllKeeps(r, n, ef, s, list, k - 1);
      MeetScreens(r, n, ef, MeetAll(r, ef, s, list, k - 1), list[k - 1], expanded);
    }
  }

  /** When the search stops, the best node not expanded yet has `ef` better ones. */
  lemma StopsTogether(r: Order, n: nat, ef: nat, s: Search, expanded: set<nat>)
    requires Inv(r, n, ef, s) && Screened(r, ef, s, expanded) && Stops(r, ef, s)
    requires s.visited - expanded != {}
    ensures |Better(r, s.visited, Best(r, s.visited - expanded))| >= ef
  {
    var open := s.visited - expanded;
    BestIs(r, n, open);
    var c := Best(r, open);
    if c in s.frontier {
      assert IsBest(r, s.frontier, c);
      BestIsOne(r, n, s.frontier, c);
      WorstIs(r, n, s.results);
      assert c !in s.results;
      FullIsBetter(r, n, ef, s, s.visited, c);
    }
  }

  /** While it goes on, the node it pops is the best one not expanded yet, and has fewer than `ef` better ones. */
  lemma GoesOnTogether(r: Order, n: nat, ef: nat, s: Search, expanded: set<nat>)
    requires Inv(r, n, ef, s) && Screened(r, ef, s, expanded) && !Stops(r, ef, s)
    ensures s.visited - expanded != {} && Best(r, s.visited - expanded) == Best(r, s.frontier)
    ensures |Better(r, s.visited, Best(r, s.frontier))| < ef
  {
    BestIs(r, n, s.frontier);
    var c, open := Best(r, s.frontier), s.visited - expanded;
    FewBetter(r, n, ef, s, c);
    forall z | z in open && z != c ensures r(c, z) {
      if z !in s.frontier && r(z, c) {
        assert Better(r, s.visited, z) <= Better(r, s.visited, c);
        SubsetSize(Better(r, s.visited, z), Better(r, s.visited, c));
      }
    }
    assert IsBest(r, open, c);
    BestIsOne(r, n, open, c);
  }

  lemma FewBetter(r: Order, n: nat, ef: nat, s: Search, c: nat)
    requires Inv(r, n, ef, s) && c in s.visited
    requires |s.results| >= ef ==> !r(Worst(r, s.results), c)
    ensures |Better(r, s.visited, c)| < ef
  {
    WorstIs(r, n, s.results);
    assert c in s.results by {
      if |s.results| < ef {
        SubsetSize(s.results, s.visited);
      }
    }
    assert Better(r, s.visited, c) <= s.results - {c} by {
      forall y | y in Better(r, s.visited, c) ensures y in s.results {
        assert y !in s.results ==> r(c, y) && r(y, c) && !r(c, c);
      }
    }
    SubsetSize(Better(r, s.visited, c), s.results - {c});
    assert |s.results - {c}| == |s.results| - 1;
  }

  lemma {:induction false} ExploreWalks(r: Order, links: Links, n: nat, ef: nat, s: Search, expanded: set<nat>)
    requires Inv(r, n, ef, s) && LinksWithin(links, n) && Screened(r, ef, s, expanded)
    ensures Explore(r, links, n, ef, s).visited == Walked(r, links, n, ef, s.visited, expanded)
    decreases n - |s.visited|, |s.frontier|
  {
    if Stops(r, ef, s) {
      if s.visited - expanded != {} { StopsTogether(r, n, ef, s, expanded); }
    } else {
      GoesOnTogether(r, n, ef, s, expanded);
      ExpandKeeps(r, links, n, ef, s);
      var c := Best(r, s.frontier);
      var popped := s.(frontier := s.frontier - {c});
      MeetAllScreens(r, n, ef, popped, links(c), |links(c)|, expanded + {c});
      ExploreWalks(r, links, n, ef, Expand(r, links, ef, s), expanded + {c});
    }
  }

  /** The nodes the search visits are those of the search without heaps, and the best `ef` of them are found. */
  lemma SearchIsBestFirst(r: Order, links: Links, n: nat, ef: nat, entry: nat)
    requires Strict(r, n) && LinksWithin(links, n) && entry < n && ef > 0
    ensures Visited(r, links, n, ef, entry) == Walked(r, links, n, ef, {entry}, {})
    ensures IsTop(r, Found(r, links, n, ef, entry), Walked(r, links, n, ef, {entry}, {}), ef)
  {
    BeginHolds(r, n, ef, entry);
    ExploreWalks(r, links, n, ef, Begin(entry), {});
    FoundIsTop(r, links, n, ef, entry);
  }

  /** A visited node with fewer than `ef` better ones was expanded. */
  lemma {:induction false} WalkedIsClosed(
      r: Order, links: Links, n: nat, ef: nat, visited: set<nat>, expanded: set<nat>, x: nat)
    requires Strict(r, n) && LinksWithin(links, n) && Within(visited, n) && expanded <= visited
    requires forall e :: e in expanded ==> Members(links(e)) <= visited
    ensures visited <= Walked(r, links, n, ef, visited, expanded)
    ensures var all := Walked(r, links, n, ef, visited, expanded);
      x in all && |Better(r, all, x)| < ef ==> Members(links(x)) <= all
    decreases n - |expanded|
  {
    var open := visited - expanded;
    if open != {} {
      OpenIsFinite(r, n, visited, expanded);
      var c := Best(r, open);
      if |Better(r, visited, c)| >= ef {
        if x in open && x != c {
          assert Better(r, visited, c) <= Better(r, visited, x);
          SubsetSize(Better(r, visited, c), Better(r, visited, x));
        }
      } else {
        WalkedIsClosed(r, links, n, ef, visited + Members(links(c)), expanded + {c}, x);
      }
    }
  }

  ghost predicate NeighborsIn(links: Links, found: set<nat>, visited: set<nat>) {
    forall x, y {:trigger x in found, y in links(x)} :: x in found && y in links(x) ==> y in visited
  }

  /** No neighbour of a found node goes unseen, so what the search leaves out does not beat what it found. */
  lemma FoundIsLocallyBest(r: Order, links: Links, n: nat, ef: nat, entry: nat)
    requires Strict(r, n) && LinksWithin(links, n) && entry < n && ef > 0
    ensures NeighborsIn(links, Found(r, links, n, ef, entry), Walked(r, links, n, ef, {entry}, {}))
  {
    SearchIsBestFirst(r, links, n, ef, entry);
    var found, all := Found(r, links, n, ef, entry), Walked(r, links, n, ef, {entry}, {});
    forall x, y | x in found && y in links(x) ensures y in all {
      assert Better(r, all, x) <= found - {x} by {
        forall z | z in Better(r, all, x) ensures z in found {
          assert z !in found ==> r(x, z) && r(z, x) && !r(x, x);
        }
      }
      SubsetSize(Better(r, all, x), found - {x});
      WalkedIsClosed(r, links, n, ef, {entry}, {}, x);
      assert y in Members(links(x));
    }
  }

  // ----- the descent -----------------------------------------------------

  /** `y` ranks before `x` and before every other neighbour of `x`. */
  ghost predicate StepsTo(r: Order, links: Links, x: nat, y: nat) {
    y in links(x) && r(y, x) && IsAhead(r, y, links(x))
  }

  ghost predicate IsAhead(r: Order, y: nat, list: seq<nat>) {
    forall z :: z in list && z != y ==> r(y, z)
  }

  /** Each step goes to the best neighbour, and the last node has no better one. */
  ghost predicate Steps(r: Order, links: Links, path: seq<nat>) {
    && path != [] && IsAhead(r, path[|path| - 1], links(path[|path| - 1]))
    && forall i, j :: 0 <= i && i + 1 == j < |path| ==> StepsTo(r, links, path[i], path[j])
  }

  lemma {:induction false} GreedySteps(r: Order, links: Links, n: nat, x: nat) returns (path: seq<nat>)
    requires Strict(r, n) && LinksWithin(links, n) && x < n
    ensures Steps(r, links, path) && path[0] == x && path[|path| - 1] == Greedy(r, links, n, x)
    decreases |Ahead(r, n, x)|
  {
    ClosestIs(r, links, n, x);
    var y := Closest(r, links, x);
    assert IsAhead(r, y, links(x)) by {
      forall z | z in links(x) && z != y ensures r(y, z) { assert z in Members(links(x)) + {x}; }
    }
    if y == x {
      path := [x];
    } else {
      var rest := GreedySteps(r, links, n, y);
      path := [x] + rest;
      forall i, j | 0 <= i && i + 1 == j < |path| ensures StepsTo(r, links, path[i], path[j]) {
        if i > 0 { assert StepsTo(r, links, rest[i - 1], rest[j - 1]); }
      }
    }
  }
}
