/**
 Best-first search of one graph layer with a frontier heap, a bounded result
 heap and a visited set, and the greedy descent through the upper layers. A
 layer is given by its adjacency lists, a query by the order in which it ranks
 the nodes.
 */
module GraphSearch {
  import opened Base
  import opened Orders

  type Links = nat -> seq<nat>

  ghost predicate LinksWithin(links: Links, n: nat) {
    forall i: nat, k: nat {:trigger links(i)[k]} :: i < n && k < |links(i)| ==> links(i)[k] < n
  }

  // ----- the search as a function ----------------------------------------

  datatype Search = Search(visited: set<nat>, frontier: set<nat>, results: set<nat>)

  /** Meeting node `t`: a node met before is skipped, a new one may enter both heaps. */
  ghost function Meet(r: Order, ef: nat, s: Search, t: nat): Search {
    if t in s.visited then s
    else if |s.results| < ef then Search(s.visited + {t}, s.frontier + {t}, s.results + {t})
    else if r(t, Worst(r, s.results)) then
      var grown := s.results + {t};
      Search(s.visited + {t}, s.frontier + {t}, grown - {Worst(r, grown)})
    else s.(visited := s.visited + {t})
  }

  /** Meeting the first `k` nodes of a list. */
  ghost function MeetAll(r: Order, ef: nat, s: Search, list: seq<nat>, k: nat): Search
    requires k <= |list|
  {
    if k == 0 then s else Meet(r, ef, MeetAll(r, ef, s, list, k - 1), list[k - 1])
  }

  ghost predicate Stops(r: Order, ef: nat, s: Search) {
    s.frontier == {} || (|s.results| >= ef && r(Worst(r, s.results), Best(r, s.frontier)))
  }

  /** Popping the best frontier node and meeting its neighbours. */
  ghost function Expand(r: Order, links: Links, ef: nat, s: Search): Search {
    var c := Best(r, s.frontier);
    MeetAll(r, ef, s.(frontier := s.frontier - {c}), links(c), |links(c)|)
  }

  ghost predicate Inv(r: Order, n: nat, ef: nat, s: Search) {
    && Strict(r, n) && ef > 0
    && Within(s.visited, n) && s.frontier <= s.visited && s.results != {}
    && IsTop(r, s.results, s.visited, ef)
  }

  ghost function Explore(r: Order, links: Links, n: nat, ef: nat, s: Search): Search
    requires Inv(r, n, ef, s) && LinksWithin(links, n)
    decreases n - |s.visited|, |s.frontier|
  {
    if Stops(r, ef, s) then s
    else
      ExpandKeeps(r, links, n, ef, s);
      Explore(r, links, n, ef, Expand(r, links, ef, s))
  }

  ghost function Begin(entry: nat): Search { Search({entry}, {entry}, {entry}) }

  // ----- what one step keeps ---------------------------------------------

  lemma GrowTop(r: Order, n: nat, top: set<nat>, all: set<nat>, ef: nat, t: nat)
    requires Strict(r, n) && Within(all, n) && t < n && t !in all && IsTop(r, top, all, ef) && |top| < ef
    ensures IsTop(r, top + {t}, all + {t}, ef)
  {
    SubsetSize(top, all);
    assert top == all;
  }

  lemma ReplaceTop(r: Order, n: nat, top: set<nat>, all: set<nat>, ef: nat, t: nat)
    requires Strict(r, n) && Within(all, n) && t < n && t !in all && IsTop(r, top, all, ef) && |top| >= ef > 0
    requires r(t, Worst(r, top))
    ensures IsTop(r, top + {t} - {Worst(r, top + {t})}, all + {t}, ef)
  {
    var grown := top + {t};
    WorstIs(r, n, top);
    WorstIs(r, n, grown);
    var w := Worst(r, grown);
    forall x, y | x in grown - {w} && y in all + {t} - (grown - {w}) ensures r(x, y) {
      if y != w {
        assert y in all - top && r(Worst(r, top), y);
      }
    }
  }

  lemma SkipTop(r: Order, n: nat, top: set<nat>, all: set<nat>, ef: nat, t: nat)
    requires Strict(r, n) && Within(all, n) && t < n && t !in all && IsTop(r, top, all, ef) && |top| >= ef > 0
    requires !r(t, Worst(r, top))
    ensures IsTop(r, top, all + {t}, ef)
  {
    WorstIs(r, n, top);
    var w := Worst(r, top);
    assert r(w, t);
    forall x, y | x in top && y in all + {t} - top ensures r(x, y) {
      assert y == t || y in all - top;
      assert x == w || r(x, w);
    }
  }

  lemma MeetKeeps(r: Order, n: nat, ef: nat, s: Search, t: nat)
    requires Inv(r, n, ef, s) && t < n
    ensures Inv(r, n, ef, Meet(r, ef, s, t))
    ensures Meet(r, ef, s, t).visited == s.visited + {t}
    ensures t in s.visited ==> Meet(r, ef, s, t) == s
    ensures s.frontier <= Meet(r, ef, s, t).frontier <= s.frontier + {t}
  {
    if t in s.visited {
      assert s.visited + {t} == s.visited;
    } else {
      if |s.results| < ef {
        GrowTop(r, n, s.results, s.visited, ef, t);
      } else if r(t, Worst(r, s.results)) {
        ReplaceTop(r, n, s.results, s.visited, ef, t);
      } else {
        SkipTop(r, n, s.results, s.visited, ef, t);
      }
    }
  }

  lemma MembersNext(list: seq<nat>, k: nat)
    requires 0 < k <= |list|
    ensures Members(list[..k]) == Members(list[..k - 1]) + {list[k - 1]}
  {
    assert list[..k] == list[..k - 1] + [list[k - 1]];
  }

  lemma {:induction false} MeetAllKeeps(r: Order, n: nat, ef: nat, s: Search, list: seq<nat>, k: nat)
    requires Inv(r, n, ef, s) && k <= |list| && forall i :: 0 <= i < |list| ==> list[i] < n
    ensures Inv(r, n, ef, MeetAll(r, ef, s, list, k))
    ensures MeetAll(r, ef, s, list, k).visited == s.visited + Members(list[..k])
    ensures s.frontier <= MeetAll(r, ef, s, list, k).frontier
  {
    if k > 0 {
      MeetAllKeeps(r, n, ef, s, list, k - 1);
      MeetKeeps(r, n, ef, MeetAll(r, ef, s, list, k - 1), list[k - 1]);
      MembersNext(list, k);
    } else {
      assert Members(list[..0]) == {};
    }
  }

  /** Known nodes change nothing. */
  lemma {:induction false} MeetAllStays(r: Order, ef: nat, s: Search, list: seq<nat>, k: nat)
    requires k <= |list| && forall i :: 0 <= i < |list| ==> list[i] in s.visited
    ensures MeetAll(r, ef, s, list, k) == s
  {
    if k > 0 { MeetAllStays(r, ef, s, list, k - 1); }
  }

  lemma ExpandKeeps(r: Order, links: Links, n: nat, ef: nat, s: Search)
    requires Inv(r, n, ef, s) && LinksWithin(links, n) && !Stops(r, ef, s)
    ensures Inv(r, n, ef, Expand(r, links, ef, s))
    ensures var c, t := Best(r, s.frontier), Expand(r, links, ef, s);
      && IsBest(r, s.frontier, c)
      && t.visited == s.visited + Members(links(c))
      && s.frontier - {c} <= t.frontier
      && (|t.visited| > |s.visited| || t == s.(frontier := s.frontier - {c}))
    ensures |Expand(r, links, ef, s).visited| <= n
  {
    BestIs(r, n, s.frontier);
    var c := Best(r, s.frontier);
    var popped := s.(frontier := s.frontier - {c});
    MeetAllKeeps(r, n, ef, popped, links(c), |links(c)|);
    assert links(c)[..|links(c)|] == links(c);
    var t := Expand(r, links, ef, s);
    SubsetSize(s.visited, t.visited);
    if t.visited == s.visited {
      assert Members(links(c)) <= s.visited;
      forall i | 0 <= i < |links(c)| ensures links(c)[i] in s.visited {
        assert links(c)[i] in Members(links(c));
      }
      MeetAllStays(r, ef, popped, links(c), |links(c)|);
    }
    WithinSize(t.visited, n);
  }

  // ----- what the search returns -----------------------------------------

  lemma BeginHolds(r: Order, n: nat, ef: nat, entry: nat)
    requires Strict(r, n) && entry < n && ef > 0
    ensures Inv(r, n, ef, Begin(entry))
  {
  }

  /**
   Whatever order the graph suggests, the results are exactly the best
   `min(ef, visited)` of the nodes that were visited.
   */
  lemma {:induction false} ResultsAreTop(r: Order, links: Links, n: nat, ef: nat, s: Search)
    requires Inv(r, n, ef, s) && LinksWithin(links, n)
    ensures Inv(r, n, ef, Explore(r, links, n, ef, s))
    ensures s.visited <= Explore(r, links, n, ef, s).visited
    decreases n - |s.visited|, |s.frontier|
  {
    if !Stops(r, ef, s) {
      ExpandKeeps(r, links, n, ef, s);
      ResultsAreTop(r, links, n, ef, Expand(r, links, ef, s));
    }
  }

  /** A walk along links that starts at `entry`. */
  ghost predicate Walk(links: Links, p: seq<nat>, entry: nat) {
    && p != [] && p[0] == entry
    && forall i :: 0 <= i < |p| - 1 ==> p[i + 1] in links(p[i])
  }

  ghost predicate Reaches(links: Links, entry: nat, x: nat) {
    exists p: seq<nat> :: Walk(links, p, entry) && p[|p| - 1] == x
  }

  ghost function Reachable(links: Links, n: nat, entry: nat): set<nat> {
    set x: nat | x < n && Reaches(links, entry, x)
  }

  lemma ReachesNext(links: Links, entry: nat, x: nat, y: nat)
    requires Reaches(links, entry, x) && y in links(x)
    ensures Reaches(links, entry, y)
  {
    var p :| Walk(links, p, entry) && p[|p| - 1] == x;
    var q := p + [y];
    assert Walk(links, q, entry) && q[|q| - 1] == y;
  }

  ghost predicate ClosedUnder(links: Links, s: set<nat>) {
    forall x, y {:trigger x in s, y in links(x)} :: x in s && y in links(x) ==> y in s
  }

  lemma {:induction false} ClosedHoldsWalk(links: Links, s: set<nat>, p: seq<nat>, entry: nat, i: nat)
    requires ClosedUnder(links, s) && entry in s && Walk(links, p, entry) && i < |p|
    ensures p[i] in s
  {
    if i > 0 {
      ClosedHoldsWalk(links, s, p, entry, i - 1);
      assert p[i - 1 + 1] in links(p[i - 1]);
    }
  }

  /** Only reachable nodes are visited, and everything behind a popped node has been. */
  ghost predicate Traced(links: Links, n: nat, entry: nat, s: Search) {
    && entry in s.visited && s.visited <= Reachable(links, n, entry)
    && forall x, y {:trigger x in s.visited, y in links(x)} ::
      x in s.visited && x !in s.frontier && y in links(x) ==> y in s.visited
  }

  lemma MeetAdmits(r: Order, n: nat, ef: nat, s: Search, t: nat)
    requires Inv(r, n, ef, s) && t < n && |s.visited + {t}| <= ef
    ensures t !in s.visited ==> t in Meet(r, ef, s, t).frontier
  {
    if t !in s.visited {
      assert |s.visited + {t}| == |s.visited| + 1;
    }
  }

  lemma {:induction false} MeetAllAdmits(r: Order, n: nat, ef: nat, s: Search, list: seq<nat>, k: nat, all: set<nat>)
    requires Inv(r, n, ef, s) && k <= |list| && forall i :: 0 <= i < |list| ==> list[i] < n
    requires s.visited <= all && Members(list) <= all && |all| <= ef
    ensures MeetAll(r, ef, s, list, k).visited - s.visited <= MeetAll(r, ef, s, list, k).frontier
  {
    if k > 0 {
      MeetAllAdmits(r, n, ef, s, list, k - 1, all);
      MeetAllKeeps(r, n, ef, s, list, k - 1);
      var before, t := MeetAll(r, ef, s, list, k - 1), list[k - 1];
      assert before.visited + {t} <= all by {
        assert t in Members(list) && Members(list[..k - 1]) <= Members(list);
      }
      SubsetSize(before.visited + {t}, all);
      MeetAdmits(r, n, ef, before, t);
      MeetKeeps(r, n, ef, before, t);
    }
  }

  lemma ExpandTraces(r: Order, links: Links, n: nat, ef: nat, entry: nat, s: Search)
    requires Inv(r, n, ef, s) && LinksWithin(links, n) && !Stops(r, ef, s)
    requires Traced(links, n, entry, s) && |Reachable(links, n, entry)| <= ef
    ensures Traced(links, n, entry, Expand(r, links, ef, s))
  {
    ExpandKeeps(r, links, n, ef, s);
    var c, all := Best(r, s.frontier), Reachable(links, n, entry);
    forall y | y in links(c) ensures y in all {
      var k :| 0 <= k < |links(c)| && links(c)[k] == y;
      ReachesNext(links, entry, c, y);
    }
    MeetAllAdmits(r, n, ef, s.(frontier := s.frontier - {c}), links(c), |links(c)|, all);
  }

  lemma {:induction false} ExploreTraces(r: Order, links: Links, n: nat, ef: nat, entry: nat, s: Search)
    requires Inv(r, n, ef, s) && LinksWithin(links, n)
    requires Traced(links, n, entry, s) && |Reachable(links, n, entry)| <= ef
    ensures Explore(r, links, n, ef, s).results == Reachable(links, n, entry)
    decreases n - |s.visited|, |s.frontier|
  {
    var all := Reachable(links, n, entry);
    SubsetSize(s.visited, all);
    SubsetSize(s.results, s.visited);
    if !Stops(r, ef, s) {
      ExpandKeeps(r, links, n, ef, s);
      ExpandTraces(r, links, n, ef, entry, s);
      ExploreTraces(r, links, n, ef, entry, Expand(r, links, ef, s));
    } else if s.frontier == {} {
      assert ClosedUnder(links, s.visited);
      forall x | x in all ensures x in s.visited {
        var p :| Walk(links, p, entry) && p[|p| - 1] == x;
        ClosedHoldsWalk(links, s.visited, p, entry, |p| - 1);
      }
    }
  }

  /** With room for every reachable node, the search returns all of them. */
  lemma WideSearchIsComplete(r: Order, links: Links, n: nat, ef: nat, entry: nat)
    requires Strict(r, n) && LinksWithin(links, n) && entry < n && ef > 0
    requires |Reachable(links, n, entry)| <= ef
    ensures Inv(r, n, ef, Begin(entry))
    ensures Explore(r, links, n, ef, Begin(entry)).results == Reachable(links, n, entry)
  {
    assert Walk(links, [entry], entry) && [entry][|[entry]| - 1] == entry;
    ExploreTraces(r, links, n, ef, entry, Begin(entry));
  }

  /** The search never leaves a set of nodes that its links stay in. */
  lemma {:induction false} ExploreStaysIn(r: Order, links: Links, n: nat, ef: nat, s: Search, all: set<nat>)
    requires Inv(r, n, ef, s) && LinksWithin(links, n) && ClosedUnder(links, all) && s.visited <= all
    ensures Explore(r, links, n, ef, s).visited <= all
    decreases n - |s.visited|, |s.frontier|
  {
    if !Stops(r, ef, s) {
      ExpandKeeps(r, links, n, ef, s);
      var c := Best(r, s.frontier);
      forall y | y in Members(links(c)) ensures y in all {
        assert c in all && y in links(c);
      }
      ExploreStaysIn(r, links, n, ef, Expand(r, links, ef, s), all);
    }
  }

  lemma ReachableIsClosed(links: Links, n: nat, entry: nat)
    requires LinksWithin(links, n)
    ensures ClosedUnder(links, Reachable(links, n, entry))
  {
    forall x, y | x in Reachable(links, n, entry) && y in links(x) ensures y in Reachable(links, n, entry) {
      var k :| 0 <= k < |links(x)| && links(x)[k] == y;
      ReachesNext(links, entry, x, y);
    }
  }

  // ----- generation marks ------------------------------------------------

  const U32_MAX: nat := 0xffff_ffff

  /** `BuildWorkspace`: a node is visited when its mark equals the generation. */
  class BuildWorkspace {
    var visited: seq<nat>
    var generation: nat

    ghost predicate Valid() reads this {
      generation <= U32_MAX && forall i :: 0 <= i < |visited| ==> visited[i] <= generation
    }

    ghost function Seen(): set<nat> reads this {
      set i: nat | i < |visited| && visited[i] == generation
    }

    constructor ()
      ensures Valid() && visited == [] && generation == 0
    {
      visited, generation := [], 0;
    }

    /** Whatever earlier searches left behind, the visited set starts empty. */
    method Begin(n: nat)
      requires Valid()
      modifies this
      ensures Valid() && |visited| == n && Seen() == {}
    {
      visited := if n <= |visited| then visited[..n] else visited + seq(n - |visited|, i => 0);
      if generation == U32_MAX {
        visited := seq(n, i => 0);
        generation := 1;
      } else {
        generation := generation + 1;
      }
    }

    method Visit(node: nat) returns (isNew: bool)
      requires Valid() && node < |visited|
      modifies this
      ensures Valid() && |visited| == old(|visited|)
      ensures isNew <==> node !in old(Seen())
      ensures Seen() == old(Seen()) + {node}
    {
      if visited[node] == generation {
        isNew := false;
      } else {
        visited := visited[node := generation];
        isNew := true;
      }
    }
  }

  // ----- the loops -------------------------------------------------------

  /** What `search_layer` finds. */
  ghost function Found(r: Order, links: Links, n: nat, ef: nat, entry: nat): set<nat>
    requires Strict(r, n) && LinksWithin(links, n) && entry < n && ef > 0
  {
    BeginHolds(r, n, ef, entry);
    Explore(r, links, n, ef, Begin(entry)).results
  }

  /** The nodes `search_layer` marks as visited. */
  ghost function Visited(r: Order, links: Links, n: nat, ef: nat, entry: nat): set<nat>
    requires Strict(r, n) && LinksWithin(links, n) && entry < n && ef > 0
  {
    BeginHolds(r, n, ef, entry);
    Explore(r, links, n, ef, Begin(entry)).visited
  }

  /**
   Only reachable nodes are visited, the entry among them, and the best
   `min(ef, visited)` of them are found; with enough room that is every
   reachable node.
   */
  lemma FoundIsTop(r: Order, links: Links, n: nat, ef: nat, entry: nat)
    requires Strict(r, n) && LinksWithin(links, n) && entry < n && ef > 0
    ensures entry in Visited(r, links, n, ef, entry)
    ensures Visited(r, links, n, ef, entry) <= Reachable(links, n, entry)
    ensures IsTop(r, Found(r, links, n, ef, entry), Visited(r, links, n, ef, entry), ef)
    ensures |Reachable(links, n, entry)| <= ef ==> Found(r, links, n, ef, entry) == Reachable(links, n, entry)
  {
    var s := Begin(entry);
    BeginHolds(r, n, ef, entry);
    ResultsAreTop(r, links, n, ef, s);
    ReachableIsClosed(links, n, entry);
    assert Walk(links, [entry], entry) && [entry][|[entry]| - 1] == entry;
    ExploreStaysIn(r, links, n, ef, s, Reachable(links, n, entry));
    if |Reachable(links, n, entry)| <= ef {
      WideSearchIsComplete(r, links, n, ef, entry);
    }
  }

  /** The body of the inner loop: `Meet`, with the heaps as sets. */
  method MeetNext(
      r: Order, ghost n: nat, ef: nat, t: nat, frontier: set<nat>, results: set<nat>, workspace: BuildWorkspace)
    returns (frontier': set<nat>, results': set<nat>)
    requires workspace.Valid() && |workspace.visited| == n && t < n
    requires Inv(r, n, ef, Search(workspace.Seen(), frontier, results))
    modifies workspace
    ensures workspace.Valid() && |workspace.visited| == n
    ensures Search(workspace.Seen(), frontier', results')
      == Meet(r, ef, Search(old(workspace.Seen()), frontier, results), t)
  {
    frontier', results' := frontier, results;
    var isNew := workspace.Visit(t);
    if isNew {
      WorstIs(r, n, results);
      var worst :| IsWorst(r, results, worst);
      WorstIsOne(r, n, results, worst);
      if |results| < ef || r(t, worst) {
        frontier' := frontier + {t};
        results' := results + {t};
        if |results'| > ef {
          WorstIs(r, n, results');
          var last :| IsWorst(r, results', last);
          WorstIsOne(r, n, results', last);
          results' := results' - {last};
        }
      }
    } else {
      assert old(workspace.Seen()) + {t} == old(workspace.Seen());
    }
  }

  /** The inner loop. */
  method MeetList(
      r: Order, ghost n: nat, ef: nat, list: seq<nat>, frontier: set<nat>, results: set<nat>,
      workspace: BuildWorkspace)
    returns (frontier': set<nat>, results': set<nat>)
    requires workspace.Valid() && |workspace.visited| == n && forall i :: 0 <= i < |list| ==> list[i] < n
    requires Inv(r, n, ef, Search(workspace.Seen(), frontier, results))
    modifies workspace
    ensures workspace.Valid() && |workspace.visited| == n
    ensures Search(workspace.Seen(), frontier', results')
      == MeetAll(r, ef, Search(old(workspace.Seen()), frontier, results), list, |list|)
  {
    frontier', results' := frontier, results;
    ghost var s := Search(workspace.Seen(), frontier, results);
    for k := 0 to |list|
      invariant workspace.Valid() && |workspace.visited| == n
      invariant Search(workspace.Seen(), frontier', results') == MeetAll(r, ef, s, list, k)
    {
      MeetAllKeeps(r, n, ef, s, list, k);
      frontier', results' := MeetNext(r, n, ef, list[k], frontier', results', workspace);
    }
  }

  /** `search_layer` and `search_layer_for_build`. */
  method SearchLayer(r: Order, sort: Order, links: Links, n: nat, ef: nat, entry: nat, workspace: BuildWorkspace)
    returns (list: seq<nat>)
    requires Strict(r, n) && Strict(sort, n) && LinksWithin(links, n) && entry < n && ef > 0 && workspace.Valid()
    modifies workspace
    ensures workspace.Valid()
    ensures list == Sorted(sort, Found(r, links, n, ef, entry))
  {
    workspace.Begin(n);
    var isNew := workspace.Visit(entry);
    var frontier, results := {entry}, {entry};
    BeginHolds(r, n, ef, entry);
    ghost var s := Begin(entry);
    assert workspace.Seen() == s.visited;
    while frontier != {}
      invariant workspace.Valid() && |workspace.visited| == n
      invariant s == Search(workspace.Seen(), frontier, results) && Inv(r, n, ef, s)
      invariant Explore(r, links, n, ef, Begin(entry)) == Explore(r, links, n, ef, s)
      decreases n - |s.visited|, |frontier|
    {
      BestIs(r, n, frontier);
      var candidate :| IsBest(r, frontier, candidate);
      BestIsOne(r, n, frontier, candidate);
      WorstIs(r, n, results);
      var worst :| IsWorst(r, results, worst);
      WorstIsOne(r, n, results, worst);
      if |results| >= ef && r(worst, candidate) {
        break;
      }
      ExpandKeeps(r, links, n, ef, s);
      frontier, results := MeetList(r, n, ef, links(candidate), frontier - {candidate}, results, workspace);
      s := Expand(r, links, ef, s);
    }
    SubsetSize(results, s.visited);
    list := Sort(sort, n, results);
  }

  // ----- greedy descent --------------------------------------------------

  ghost function Ahead(r: Order, n: nat, x: nat): set<nat> { set y: nat | y < n && r(y, x) }

  lemma AheadShrinks(r: Order, n: nat, x: nat, y: nat)
    requires Strict(r, n) && x < n && y < n && r(y, x)
    ensures |Ahead(r, n, y)| < |Ahead(r, n, x)|
  {
    assert y in Ahead(r, n, x) && y !in Ahead(r, n, y);
    assert Ahead(r, n, y) <= Ahead(r, n, x);
    SubsetSize(Ahead(r, n, y), Ahead(r, n, x));
  }

  /** The best node among `x` and its neighbours. */
  ghost function Closest(r: Order, links: Links, x: nat): nat { Best(r, Members(links(x)) + {x}) }

  lemma ClosestIs(r: Order, links: Links, n: nat, x: nat)
    requires Strict(r, n) && LinksWithin(links, n) && x < n
    ensures IsBest(r, Members(links(x)) + {x}, Closest(r, links, x)) && Closest(r, links, x) < n
    ensures Closest(r, links, x) != x ==> |Ahead(r, n, Closest(r, links, x))| < |Ahead(r, n, x)|
  {
    forall y | y in Members(links(x)) ensures y < n {
      var k :| 0 <= k < |links(x)| && links(x)[k] == y;
    }
    BestIs(r, n, Members(links(x)) + {x});
    if Closest(r, links, x) != x { AheadShrinks(r, n, x, Closest(r, links, x)); }
  }

  ghost function Greedy(r: Order, links: Links, n: nat, x: nat): nat
    requires Strict(r, n) && LinksWithin(links, n) && x < n
    decreases |Ahead(r, n, x)|
  {
    ClosestIs(r, links, n, x);
    var y := Closest(r, links, x);
    if y == x then x else Greedy(r, links, n, y)
  }

  /** The descent ends in a node that ranks before all its neighbours, without leaving a closed set. */
  lemma {:induction false} GreedyIsLocalBest(r: Order, links: Links, n: nat, x: nat, all: set<nat>)
    requires Strict(r, n) && LinksWithin(links, n) && x < n && x in all && ClosedUnder(links, all)
    ensures var g := Greedy(r, links, n, x);
      g < n && g in all && (g == x || r(g, x)) && forall y :: y in links(g) && y != g ==> r(g, y)
    decreases |Ahead(r, n, x)|
  {
    ClosestIs(r, links, n, x);
    var y := Closest(r, links, x);
    if y != x {
      assert y in links(x);
      GreedyIsLocalBest(r, links, n, y, all);
    } else {
      forall y | y in links(x) && y != x ensures r(x, y) { assert y in Members(links(x)) + {x}; }
    }
  }

  /** One round of the descent. */
  method ClosestNeighbor(r: Order, links: Links, ghost n: nat, current: nat) returns (best: nat)
    requires Strict(r, n) && LinksWithin(links, n) && current < n
    ensures best == Closest(r, links, current)
  {
    best := current;
    var list := links(current);
    for k := 0 to |list|
      invariant best < n && IsBest(r, Members(list[..k]) + {current}, best)
    {
      assert list[..k + 1] == list[..k] + [list[k]];
      assert Members(list[..k + 1]) == Members(list[..k]) + {list[k]};
      if r(list[k], best) {
        best := list[k];
      }
    }
    assert list[..|list|] == list;
    BestIsOne(r, n, Members(list) + {current}, best);
  }

  method GreedyClosest(r: Order, links: Links, ghost n: nat, start: nat) returns (current: nat)
    requires Strict(r, n) && LinksWithin(links, n) && start < n
    ensures current == Greedy(r, links, n, start)
  {
    current := start;
    while true
      invariant current < n && Greedy(r, links, n, start) == Greedy(r, links, n, current)
      decreases |Ahead(r, n, current)|
    {
      var best := ClosestNeighbor(r, links, n, current);
      ClosestIs(r, links, n, current);
      if best == current {
        return;
      }
      current := best;
    }
  }
}
