/**
 * `find_cycles` and `optimal_removal` of cycle.py.
 *
 * networkx's `simple_cycles` is not modelled: the simple cycles of the
 * graph the search starts from are an input `all`, in the order networkx
 * reports them. On a graph with nodes removed, the enumeration is `all`
 * restricted to the cycles whose nodes all remain (`Enumerate`).
 */
module Cycles {
  import opened Wrappers
  import opened Sorting
  import opened Graphs
  import Sections

  type Cycle = seq<Node>

  /** The branching cap of `find_cycles`. */
  const MaxCycles: nat := 1000

  function Length(c: Cycle): int {
    |c|
  }

  function Min(a: nat, b: nat): nat {
    if a <= b then a else b
  }

  /** What `nx.simple_cycles` reports on `g`: the cycles of `all` that `g` still holds, in order. */
  function Enumerate(all: seq<Cycle>, g: Graph): seq<Cycle> {
    if all == [] then []
    else (if NodesOf(all[0]) <= g.nodes then [all[0]] else []) + Enumerate(all[1..], g)
  }

  /** The enumeration on `g` holds exactly the cycles of `all` whose nodes `g` still has. */
  lemma {:induction false} EnumerateMember(all: seq<Cycle>, g: Graph)
    ensures |Enumerate(all, g)| <= |all|
    ensures forall c :: c in Enumerate(all, g) <==> c in all && NodesOf(c) <= g.nodes
  {
    if all != [] {
      EnumerateMember(all[1..], g);
      assert forall c :: c in all <==> c == all[0] || c in all[1..];
    }
  }

  /**
   * The result of `find_cycles` on an enumeration: its first `MaxCycles`
   * cycles, longest first, equal lengths in enumeration order.
   */
  function FoundCycles(enumeration: seq<Cycle>): seq<Cycle> {
    SortDesc(enumeration[..Min(|enumeration|, MaxCycles)], Length)
  }

  /** `find_cycles`: a counted loop that stops at the cap, then a stable sort by length. */
  method FindCycles(enumeration: seq<Cycle>) returns (cycles: seq<Cycle>)
    ensures cycles == FoundCycles(enumeration)
  {
    var kept: seq<Cycle> := [];
    var i := 0;
    for k := 0 to |enumeration|
      invariant i == Min(k, MaxCycles)
      invariant kept == enumeration[..i]
    {
      if i >= MaxCycles {
        break;
      }
      kept := kept + [enumeration[k]];
      i := i + 1;
    }
    cycles := SortDesc(kept, Length);
  }

  /**
   * `find_cycles` keeps at most `MaxCycles` cycles, exactly the first ones
   * of the enumeration, sorted by non-increasing length, and the sort is
   * stable: the cycles of each length keep their enumeration order.
   */
  lemma {:induction false} FoundCyclesFacts(enumeration: seq<Cycle>)
    ensures |FoundCycles(enumeration)| == Min(|enumeration|, MaxCycles) <= MaxCycles
    ensures multiset(FoundCycles(enumeration)) == multiset(enumeration[..Min(|enumeration|, MaxCycles)])
    ensures SortedDesc(FoundCycles(enumeration), Length)
    ensures forall n :: WithKey(FoundCycles(enumeration), Length, n)
                        == WithKey(enumeration[..Min(|enumeration|, MaxCycles)], Length, n)
  {
    var kept := enumeration[..Min(|enumeration|, MaxCycles)];
    SortDescFacts(kept, Length);
    forall n ensures WithKey(FoundCycles(enumeration), Length, n) == WithKey(kept, Length, n) {
      SortDescStable(kept, Length, n);
    }
  }

  /** Under the cap, every enumerated cycle is kept. */
  lemma FoundAll(enumeration: seq<Cycle>, c: Cycle)
    requires |enumeration| <= MaxCycles && c in enumeration
    ensures c in FoundCycles(enumeration)
  {
    assert enumeration[..Min(|enumeration|, MaxCycles)] == enumeration;
    SortDescFacts(enumeration, Length);
    assert c in multiset(enumeration);
  }

  /** The cycles `find_cycles` reports on `g` come from `all` and lie within `g`. */
  lemma FoundWithin(all: seq<Cycle>, g: Graph)
    ensures forall c :: c in FoundCycles(Enumerate(all, g)) ==> c in all && NodesOf(c) <= g.nodes
  {
    var e := Enumerate(all, g);
    var kept := e[..Min(|e|, MaxCycles)];
    EnumerateMember(all, g);
    SortDescFacts(kept, Length);
    forall c | c in FoundCycles(e) ensures c in all && NodesOf(c) <= g.nodes {
      assert c in multiset(FoundCycles(e));
      assert c in multiset(kept);
      assert c in kept;
    }
  }

  /** `set(node[0] for node in cycle)`. */
  function Names(c: Cycle): set<string> {
    set n | n in c :: Head(n)
  }

  /**
   * `satisfied`: the length of the cycle, or, given the set of priority
   * (schedule-conflict) students, how many of them the cycle contains.
   */
  function Weight(c: Cycle, priority: Option<set<string>>): nat {
    match priority
    case None => |c|
    case Some(sc) => |Names(c) * sc|
  }

  /** Every cycle of the search visits at least one node. */
  predicate NonEmpty(all: seq<Cycle>) {
    forall c :: c in all ==> c != []
  }

  /**
   * `optimal_removal(G, sc_students)`: the best cycle groups found and their
   * count. With no cycles the answer is `([], 0)`; otherwise every cycle is
   * tried in turn (`Scan`).
   */
  function Optimal(all: seq<Cycle>, g: Graph, priority: Option<set<string>>): (seq<Cycle>, nat)
    requires NonEmpty(all)
    decreases |g.nodes|, 1, 0
  {
    var cycles := FoundCycles(Enumerate(all, g));
    if cycles == [] then ([], 0)
    else
      FoundWithin(all, g);
      Scan(all, g, priority, cycles, [], 0)
  }

  /**
   * The loop of `optimal_removal` over the cycles still to try, with the
   * best groups and count so far: each cycle is removed from a copy of the
   * graph, the rest is solved recursively, and the cycle's weight plus that
   * count replaces the best only when it is strictly larger.
   */
  function Scan(all: seq<Cycle>, g: Graph, priority: Option<set<string>>,
                cycles: seq<Cycle>, best: seq<Cycle>, bestCount: nat): (seq<Cycle>, nat)
    requires NonEmpty(all)
    requires forall c :: c in cycles ==> c in all && NodesOf(c) <= g.nodes
    decreases |g.nodes|, 0, |cycles|
  {
    if cycles == [] then (best, bestCount)
    else
      var c := cycles[0];
      assert c in cycles;
      assert c[0] in NodesOf(c);
      RemoveNodesShrinks(g, NodesOf(c));
      var (groups, count) := Optimal(all, RemoveNodes(g, NodesOf(c)), priority);
      var satisfied := Weight(c, priority);
      if satisfied + count > bestCount then
        Scan(all, g, priority, cycles[1..], groups + [c], satisfied + count)
      else
        Scan(all, g, priority, cycles[1..], best, bestCount)
  }

  /** What trying cycle `c` first yields: its weight plus the best count without its nodes. */
  function Candidate(all: seq<Cycle>, g: Graph, priority: Option<set<string>>, c: Cycle): nat
    requires NonEmpty(all)
  {
    Weight(c, priority) + Optimal(all, RemoveNodes(g, NodesOf(c)), priority).1
  }

  /**
   * One iteration of the loop of `optimal_removal`: trying `cycles[k]`,
   * given the answer on the graph without its nodes, moves the best so far
   * from `(best, bestCount)` to `(next, nextCount)`.
   */
  lemma ScanStep(all: seq<Cycle>, g: Graph, priority: Option<set<string>>, cycles: seq<Cycle>, k: nat,
                 best: seq<Cycle>, bestCount: nat, subGroups: seq<Cycle>, subCount: nat,
                 next: seq<Cycle>, nextCount: nat)
    requires NonEmpty(all) && k < |cycles|
    requires forall c :: c in cycles ==> c in all && NodesOf(c) <= g.nodes
    requires (subGroups, subCount) == Optimal(all, RemoveNodes(g, NodesOf(cycles[k])), priority)
    requires Weight(cycles[k], priority) + subCount > bestCount ==>
               next == subGroups + [cycles[k]] && nextCount == Weight(cycles[k], priority) + subCount
    requires Weight(cycles[k], priority) + subCount <= bestCount ==> next == best && nextCount == bestCount
    ensures Scan(all, g, priority, cycles[k..], best, bestCount) == Scan(all, g, priority, cycles[k + 1..], next, nextCount)
  {
    assert cycles[k..][0] == cycles[k] && cycles[k..][1..] == cycles[k + 1..];
  }

  /** Removing the nodes of a cycle one by one removes all of them. */
  lemma RemoveOneMore(g: Graph, c: Cycle, j: nat)
    requires j < |c|
    ensures RemoveNodes(RemoveNodes(g, NodesOf(c[..j])), {c[j]}) == RemoveNodes(g, NodesOf(c[..j + 1]))
  {
    assert NodesOf(c[..j + 1]) == NodesOf(c[..j]) + {c[j]} by {
      assert c[..j + 1] == c[..j] + [c[j]];
    }
  }

  /** `G_c = G.copy()`, then `G_c.remove_node(node)` for every node of the cycle. */
  method RemoveCycle(g: Graph, cycle: Cycle) returns (reduced: Graph)
    ensures reduced == RemoveNodes(g, NodesOf(cycle))
  {
    reduced := g;
    for j := 0 to |cycle|
      invariant reduced == RemoveNodes(g, NodesOf(cycle[..j]))
    {
      RemoveOneMore(g, cycle, j);
      reduced := RemoveNodes(reduced, {cycle[j]});
    }
    assert cycle[..|cycle|] == cycle;
  }

  /** `optimal_removal`, with the recursive search on a copy of the graph. */
  method OptimalRemoval(all: seq<Cycle>, g: Graph, priority: Option<set<string>>)
    returns (groups: seq<Cycle>, count: nat)
    requires NonEmpty(all)
    ensures (groups, count) == Optimal(all, g, priority)
    decreases |g.nodes|
  {
    var cycles := FindCycles(Enumerate(all, g));
    if cycles == [] {
      return [], 0;
    }
    FoundWithin(all, g);
    groups, count := [], 0;
    for k := 0 to |cycles|
      invariant Scan(all, g, priority, cycles[k..], groups, count) == Optimal(all, g, priority)
    {
      var cycle := cycles[k];
      var reduced := RemoveCycle(g, cycle);
      assert cycle in cycles && cycle[0] in NodesOf(cycle);
      RemoveNodesShrinks(g, NodesOf(cycle));
      var subGroups, subCount := OptimalRemoval(all, reduced, priority);
      ghost var best, bestCount := groups, count;
      var satisfied := Weight(cycle, priority);
      if satisfied + subCount > count {
        groups := subGroups + [cycle];
        count := satisfied + subCount;
      }
      ScanStep(all, g, priority, cycles, k, best, bestCount, subGroups, subCount, groups, count);
    }
  }

  /** No node is shared by two cycles of the selection. */
  predicate Disjoint(groups: seq<Cycle>) {
    forall i, j :: 0 <= i < j < |groups| ==> NodesOf(groups[i]) !! NodesOf(groups[j])
  }

  /** The summed weight of a selection of cycles. */
  function Total(groups: seq<Cycle>, priority: Option<set<string>>): nat {
    if groups == [] then 0
    else Total(groups[..|groups| - 1], priority) + Weight(groups[|groups| - 1], priority)
  }

  /**
   * A well-formed answer on `g`: node-disjoint cycles of the enumeration
   * that `g` still holds, whose weights sum to the count, which is zero
   * exactly when nothing is selected.
   */
  predicate Selection(all: seq<Cycle>, g: Graph, priority: Option<set<string>>,
                      groups: seq<Cycle>, count: nat) {
    (forall c :: c in groups ==> c in all && NodesOf(c) <= g.nodes)
    && Disjoint(groups)
    && count == Total(groups, priority)
    && (groups == [] <==> count == 0)
  }

  /** The answer of `optimal_removal` is a well-formed selection. */
  lemma {:induction false} OptimalSound(all: seq<Cycle>, g: Graph, priority: Option<set<string>>)
    requires NonEmpty(all)
    ensures Selection(all, g, priority, Optimal(all, g, priority).0, Optimal(all, g, priority).1)
    decreases |g.nodes|, 1, 0
  {
    var cycles := FoundCycles(Enumerate(all, g));
    if cycles != [] {
      FoundWithin(all, g);
      ScanSound(all, g, priority, cycles, [], 0);
    }
  }

  /** Each step of the loop keeps the best answer well-formed. */
  lemma {:induction false} ScanSound(all: seq<Cycle>, g: Graph, priority: Option<set<string>>,
                                     cycles: seq<Cycle>, best: seq<Cycle>, bestCount: nat)
    requires NonEmpty(all)
    requires forall c :: c in cycles ==> c in all && NodesOf(c) <= g.nodes
    requires Selection(all, g, priority, best, bestCount)
    ensures Selection(all, g, priority, Scan(all, g, priority, cycles, best, bestCount).0,
                      Scan(all, g, priority, cycles, best, bestCount).1)
    decreases |g.nodes|, 0, |cycles|
  {
    if cycles != [] {
      var c := cycles[0];
      assert c in cycles;
      assert c[0] in NodesOf(c);
      RemoveNodesShrinks(g, NodesOf(c));
      var h := RemoveNodes(g, NodesOf(c));
      var sub := Optimal(all, h, priority);
      var cand := Weight(c, priority) + sub.1;
      var next := if cand > bestCount then sub.0 + [c] else best;
      var nextCount := if cand > bestCount then cand else bestCount;
      ScanStep(all, g, priority, cycles, 0, best, bestCount, sub.0, sub.1, next, nextCount);
      assert cycles[0..] == cycles;
      if cand > bestCount {
        OptimalSound(all, h, priority);
        ExtendSelection(all, g, priority, c, sub.0, sub.1);
      }
      ScanSound(all, g, priority, cycles[1..], next, nextCount);
    }
  }

  /** A selection on `g` without the nodes of `c`, followed by `c`, is a selection on `g`. */
  lemma ExtendSelection(all: seq<Cycle>, g: Graph, priority: Option<set<string>>,
                        c: Cycle, groups: seq<Cycle>, count: nat)
    requires c in all && NodesOf(c) <= g.nodes
    requires Selection(all, RemoveNodes(g, NodesOf(c)), priority, groups, count)
    requires Weight(c, priority) + count > 0
    ensures Selection(all, g, priority, groups + [c], Weight(c, priority) + count)
  {
    var ext := groups + [c];
    assert ext[..|ext| - 1] == groups;
    forall i, j | 0 <= i < j < |ext| ensures NodesOf(ext[i]) !! NodesOf(ext[j]) {
      if j == |groups| {
        assert groups[i] in groups;
      }
    }
  }

  /**
   * The answer `(groups, count)` comes from trying `cycles[k]` first, and
   * every earlier cycle yields strictly less.
   */
  predicate ChosenAt(all: seq<Cycle>, g: Graph, priority: Option<set<string>>, cycles: seq<Cycle>,
                     groups: seq<Cycle>, count: nat, k: int)
    requires NonEmpty(all)
  {
    && 0 <= k < |cycles|
    && groups == Optimal(all, RemoveNodes(g, NodesOf(cycles[k])), priority).0 + [cycles[k]]
    && count == Candidate(all, g, priority, cycles[k])
    && forall j :: 0 <= j < k ==> Candidate(all, g, priority, cycles[j]) < count
  }

  /**
   * The loop picks the first cycle whose candidate count is largest, and
   * only if it beats the best count it started from.
   */
  lemma {:induction false} ScanChoice(all: seq<Cycle>, g: Graph, priority: Option<set<string>>,
                                      cycles: seq<Cycle>, best: seq<Cycle>, bestCount: nat)
    requires NonEmpty(all)
    requires forall c :: c in cycles ==> c in all && NodesOf(c) <= g.nodes
    ensures var r := Scan(all, g, priority, cycles, best, bestCount);
      && bestCount <= r.1
      && (forall k :: 0 <= k < |cycles| ==> Candidate(all, g, priority, cycles[k]) <= r.1)
      && (r.1 == bestCount ==> r.0 == best)
      && (r.1 > bestCount ==> exists k :: ChosenAt(all, g, priority, cycles, r.0, r.1, k))
    decreases |cycles|
  {
    if cycles != [] {
      var c := cycles[0];
      var sub := Optimal(all, RemoveNodes(g, NodesOf(c)), priority);
      var cand := Candidate(all, g, priority, c);
      var tail := cycles[1..];
      var next := if cand > bestCount then sub.0 + [c] else best;
      var nextCount := if cand > bestCount then cand else bestCount;
      ScanStep(all, g, priority, cycles, 0, best, bestCount, sub.0, sub.1, next, nextCount);
      assert cycles[0..] == cycles;
      ScanChoice(all, g, priority, tail, next, nextCount);
      var r := Scan(all, g, priority, tail, next, nextCount);
      forall k | 0 < k < |cycles| ensures Candidate(all, g, priority, cycles[k]) <= r.1 {
        assert cycles[k] == tail[k - 1];
      }
      if r.1 > bestCount {
        if r.1 > nextCount {
          var k :| ChosenAt(all, g, priority, tail, r.0, r.1, k);
          ChosenLater(all, g, priority, cycles, r.0, r.1, k);
        } else {
          assert ChosenAt(all, g, priority, cycles, r.0, r.1, 0);
        }
      }
    }
  }

  /** A choice in the tail is a choice in the whole list when the head yields less. */
  lemma ChosenLater(all: seq<Cycle>, g: Graph, priority: Option<set<string>>, cycles: seq<Cycle>,
                    groups: seq<Cycle>, count: nat, k: int)
    requires NonEmpty(all) && cycles != []
    requires ChosenAt(all, g, priority, cycles[1..], groups, count, k)
    requires Candidate(all, g, priority, cycles[0]) < count
    ensures ChosenAt(all, g, priority, cycles, groups, count, k + 1)
  {
    assert cycles[k + 1] == cycles[1..][k];
    forall j | 0 < j < k + 1 ensures Candidate(all, g, priority, cycles[j]) < count {
      assert cycles[j] == cycles[1..][j - 1];
    }
  }

  /**
   * The count of `optimal_removal` is the largest candidate count over the
   * cycles `find_cycles` reports, and ties go to the earliest of them.
   */
  lemma OptimalChoice(all: seq<Cycle>, g: Graph, priority: Option<set<string>>)
    requires NonEmpty(all)
    ensures var cycles := FoundCycles(Enumerate(all, g));
      var r := Optimal(all, g, priority);
      && (forall k :: 0 <= k < |cycles| ==> Candidate(all, g, priority, cycles[k]) <= r.1)
      && (r.1 == 0 ==> r.0 == [])
      && (r.1 > 0 ==> exists k :: ChosenAt(all, g, priority, cycles, r.0, r.1, k))
  {
    var cycles := FoundCycles(Enumerate(all, g));
    if cycles != [] {
      FoundWithin(all, g);
      ScanChoice(all, g, priority, cycles, [], 0);
    }
  }

  /**
   * Maximality: while the enumeration stays under the cap, no selection of
   * node-disjoint cycles of `g` weighs more than the count found.
   */
  lemma {:induction false} OptimalIsMaximal(all: seq<Cycle>, g: Graph, priority: Option<set<string>>,
                                            groups: seq<Cycle>)
    requires NonEmpty(all) && |all| <= MaxCycles
    requires forall c :: c in groups ==> c in all && NodesOf(c) <= g.nodes
    requires Disjoint(groups)
    ensures Total(groups, priority) <= Optimal(all, g, priority).1
    decreases |g.nodes|
  {
    if groups != [] {
      var c := groups[|groups| - 1];
      var rest := groups[..|groups| - 1];
      var h := RemoveNodes(g, NodesOf(c));
      assert c in all;
      assert c[0] in NodesOf(c);
      RemoveNodesShrinks(g, NodesOf(c));
      forall d | d in rest ensures d in all && NodesOf(d) <= h.nodes {
        var i :| 0 <= i < |rest| && rest[i] == d;
        assert groups[i] == d;
      }
      OptimalIsMaximal(all, h, priority, rest);
      EnumerateMember(all, g);
      FoundAll(Enumerate(all, g), c);
      OptimalChoice(all, g, priority);
      var cycles := FoundCycles(Enumerate(all, g));
      var k :| 0 <= k < |cycles| && cycles[k] == c;
    }
  }

  /** `set(node[0] for node in cycle)` has at most one name per node. */
  lemma {:induction false} NamesCard(c: Cycle)
    ensures |Names(c)| <= |c|
  {
    if c != [] {
      NamesCard(c[1..]);
      assert Names(c) == Names(c[1..]) + {Head(c[0])} by {
        forall x | x in Names(c) ensures x in Names(c[1..]) + {Head(c[0])} {
          var n :| n in c && Head(n) == x;
          if n != c[0] {
            assert n in c[1..];
          }
        }
      }
    }
  }

  /** A cycle satisfies at most as many priority students as it has nodes. */
  lemma WeightBound(c: Cycle, priority: Option<set<string>>)
    ensures Weight(c, priority) <= |c| == Weight(c, None)
  {
    NamesCard(c);
    if priority.Some? {
      SubsetCard(Names(c) * priority.value, Names(c));
    }
  }

  /** A selection satisfies no more priority students than it moves students. */
  lemma {:induction false} TotalBound(groups: seq<Cycle>, priority: Option<set<string>>)
    ensures Total(groups, priority) <= Total(groups, None)
  {
    if groups != [] {
      TotalBound(groups[..|groups| - 1], priority);
      WeightBound(groups[|groups| - 1], priority);
    }
  }

  /**
   * On any enumeration, the priority search never reports more satisfied
   * priority students than the plain search moves students: both try the
   * same candidates, and a cycle's priority weight is at most its length.
   */
  lemma {:induction false} PriorityAtMostPlain(all: seq<Cycle>, g: Graph, sc: set<string>)
    requires NonEmpty(all)
    ensures Optimal(all, g, Some(sc)).1 <= Optimal(all, g, None).1
    decreases |g.nodes|
  {
    var cycles := FoundCycles(Enumerate(all, g));
    if cycles != [] {
      var r := Optimal(all, g, Some(sc));
      FoundWithin(all, g);
      OptimalChoice(all, g, Some(sc));
      OptimalChoice(all, g, None);
      if r.1 > 0 {
        var k :| ChosenAt(all, g, Some(sc), cycles, r.0, r.1, k);
        var c := cycles[k];
        assert c in all && NodesOf(c) <= g.nodes;
        assert c[0] in NodesOf(c);
        RemoveNodesShrinks(g, NodesOf(c));
        PriorityAtMostPlain(all, RemoveNodes(g, NodesOf(c)), sc);
        WeightBound(c, Some(sc));
        assert Candidate(all, g, Some(sc), c) <= Candidate(all, g, None, c);
      }
    }
  }

  /**
   * On the graph the enumeration was taken from, the selected groups are
   * simple cycles of that graph.
   */
  lemma OptimalCyclesOfGraph(all: seq<Cycle>, g: Graph, priority: Option<set<string>>)
    requires forall c :: c in all ==> IsSimpleCycle(g, c)
    ensures NonEmpty(all)
    ensures forall c :: c in Optimal(all, g, priority).0 ==> IsSimpleCycle(g, c)
    ensures Disjoint(Optimal(all, g, priority).0)
  {
    OptimalSound(all, g, priority);
  }

  lemma NamesPair(a: Node, b: Node)
    ensures NodesOf([a, b]) == {a, b}
    ensures Names([a, b]) == {Head(a), Head(b)}
  {
    assert a in [a, b] && b in [a, b];
  }

  /** On a graph without nodes no cycle is enumerated. */
  lemma {:induction false} EnumerateNoNodes(all: seq<Cycle>, h: Graph)
    requires NonEmpty(all) && h.nodes == {}
    ensures Enumerate(all, h) == []
  {
    if all != [] {
      assert all[0] in all && all[0][0] in NodesOf(all[0]);
      assert forall c :: c in all[1..] ==> c in all;
      EnumerateNoNodes(all[1..], h);
    }
  }

  /** Up to two cycles of the same length are found in their enumeration order. */
  lemma FoundEqualLengths(cs: seq<Cycle>)
    requires |cs| <= 2 && forall i :: 0 <= i < |cs| ==> |cs[i]| == 2
    ensures FoundCycles(cs) == cs
  {
    assert cs[..Min(|cs|, MaxCycles)] == cs;
    if |cs| == 1 {
      assert cs[..0] == [] && SortDesc(cs[..0], Length) == [];
      assert SortDesc(cs, Length) == Insert(cs[0], [], Length) == [cs[0]] == cs;
    } else if |cs| == 2 {
      var first := cs[..1];
      assert first == [cs[0]] && first[..0] == [];
      assert SortDesc(first, Length) == [cs[0]];
      assert [cs[0]][1..] == [];
      assert Insert(cs[1], [cs[0]], Length) == [cs[0], cs[1]] == cs;
    }
  }

  /** With a single cycle to try, it is selected exactly when its weight is positive. */
  lemma OptimalSingle(all: seq<Cycle>, h: Graph, priority: Option<set<string>>, c: Cycle)
    requires NonEmpty(all) && Enumerate(all, h) == [c] && |c| == 2
    requires Optimal(all, RemoveNodes(h, NodesOf(c)), priority) == ([], 0)
    ensures Optimal(all, h, priority) == if Weight(c, priority) > 0 then ([c], Weight(c, priority)) else ([], 0)
  {
    FoundEqualLengths([c]);
    EnumerateMember(all, h);
    assert c in Enumerate(all, h);
    assert Optimal(all, h, priority) == Scan(all, h, priority, [c], [], 0);
    assert [c][1..] == [] && [] + [c] == [c];
    var w := Weight(c, priority);
    assert Scan(all, h, priority, [c], [], 0) == if w > 0 then Scan(all, h, priority, [], [c], w) else Scan(all, h, priority, [], [], 0);
  }

  /** What the enumeration of two cycles keeps on `h`. */
  lemma EnumerateTwo(c: Cycle, d: Cycle, h: Graph)
    ensures Enumerate([c, d], h)
         == (if NodesOf(c) <= h.nodes then [c] else []) + (if NodesOf(d) <= h.nodes then [d] else [])
  {
    assert [c, d][1..] == [d] && [d][1..] == [] && Enumerate([], h) == [];
    assert Enumerate([d], h) == (if NodesOf(d) <= h.nodes then [d] else []) + [];
    assert Enumerate([c, d], h) == (if NodesOf(c) <= h.nodes then [c] else []) + Enumerate([d], h);
  }

  /** With two cycles of length 2 to try, the search scans them in enumeration order. */
  lemma OptimalTwo(all: seq<Cycle>, g: Graph, priority: Option<set<string>>)
    requires NonEmpty(all) && Enumerate(all, g) == all && |all| == 2 && |all[0]| == 2 && |all[1]| == 2
    requires NodesOf(all[0]) <= g.nodes && NodesOf(all[1]) <= g.nodes
    ensures forall c :: c in all ==> NodesOf(c) <= g.nodes
    ensures Optimal(all, g, priority) == Scan(all, g, priority, all, [], 0)
  {
    FoundEqualLengths(all);
  }

  /**
   * Of two enumerated cycles, only `all[i]` lies in `h`, and it covers all of
   * `h`: it is selected exactly when its weight is positive.
   */
  lemma OptimalOnOne(all: seq<Cycle>, h: Graph, priority: Option<set<string>>, i: nat)
    requires NonEmpty(all) && |all| == 2 && i < 2 && |all[i]| == 2
    requires NodesOf(all[i]) == h.nodes && !(NodesOf(all[1 - i]) <= h.nodes)
    ensures Optimal(all, h, priority)
         == if Weight(all[i], priority) > 0 then ([all[i]], Weight(all[i], priority)) else ([], 0)
  {
    EnumerateTwo(all[0], all[1], h);
    assert all == [all[0], all[1]];
    assert Enumerate(all, h) == [all[i]];
    var rest := RemoveNodes(h, NodesOf(all[i]));
    assert rest.nodes == {};
    EnumerateNoNodes(all, rest);
    FoundEqualLengths([]);
    assert Optimal(all, rest, priority) == ([], 0);
    OptimalSingle(all, h, priority, all[i]);
  }

  /**
   * The scan over two cycles where the first weighs nothing and the second
   * one, which is all that is left once the first is removed: the first is
   * taken, together with the second, and the second alone does not beat that.
   */
  lemma ScanZeroFirst(all: seq<Cycle>, g: Graph, priority: Option<set<string>>)
    requires NonEmpty(all) && |all| == 2 && forall c :: c in all ==> NodesOf(c) <= g.nodes
    requires Weight(all[0], priority) == 0 && Weight(all[1], priority) == 1
    requires Optimal(all, RemoveNodes(g, NodesOf(all[0])), priority) == ([all[1]], 1)
    requires Optimal(all, RemoveNodes(g, NodesOf(all[1])), priority) == ([], 0)
    ensures Scan(all, g, priority, all, [], 0) == ([all[1], all[0]], 1)
  {
    ScanTakesFirst(all, g, priority);
    ScanKeepsBest(all, g, priority);
  }

  /** Trying the first cycle of the example scan: it beats the empty start. */
  lemma ScanTakesFirst(all: seq<Cycle>, g: Graph, priority: Option<set<string>>)
    requires NonEmpty(all) && |all| == 2 && forall c :: c in all ==> NodesOf(c) <= g.nodes
    requires Weight(all[0], priority) == 0
    requires Optimal(all, RemoveNodes(g, NodesOf(all[0])), priority) == ([all[1]], 1)
    ensures Scan(all, g, priority, all, [], 0) == Scan(all, g, priority, all[1..], [all[1], all[0]], 1)
  {
    assert [all[1]] + [all[0]] == [all[1], all[0]];
    assert all[0..] == all;
    ScanStep(all, g, priority, all, 0, [], 0, [all[1]], 1, [all[1], all[0]], 1);
  }

  /** Trying the second cycle of the example scan: it only ties the best. */
  lemma ScanKeepsBest(all: seq<Cycle>, g: Graph, priority: Option<set<string>>)
    requires NonEmpty(all) && |all| == 2 && forall c :: c in all ==> NodesOf(c) <= g.nodes
    requires Weight(all[1], priority) == 1
    requires Optimal(all, RemoveNodes(g, NodesOf(all[1])), priority) == ([], 0)
    ensures Scan(all, g, priority, all[1..], [all[1], all[0]], 1) == ([all[1], all[0]], 1)
  {
    assert all[2..] == [];
    ScanStep(all, g, priority, all, 1, [all[1], all[0]], 1, [], 0, [all[1], all[0]], 1);
  }

  /** Four distinct nodes: the two 2-cycles of the example below. */
  predicate Distinct4(x: Node, y: Node, p: Node, q: Node) {
    x != y && x != p && x != q && y != p && y != q && p != q
  }

  lemma PairWeights(x: Node, y: Node, p: Node, q: Node, sc: set<string>)
    requires Head(x) !in sc && Head(y) !in sc && Head(p) in sc && Head(q) !in sc
    ensures Weight([x, y], Some(sc)) == 0 && Weight([p, q], Some(sc)) == 1
  {
    NamesPair(x, y);
    NamesPair(p, q);
    assert Names([x, y]) * sc == {} && Names([p, q]) * sc == {Head(p)};
  }

  /** Without the nodes of the first cycle, only the second is left. */
  lemma WithoutFirst(x: Node, y: Node, p: Node, q: Node, g: Graph, priority: Option<set<string>>)
    requires Distinct4(x, y, p, q) && g.nodes == {x, y, p, q}
    ensures var d := [p, q];
      Optimal([[x, y], d], RemoveNodes(g, NodesOf([x, y])), priority)
        == if Weight(d, priority) > 0 then ([d], Weight(d, priority)) else ([], 0)
  {
    NamesPair(x, y);
    NamesPair(p, q);
    var rest := RemoveNodes(g, {x, y});
    assert rest.nodes == {p, q} && x !in rest.nodes;
    OptimalOnOne([[x, y], [p, q]], rest, priority, 1);
  }

  /** Without the nodes of the second cycle, only the first is left. */
  lemma WithoutSecond(x: Node, y: Node, p: Node, q: Node, g: Graph, priority: Option<set<string>>)
    requires Distinct4(x, y, p, q) && g.nodes == {x, y, p, q}
    ensures var c := [x, y];
      Optimal([c, [p, q]], RemoveNodes(g, NodesOf([p, q])), priority)
        == if Weight(c, priority) > 0 then ([c], Weight(c, priority)) else ([], 0)
  {
    NamesPair(x, y);
    NamesPair(p, q);
    var rest := RemoveNodes(g, {p, q});
    assert rest.nodes == {x, y} && p !in rest.nodes;
    OptimalOnOne([[x, y], [p, q]], rest, priority, 0);
  }

  /** On the whole graph both cycles are found, in enumeration order. */
  lemma BothFound(x: Node, y: Node, p: Node, q: Node, g: Graph, priority: Option<set<string>>)
    requires g.nodes == {x, y, p, q}
    ensures var all := [[x, y], [p, q]];
      && (forall e :: e in all ==> NodesOf(e) <= g.nodes)
      && Optimal(all, g, priority) == Scan(all, g, priority, all, [], 0)
  {
    NamesPair(x, y);
    NamesPair(p, q);
    EnumerateTwo([x, y], [p, q], g);
    OptimalTwo([[x, y], [p, q]], g, priority);
  }

  /**
   * Two node-disjoint 2-cycles `c` and `d`, enumerated in that order, where
   * only `d` holds a priority student: trying `c` first finds `d` in the rest
   * of the graph, so `c` enters the best groups at weight 0, and trying `d`
   * does not beat that count strictly.
   */
  lemma PriorityCycleSecond(x: Node, y: Node, p: Node, q: Node, g: Graph, sc: set<string>)
    requires Distinct4(x, y, p, q) && g.nodes == {x, y, p, q}
    requires Head(x) !in sc && Head(y) !in sc && Head(p) in sc && Head(q) !in sc
    ensures Weight([x, y], Some(sc)) == 0
    ensures Optimal([[x, y], [p, q]], g, Some(sc)) == ([[p, q], [x, y]], 1)
  {
    PairWeights(x, y, p, q, sc);
    WithoutFirst(x, y, p, q, g, Some(sc));
    WithoutSecond(x, y, p, q, g, Some(sc));
    BothFound(x, y, p, q, g, Some(sc));
    ScanZeroFirst([[x, y], [p, q]], g, Some(sc));
  }

  /**
   * In priority mode a cycle with no priority student can still be
   * selected: here X and Y trade on one cycle, P and Q on another, and only
   * P is a priority student.
   */
  lemma ZeroWeightSelected()
    ensures var sec := Sections.SectionPair("A", "B");
      var x, y, p, q := Student("X", sec), Student("Y", sec), Student("P", sec), Student("Q", sec);
      var g := Graph({x, y, p, q}, {(x, y), (y, x), (p, q), (q, p)});
      && Weight([x, y], Some({"P"})) == 0
      && Optimal([[x, y], [p, q]], g, Some({"P"})) == ([[p, q], [x, y]], 1)
  {
    var sec := Sections.SectionPair("A", "B");
    var x, y, p, q := Student("X", sec), Student("Y", sec), Student("P", sec), Student("Q", sec);
    var g := Graph({x, y, p, q}, {(x, y), (y, x), (p, q), (q, p)});
    PriorityCycleSecond(x, y, p, q, g, {"P"});
  }
}
