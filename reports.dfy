/**
 * The counting logic of `appeals_report` and `sc_report`: which cycles
 * are reported, how many students they move and which schedule-conflict
 * (priority) students they satisfy. The percentages are left out, but not
 * the divisions behind them: a zero student count or an empty priority set
 * raises `ZeroDivisionError`, modelled as `Err(DivisionByZero)`.
 */
module Reports {
  import opened Wrappers
  import opened Sections
  import opened Graphs
  import opened Cycles

  /**
   * What a report establishes: the cycles it prints, the number of appeals
   * they fix, the priority students they satisfy (`sc_students_fixed`) and
   * whether anything was found (the returned boolean).
   */
  datatype Report = Report(chain: seq<Cycle>, appealsFixed: nat, fixed: set<string>, found: bool)

  /** The priority students that some cycle of `groups` moves. */
  function FixedNames(groups: seq<Cycle>, sc: set<string>): set<string> {
    if groups == [] then {}
    else FixedNames(groups[..|groups| - 1], sc) + Names(groups[|groups| - 1]) * sc
  }

  /** A name is fixed exactly when it is a priority student on one of the cycles. */
  lemma {:induction false} FixedNamesMember(groups: seq<Cycle>, sc: set<string>, x: string)
    ensures x in FixedNames(groups, sc) <==> x in sc && exists i :: 0 <= i < |groups| && x in Names(groups[i])
  {
    if groups != [] {
      var init := groups[..|groups| - 1];
      FixedNamesMember(init, sc, x);
      assert forall i :: 0 <= i < |init| ==> init[i] == groups[i];
    }
  }

  /** Fixing names over two lists of cycles is fixing them over each. */
  lemma {:induction false} FixedNamesAppend(a: seq<Cycle>, b: seq<Cycle>, sc: set<string>)
    ensures FixedNames(a + b, sc) == FixedNames(a, sc) + FixedNames(b, sc)
  {
    if b != [] {
      var init := b[..|b| - 1];
      FixedNamesAppend(a, init, sc);
      assert (a + b)[..|a + b| - 1] == a + init;
      assert (a + b)[|a + b| - 1] == b[|b| - 1];
    } else {
      assert a + b == a;
    }
  }

  /** No more priority students are fixed than the cycles' priority weights add up to. */
  lemma {:induction false} FixedNamesBound(groups: seq<Cycle>, sc: set<string>)
    ensures FixedNames(groups, sc) <= sc
    ensures |FixedNames(groups, sc)| <= Total(groups, Some(sc)) <= Total(groups, None)
  {
    TotalBound(groups, Some(sc));
    if groups != [] {
      var init := groups[..|groups| - 1];
      var last := groups[|groups| - 1];
      FixedNamesBound(init, sc);
      var a := FixedNames(init, sc);
      var b := Names(last) * sc;
      assert |a + b| + |a * b| == |a| + |b|;
    }
  }

  /** `appeals_report`: the plain search, then the priority students it happens to fix. */
  function AppealsOutcome(all: seq<Cycle>, g: Graph, sc: set<string>, numStudents: nat): Result<Report, Error>
    requires NonEmpty(all)
  {
    if numStudents == 0 || |sc| == 0 then Err(DivisionByZero)
    else
      var (groups, count) := Optimal(all, g, None);
      Ok(Report(groups, count, FixedNames(groups, sc), groups != []))
  }

  /** `appeals_report`, with its loop over the selected cycles. */
  method AppealsReport(all: seq<Cycle>, g: Graph, sc: set<string>, numStudents: nat)
    returns (r: Result<Report, Error>)
    requires NonEmpty(all)
    ensures r == AppealsOutcome(all, g, sc, numStudents)
  {
    var cycles, appealsFixed := OptimalRemoval(all, g, None);
    if numStudents == 0 {
      return Err(DivisionByZero);
    }
    var fixed: set<string> := {};
    for k := 0 to |cycles|
      invariant fixed == FixedNames(cycles[..k], sc)
    {
      assert cycles[..k + 1][..k] == cycles[..k];
      fixed := fixed + sc * Names(cycles[k]);
    }
    assert cycles[..|cycles|] == cycles;
    if |sc| == 0 {
      return Err(DivisionByZero);
    }
    r := Ok(Report(cycles, appealsFixed, fixed, cycles != []));
  }

  /**
   * `appeals_report` fails exactly on a zero student count or an empty
   * priority set. Otherwise it reports the plain optimum: node-disjoint
   * cycles that move `appealsFixed` students, found exactly when that is
   * positive, fixing only priority students that lie on them, and no more
   * of them than students moved.
   */
  lemma AppealsReportFacts(all: seq<Cycle>, g: Graph, sc: set<string>, numStudents: nat)
    requires NonEmpty(all)
    ensures AppealsOutcome(all, g, sc, numStudents).Err? <==> numStudents == 0 || |sc| == 0
    ensures var r := AppealsOutcome(all, g, sc, numStudents);
      r.Ok? ==>
        && Disjoint(r.value.chain)
        && r.value.appealsFixed == Total(r.value.chain, None)
        && (r.value.found <==> r.value.appealsFixed > 0)
        && r.value.fixed <= sc
        && |r.value.fixed| <= r.value.appealsFixed
  {
    var r := AppealsOutcome(all, g, sc, numStudents);
    if r.Ok? {
      OptimalSound(all, g, None);
      FixedNamesBound(r.value.chain, sc);
    }
  }

  /** The nodes `sc_report` drops before its second phase: every node of a fixed priority student. */
  function FixedNodes(g: Graph, fixed: set<string>): set<Node> {
    set n | n in g.nodes && Head(n) in fixed
  }

  /** The graph of the second phase. */
  function PhaseTwoGraph(g: Graph, fixed: set<string>): Graph {
    RemoveNodes(g, FixedNodes(g, fixed))
  }

  /**
   * The second phase sees the graph minus exactly the nodes of fixed
   * priority students; every other node and edge stays.
   */
  lemma PhaseTwoExact(g: Graph, fixed: set<string>, n: Node, e: (Node, Node))
    requires Valid(g)
    ensures n in PhaseTwoGraph(g, fixed).nodes <==> n in g.nodes && Head(n) !in fixed
    ensures e in PhaseTwoGraph(g, fixed).edges
            <==> e in g.edges && Head(e.0) !in fixed && Head(e.1) !in fixed
  {
    if e in g.edges && Head(e.0) !in fixed && Head(e.1) !in fixed {
      assert e.0 !in FixedNodes(g, fixed) && e.1 !in FixedNodes(g, fixed);
    }
    if e in g.edges && Head(e.0) in fixed {
      assert e.0 in FixedNodes(g, fixed);
    }
    if e in g.edges && Head(e.1) in fixed {
      assert e.1 in FixedNodes(g, fixed);
    }
  }

  /** The two phases of `sc_report`: the priority search, then the plain search on what is left. */
  datatype Phases = Phases(first: seq<Cycle>, firstMoved: nat, firstFixed: set<string>,
                           second: seq<Cycle>, extra: nat)

  function ScPhases(all: seq<Cycle>, g: Graph, sc: set<string>): Phases
    requires NonEmpty(all)
  {
    var first := Optimal(all, g, Some(sc)).0;
    var firstFixed := FixedNames(first, sc);
    var (second, extra) := Optimal(all, PhaseTwoGraph(g, firstFixed), None);
    Phases(first, Total(first, None), firstFixed, second, extra)
  }

  /** `sc_report`: both phases, then the combined chain. */
  function ScOutcome(all: seq<Cycle>, g: Graph, sc: set<string>, numStudents: nat): Result<Report, Error>
    requires NonEmpty(all)
  {
    if numStudents == 0 || |sc| == 0 then Err(DivisionByZero)
    else
      var p := ScPhases(all, g, sc);
      Ok(Report(p.first + p.second, p.firstMoved + p.extra,
                p.firstFixed + FixedNames(p.second, sc), p.first + p.second != []))
  }

  /** `sc_report`, with its two loops over the selected cycles. */
  method ScReport(all: seq<Cycle>, g: Graph, sc: set<string>, numStudents: nat)
    returns (r: Result<Report, Error>)
    requires NonEmpty(all)
    ensures r == ScOutcome(all, g, sc, numStudents)
  {
    var scCycles, scFixed := OptimalRemoval(all, g, Some(sc));
    var fixed: set<string> := {};
    var moved := 0;
    for k := 0 to |scCycles|
      invariant fixed == FixedNames(scCycles[..k], sc)
      invariant moved == Total(scCycles[..k], None)
    {
      assert scCycles[..k + 1][..k] == scCycles[..k];
      fixed := fixed + Names(scCycles[k]) * sc;
      moved := moved + |scCycles[k]|;
    }
    assert scCycles[..|scCycles|] == scCycles;
    var reduced := RemoveNodes(g, FixedNodes(g, fixed));
    var cycles, extra := OptimalRemoval(all, reduced, None);
    var appealsFixed := moved + extra;
    if numStudents == 0 {
      return Err(DivisionByZero);
    }
    ghost var firstFixed := fixed;
    for k := 0 to |cycles|
      invariant fixed == firstFixed + FixedNames(cycles[..k], sc)
    {
      assert cycles[..k + 1][..k] == cycles[..k];
      fixed := fixed + Names(cycles[k]) * sc;
    }
    assert cycles[..|cycles|] == cycles;
    if |sc| == 0 {
      return Err(DivisionByZero);
    }
    assert ScPhases(all, g, sc) == Phases(scCycles, moved, firstFixed, cycles, extra);
    var finalChain := scCycles + cycles;
    r := Ok(Report(finalChain, appealsFixed, fixed, finalChain != []));
  }

  /**
   * `sc_report` fails exactly on a zero student count or an empty priority
   * set. Otherwise the chain is the priority cycles followed by the plain
   * cycles found without the satisfied priority students, the appeals fixed
   * count every node on the chain, the fixed names are the priority
   * students on the chain (at most all of them), and something is found
   * exactly when some appeal is fixed.
   */
  lemma ScReportFacts(all: seq<Cycle>, g: Graph, sc: set<string>, numStudents: nat)
    requires NonEmpty(all)
    ensures ScOutcome(all, g, sc, numStudents).Err? <==> numStudents == 0 || |sc| == 0
    ensures var r := ScOutcome(all, g, sc, numStudents);
      var p := ScPhases(all, g, sc);
      r.Ok? ==>
        && r.value.chain == Optimal(all, g, Some(sc)).0 + Optimal(all, PhaseTwoGraph(g, p.firstFixed), None).0
        && r.value.appealsFixed == Total(r.value.chain, None)
        && r.value.fixed == FixedNames(r.value.chain, sc) <= sc
        && |r.value.fixed| <= |sc|
        && (r.value.found <==> r.value.appealsFixed > 0)
  {
    var r := ScOutcome(all, g, sc, numStudents);
    var p := ScPhases(all, g, sc);
    if r.Ok? {
      OptimalSound(all, g, Some(sc));
      OptimalSound(all, PhaseTwoGraph(g, p.firstFixed), None);
      TotalAppend(p.first, p.second, None);
      FixedNamesAppend(p.first, p.second, sc);
      FixedNamesBound(r.value.chain, sc);
      SubsetCard(r.value.fixed, sc);
      var chain := r.value.chain;
      if chain != [] {
        assert chain[|chain| - 1] in chain;
      }
    }
  }

  /**
   * No cycle of the second phase passes through a priority student that
   * the first phase satisfied; its other students may appear again.
   */
  lemma PhaseTwoAvoidsFixed(all: seq<Cycle>, g: Graph, sc: set<string>)
    requires NonEmpty(all) && Valid(g)
    ensures var p := ScPhases(all, g, sc);
      forall c, n :: c in p.second && n in c ==> Head(n) !in p.firstFixed
  {
    var p := ScPhases(all, g, sc);
    OptimalSound(all, PhaseTwoGraph(g, p.firstFixed), None);
    forall c, n | c in p.second && n in c ensures Head(n) !in p.firstFixed {
      assert n in NodesOf(c);
      PhaseTwoExact(g, p.firstFixed, n, (n, n));
    }
  }

  /** The weight of two lists of cycles is the sum of their weights. */
  lemma {:induction false} TotalAppend(a: seq<Cycle>, b: seq<Cycle>, priority: Option<set<string>>)
    ensures Total(a + b, priority) == Total(a, priority) + Total(b, priority)
  {
    if b != [] {
      var init := b[..|b| - 1];
      TotalAppend(a, init, priority);
      assert (a + b)[..|a + b| - 1] == a + init;
      assert (a + b)[|a + b| - 1] == b[|b| - 1];
    } else {
      assert a + b == a;
    }
  }
}
