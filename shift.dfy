/**
 * `shift_path`: when no swap cycle helps, look for chains of moves that take
 * one student out of a section of `sections_u` and give one to a section of
 * `sections_v`. For every pair of such sections, in order, the row loop adds
 * edges from a synthetic source to the students sitting in the first section
 * and from the students who would accept the second to a synthetic sink, on
 * top of whatever the caller's graph already holds; then the simple
 * source-to-sink paths are ranked twice.
 */
module Shift {
  import opened Wrappers
  import opened Text
  import opened Sections
  import opened Sorting
  import opened Graphs
  import PreferenceGraph
  import Cycles

  type Path = seq<Node>

  /**
   * What `shift_path` reads from a row: the name and current pair exactly as
   * they stand in the data frame (not stripped), whether the stripped reason
   * is a team preference, and what `generate_desired_sections` returns or
   * raises.
   */
  datatype Mover = Mover(name: string, current: SectionPair, preference: bool, desired: Result<seq<SectionPair>, Error>)

  function MoverOf(row: Row): Mover {
    Mover(row.name, SectionPair(row.currentRec, row.currentTut), IsPreference(row), DesiredSections(row))
  }

  /** The movers of the rows, in row order. */
  function Movers(rows: seq<Row>): (r: seq<Mover>)
    ensures |r| == |rows|
  {
    if rows == [] then [] else Movers(rows[..|rows| - 1]) + [MoverOf(rows[|rows| - 1])]
  }

  lemma {:induction false} MoversIndex(rows: seq<Row>, k: nat)
    requires k < |rows|
    ensures Movers(rows)[k] == MoverOf(rows[k])
  {
    if k < |rows| - 1 {
      MoversIndex(rows[..|rows| - 1], k);
    }
  }

  /** A mover's node `(name, current_section)`. */
  function At(m: Mover): Node {
    Student(m.name, m.current)
  }

  /** Python's `i`: tutorials are balanced on axis 1, recitations on axis 0. */
  function AxisOf(tutorial: bool): nat {
    if tutorial then 1 else 0
  }

  /**
   * What a desired pair must show on the axis to reach `v`: `v` itself for a
   * team preference, its time (`v.split(" with ")[0]`) for a schedule conflict.
   */
  function Target(preference: bool, v: string): string {
    if preference then v else TimeOf(v)
  }

  /** Some desired pair shows `target` on the axis. */
  predicate Reaches(desired: seq<SectionPair>, axis: nat, target: string) {
    exists j :: 0 <= j < |desired| && desired[j].Axis(axis) == target
  }

  /** The source edge of a mover: present when the mover sits in `u` on the axis. */
  function SourceEdges(m: Mover, u: string, axis: nat): set<(Node, Node)> {
    if m.current.Axis(axis) == u then {(Source, At(m))} else {}
  }

  /** The sink edge of a mover: present when one of its desired pairs reaches `v`. */
  function SinkEdges(m: Mover, v: string, axis: nat, desired: seq<SectionPair>): set<(Node, Node)> {
    if Reaches(desired, axis, Target(m.preference, v)) then {(At(m), Sink)} else {}
  }

  /**
   * What one row adds: its source edge, then the error `generate_desired_sections`
   * raises or the row's sink edge.
   */
  function RowStep(m: Mover, u: string, v: string, axis: nat): (Option<Error>, set<(Node, Node)>) {
    match m.desired
    case Err(e) => (Some(e), SourceEdges(m, u, axis))
    case Ok(d) => (None, SourceEdges(m, u, axis) + SinkEdges(m, v, axis, d))
  }

  /**
   * The row loop for one pair of sections: the error of the row that
   * raises, if any, and the edges added up to and including that row's
   * source edge (which is added before `generate_desired_sections` runs).
   */
  function PairEdges(ms: seq<Mover>, u: string, v: string, axis: nat): (Option<Error>, set<(Node, Node)>) {
    if ms == [] then (None, {})
    else
      var (err, added) := PairEdges(ms[..|ms| - 1], u, v, axis);
      if err.Some? then (err, added)
      else
        var (e, more) := RowStep(ms[|ms| - 1], u, v, axis);
        (e, added + more)
  }

  /** The error of the first row whose desired sections cannot be computed. */
  function FirstFailure(ms: seq<Mover>): Option<Error> {
    if ms == [] then None
    else if FirstFailure(ms[..|ms| - 1]).Some? then FirstFailure(ms[..|ms| - 1])
    else if ms[|ms| - 1].desired.Err? then Some(ms[|ms| - 1].desired.error)
    else None
  }

  /** `sum(1 for node in path if node[0] in sc_students)`. */
  function ConflictCount(p: Path, sc: set<string>): nat {
    if p == [] then 0
    else ConflictCount(p[..|p| - 1], sc) + (if Head(p[|p| - 1]) in sc then 1 else 0)
  }

  function ConflictKey(sc: set<string>): Path -> int {
    p => ConflictCount(p, sc)
  }

  /**
   * What one pair of sections prints: the paths found, ranked by length and
   * by the number of schedule-conflict students they move, both descending.
   * No paths is the "No free paths from u to v" message.
   */
  datatype Ranking = Ranking(from: string, to: string, paths: seq<Path>, byLength: seq<Path>, byConflicts: seq<Path>)

  function Rank(u: string, v: string, paths: seq<Path>, sc: set<string>): Ranking {
    Ranking(u, v, paths, SortDesc(paths, Cycles.Length), SortDesc(paths, ConflictKey(sc)))
  }

  /**
   * Where `shift_path` stands: still going, with the rankings printed so far
   * and `found_some`; returned early because the source or the sink is
   * missing after the pair `(from, to)`; or raised while building edges.
   */
  datatype Status =
    | Running(rankings: seq<Ranking>, foundSome: bool)
    | Stopped(rankings: seq<Ranking>, from: string, to: string)
    | Failed(error: Error)

  /**
   * The fixed inputs of one call: the movers, `sc_students`, the axis, and
   * `nx.all_simple_paths(G, source, sink)` as a function of the graph.
   */
  datatype Job = Job(movers: seq<Mover>, sc: set<string>, axis: nat, search: Graph -> seq<Path>)

  /** One pair of sections: add its edges, then stop, or rank the paths. */
  function Visit(g: Graph, job: Job, u: string, v: string, st: Status): (Status, Graph)
    requires st.Running?
  {
    var (err, added) := PairEdges(job.movers, u, v, job.axis);
    var h := AddEdges(g, added);
    if err.Some? then (Failed(err.value), h)
    else if Source !in h.nodes || Sink !in h.nodes then (Stopped(st.rankings, u, v), h)
    else
      var paths := job.search(h);
      (Running(st.rankings + [Rank(u, v, paths, job.sc)], st.foundSome || paths != []), h)
  }

  /** The inner loop: `u` against every section of `vs`, until one stops the call. */
  function Across(g: Graph, job: Job, u: string, vs: seq<string>, st: Status): (Status, Graph)
    requires st.Running?
    decreases |vs|
  {
    if vs == [] then (st, g)
    else
      var (next, h) := Visit(g, job, u, vs[0], st);
      if !next.Running? then (next, h) else Across(h, job, u, vs[1..], next)
  }

  /** The outer loop: every section of `us` against every section of `vs`. */
  function Shifted(g: Graph, job: Job, us: seq<string>, vs: seq<string>, st: Status): (Status, Graph)
    requires st.Running?
    decreases |us|
  {
    if us == [] then (st, g)
    else
      var (next, h) := Across(g, job, us[0], vs, st);
      if !next.Running? then (next, h) else Shifted(h, job, us[1..], vs, next)
  }

  /** The whole call, on the caller's graph `g`: what it reports and the graph it leaves. */
  function ShiftOutcome(g: Graph, rows: seq<Row>, sc: set<string>, us: seq<string>, vs: seq<string>,
                        tutorial: bool, search: Graph -> seq<Path>): (Status, Graph)
  {
    Shifted(g, Job(Movers(rows), sc, AxisOf(tutorial), search), us, vs, Running([], false))
  }

  // ---------------------------------------------------------------------
  // The row loop
  // ---------------------------------------------------------------------

  /** Whether the first `j` desired pairs reach `target` grows by one pair at a time. */
  lemma ReachesStep(desired: seq<SectionPair>, axis: nat, target: string, j: nat)
    requires j < |desired|
    ensures Reaches(desired[..j + 1], axis, target)
        <==> Reaches(desired[..j], axis, target) || desired[j].Axis(axis) == target
  {
    if Reaches(desired[..j + 1], axis, target) && desired[j].Axis(axis) != target {
      var l :| 0 <= l < j + 1 && desired[..j + 1][l].Axis(axis) == target;
      assert desired[..j][l] == desired[l];
    }
    if Reaches(desired[..j], axis, target) {
      var l :| 0 <= l < j && desired[..j][l].Axis(axis) == target;
      assert desired[..j + 1][l] == desired[l];
    }
    if desired[j].Axis(axis) == target {
      assert desired[..j + 1][j] == desired[j];
    }
  }

  /**
   * The loop over `desired_sections`: add the edge `(node, sink)` once a
   * desired pair shows `target` on the axis (adding it again changes nothing).
   */
  method AddSinkEdge(g: DiGraph, node: Node, desired: seq<SectionPair>, axis: nat, target: string)
    modifies g
    ensures g.Value() == (if Reaches(desired, axis, target) then WithEdge(old(g.Value()), node, Sink) else old(g.Value()))
  {
    for j := 0 to |desired|
      invariant g.Value() == (if Reaches(desired[..j], axis, target) then WithEdge(old(g.Value()), node, Sink) else old(g.Value()))
    {
      ReachesStep(desired, axis, target, j);
      if desired[j].Axis(axis) == target {
        g.AddEdge(node, Sink);
      }
    }
    assert desired[..|desired|] == desired;
  }

  /**
   * One row of the row loop: the source edge first, then
   * `generate_desired_sections` (which may raise), then the sink edge.
   */
  method AddMoverEdges(g: DiGraph, rows: seq<Row>, k: nat, u: string, v: string, axis: nat) returns (err: Option<Error>)
    requires k < |rows|
    modifies g
    ensures err == RowStep(Movers(rows)[k], u, v, axis).0
    ensures g.Value() == AddEdges(old(g.Value()), RowStep(Movers(rows)[k], u, v, axis).1)
  {
    MoversIndex(rows, k);
    ghost var m := Movers(rows)[k];
    var row := rows[k];
    var name := row.name;
    var reason := Strip(row.reason);
    var current := SectionPair(row.currentRec, row.currentTut);
    var node := Student(name, current);
    if current.Axis(axis) == u {
      g.AddEdge(Source, node);
      AddEdgesOne(old(g.Value()), Source, node);
    }
    ghost var afterSource := g.Value();
    assert afterSource == AddEdges(old(g.Value()), SourceEdges(m, u, axis));
    var desired := GenerateDesiredSections(row);
    if desired.Err? {
      return Some(desired.error);
    }
    if reason == TeamPreference {
      AddSinkEdge(g, node, desired.value, axis, v);
    } else {
      var time := Split(v, With)[0];
      BeforeIsFirstPiece(v, With);
      AddSinkEdge(g, node, desired.value, axis, time);
    }
    SinkDone(m, u, v, axis, old(g.Value()), afterSource, g.Value());
    err := None;
  }

  /** The sink loop completes the row's edges. */
  lemma SinkDone(m: Mover, u: string, v: string, axis: nat, g0: Graph, afterSource: Graph, after: Graph)
    requires m.desired.Ok?
    requires afterSource == AddEdges(g0, SourceEdges(m, u, axis))
    requires after == (if Reaches(m.desired.value, axis, Target(m.preference, v)) then WithEdge(afterSource, At(m), Sink) else afterSource)
    ensures after == AddEdges(g0, RowStep(m, u, v, axis).1)
  {
    AddEdgesOne(afterSource, At(m), Sink);
    AddEdgesUnion(g0, SourceEdges(m, u, axis), SinkEdges(m, v, axis, m.desired.value));
  }

  /** One more row of the loop, on the graph as it stands before and after the row. */
  lemma PairEdgesStep(g0: Graph, ms: seq<Mover>, k: nat, u: string, v: string, axis: nat, prior: Graph, now: Graph)
    requires k < |ms| && PairEdges(ms[..k], u, v, axis).0 == None
    requires prior == AddEdges(g0, PairEdges(ms[..k], u, v, axis).1)
    requires now == AddEdges(prior, RowStep(ms[k], u, v, axis).1)
    ensures PairEdges(ms[..k + 1], u, v, axis).0 == RowStep(ms[k], u, v, axis).0
    ensures now == AddEdges(g0, PairEdges(ms[..k + 1], u, v, axis).1)
  {
    assert ms[..k + 1][..k] == ms[..k];
    AddEdgesUnion(g0, PairEdges(ms[..k], u, v, axis).1, RowStep(ms[k], u, v, axis).1);
  }

  /** Once a row raises, the rest of the rows change nothing. */
  lemma {:induction false} PairEdgesSticks(ms: seq<Mover>, k: nat, u: string, v: string, axis: nat)
    requires k <= |ms| && PairEdges(ms[..k], u, v, axis).0.Some?
    ensures PairEdges(ms, u, v, axis) == PairEdges(ms[..k], u, v, axis)
    decreases |ms|
  {
    if k < |ms| {
      var init := ms[..|ms| - 1];
      assert init[..k] == ms[..k];
      PairEdgesSticks(init, k, u, v, axis);
    } else {
      assert ms[..k] == ms;
    }
  }

  /**
   * The row loop of one pair: every row in turn, stopping at the row that
   * raises.
   */
  method AddPairEdges(g: DiGraph, rows: seq<Row>, u: string, v: string, axis: nat) returns (err: Option<Error>)
    modifies g
    ensures err == PairEdges(Movers(rows), u, v, axis).0
    ensures g.Value() == AddEdges(old(g.Value()), PairEdges(Movers(rows), u, v, axis).1)
  {
    ghost var ms := Movers(rows);
    ghost var g0 := g.Value();
    AddEdgesUnion(g0, {}, {});
    for k := 0 to |rows|
      invariant PairEdges(ms[..k], u, v, axis).0 == None
      invariant g.Value() == AddEdges(g0, PairEdges(ms[..k], u, v, axis).1)
    {
      ghost var prior := g.Value();
      err := AddMoverEdges(g, rows, k, u, v, axis);
      PairEdgesStep(g0, ms, k, u, v, axis, prior, g.Value());
      if err.Some? {
        PairEdgesSticks(ms, k + 1, u, v, axis);
        return;
      }
    }
    assert ms[..|rows|] == ms;
    err := None;
  }

  // ---------------------------------------------------------------------
  // The two loops over the section pairs
  // ---------------------------------------------------------------------

  /** One more section of `vs`. */
  lemma AcrossStep(g: Graph, job: Job, u: string, vs: seq<string>, b: nat, st: Status)
    requires b < |vs| && st.Running?
    ensures Across(g, job, u, vs[b..], st) ==
      var (next, h) := Visit(g, job, u, vs[b], st);
      if !next.Running? then (next, h) else Across(h, job, u, vs[b + 1..], next)
  {
    assert vs[b..][0] == vs[b] && vs[b..][1..] == vs[b + 1..];
  }

  /** One more section of `us`. */
  lemma ShiftedStep(g: Graph, job: Job, us: seq<string>, vs: seq<string>, a: nat, st: Status)
    requires a < |us| && st.Running?
    ensures Shifted(g, job, us[a..], vs, st) ==
      var (next, h) := Across(g, job, us[a], vs, st);
      if !next.Running? then (next, h) else Shifted(h, job, us[a + 1..], vs, next)
  {
    assert us[a..][0] == us[a] && us[a..][1..] == us[a + 1..];
  }

  /**
   * `shift_path(G, df, sc_students, sections_u, sections_v, tutorial)`:
   * for every pair of sections, add the pair's edges to `G`, return early if
   * the source or the sink is still missing, and otherwise rank the simple
   * source-to-sink paths. `G` keeps every edge added, across pairs and
   * after the call.
   */
  method ShiftPath(g: DiGraph, rows: seq<Row>, sc: set<string>, sectionsU: seq<string>, sectionsV: seq<string>,
                   tutorial: bool, search: Graph -> seq<Path>) returns (status: Status)
    modifies g
    ensures (status, g.Value()) == ShiftOutcome(old(g.Value()), rows, sc, sectionsU, sectionsV, tutorial, search)
  {
    ghost var job := Job(Movers(rows), sc, AxisOf(tutorial), search);
    status := Running([], false);
    for a := 0 to |sectionsU|
      invariant status.Running?
      invariant Shifted(g.Value(), job, sectionsU[a..], sectionsV, status)
             == ShiftOutcome(old(g.Value()), rows, sc, sectionsU, sectionsV, tutorial, search)
    {
      var u := sectionsU[a];
      ghost var gu, su := g.Value(), status;
      ShiftedStep(gu, job, sectionsU, sectionsV, a, su);
      for b := 0 to |sectionsV|
        invariant status.Running?
        invariant Across(g.Value(), job, u, sectionsV[b..], status) == Across(gu, job, u, sectionsV, su)
      {
        var v := sectionsV[b];
        var axis := if tutorial then 1 else 0;
        AcrossStep(g.Value(), job, u, sectionsV, b, status);
        var err := AddPairEdges(g, rows, u, v, axis);
        if err.Some? {
          status := Failed(err.value);
          return;
        }
        var hasSource := g.HasNode(Source);
        var hasSink := g.HasNode(Sink);
        if !hasSource || !hasSink {
          status := Stopped(status.rankings, u, v);
          return;
        }
        var paths := search(g.Value());
        status := Running(status.rankings + [Rank(u, v, paths, sc)], status.foundSome || paths != []);
      }
      assert sectionsV[|sectionsV|..] == [];
    }
    assert sectionsU[|sectionsU|..] == [];
  }

  // ---------------------------------------------------------------------
  // What the row loop raises and adds
  // ---------------------------------------------------------------------

  /** Row `k` is the first whose desired sections fail, with error `e`. */
  predicate FailsFirstAt(ms: seq<Mover>, k: nat, e: Error) {
    k < |ms| && ms[k].desired == Err(e) && forall j :: 0 <= j < k ==> ms[j].desired.Ok?
  }

  /** `FirstFailure` names the first failing row, and is `None` exactly when no row fails. */
  lemma {:induction false} FirstFailureFacts(ms: seq<Mover>)
    ensures FirstFailure(ms).None? <==> forall k :: 0 <= k < |ms| ==> ms[k].desired.Ok?
    ensures FirstFailure(ms).Some? ==> exists k: nat :: FailsFirstAt(ms, k, FirstFailure(ms).value)
  {
    if ms != [] {
      var init := ms[..|ms| - 1];
      FirstFailureFacts(init);
      if FirstFailure(init).Some? {
        var k: nat :| FailsFirstAt(init, k, FirstFailure(init).value);
        assert FailsFirstAt(ms, k, FirstFailure(ms).value);
        assert !ms[k].desired.Ok?;
      } else if ms[|ms| - 1].desired.Err? {
        assert FailsFirstAt(ms, |ms| - 1, FirstFailure(ms).value);
      } else {
        assert forall k :: 0 <= k < |ms| - 1 ==> ms[k] == init[k];
      }
    }
  }

  /** The row loop raises the first failing row's error, whatever the pair of sections. */
  lemma {:induction false} PairEdgesError(ms: seq<Mover>, u: string, v: string, axis: nat)
    ensures PairEdges(ms, u, v, axis).0 == FirstFailure(ms)
  {
    if ms != [] {
      PairEdgesError(ms[..|ms| - 1], u, v, axis);
    }
  }

  /** How many rows the row loop runs: up to and including the first that raises. */
  function Processed(ms: seq<Mover>): (n: nat)
    ensures n <= |ms|
  {
    if ms == [] then 0
    else if FirstFailure(ms[..|ms| - 1]).Some? then Processed(ms[..|ms| - 1])
    else |ms|
  }

  /** The edge `e` is one that row `m` adds for the pair `(u, v)`. */
  predicate Adds(m: Mover, u: string, v: string, axis: nat, e: (Node, Node)) {
    || (e == (Source, At(m)) && m.current.Axis(axis) == u)
    || (m.desired.Ok? && e == (At(m), Sink) && Reaches(m.desired.value, axis, Target(m.preference, v)))
  }

  lemma RowStepAdds(m: Mover, u: string, v: string, axis: nat, e: (Node, Node))
    ensures e in RowStep(m, u, v, axis).1 <==> Adds(m, u, v, axis, e)
  {
  }

  /**
   * The edges of the row loop are exactly the source and sink edges of the
   * rows it runs: a source edge to every student sitting in `u` on the axis,
   * a sink edge from every student with a desired pair that reaches `v`.
   */
  lemma {:induction false} PairEdgesMember(ms: seq<Mover>, u: string, v: string, axis: nat, e: (Node, Node))
    ensures e in PairEdges(ms, u, v, axis).1 <==> exists k :: 0 <= k < Processed(ms) && Adds(ms[k], u, v, axis, e)
  {
    if ms != [] {
      var init := ms[..|ms| - 1];
      PairEdgesMember(init, u, v, axis, e);
      PairEdgesError(init, u, v, axis);
      assert forall k :: 0 <= k < |init| ==> ms[k] == init[k];
      if FirstFailure(init).None? {
        RowStepAdds(ms[|ms| - 1], u, v, axis, e);
        if e in PairEdges(ms, u, v, axis).1 && e !in PairEdges(init, u, v, axis).1 {
          assert Adds(ms[|ms| - 1], u, v, axis, e);
        }
      }
    }
  }

  /** Every edge `shift_path` adds runs from the source to a student or from a student to the sink. */
  predicate ShiftEdge(e: (Node, Node)) {
    (e.0 == Source && e.1.Student?) || (e.0.Student? && e.1 == Sink)
  }

  lemma PairEdgesShape(ms: seq<Mover>, u: string, v: string, axis: nat)
    ensures forall e :: e in PairEdges(ms, u, v, axis).1 ==> ShiftEdge(e)
  {
    forall e | e in PairEdges(ms, u, v, axis).1 ensures ShiftEdge(e) {
      PairEdgesMember(ms, u, v, axis, e);
    }
  }

  // ---------------------------------------------------------------------
  // What the whole call does
  // ---------------------------------------------------------------------

  /**
   * `h` is `g` with some source and sink edges added: nothing is removed,
   * and a valid graph stays valid.
   */
  ghost predicate Grows(g: Graph, h: Graph) {
    && g.nodes <= h.nodes && g.edges <= h.edges
    && (forall e :: e in h.edges && e !in g.edges ==> ShiftEdge(e))
    && (Valid(g) ==> Valid(h))
  }

  lemma AddEdgesGrows(g: Graph, added: set<(Node, Node)>)
    requires forall e :: e in added ==> ShiftEdge(e)
    ensures Grows(g, AddEdges(g, added))
  {
    var h := AddEdges(g, added);
    forall e | e in added ensures e.0 in h.nodes && e.1 in h.nodes {
      assert e.0 in Endpoints(added) && e.1 in Endpoints(added);
    }
  }

  /** A ranking is the stable descending sort of its paths, once by length and once by conflict count. */
  ghost predicate WellRanked(r: Ranking, sc: set<string>) {
    && multiset(r.byLength) == multiset(r.paths) && SortedDesc(r.byLength, Cycles.Length)
    && (forall k :: WithKey(r.byLength, Cycles.Length, k) == WithKey(r.paths, Cycles.Length, k))
    && multiset(r.byConflicts) == multiset(r.paths) && SortedDesc(r.byConflicts, ConflictKey(sc))
    && (forall k :: WithKey(r.byConflicts, ConflictKey(sc), k) == WithKey(r.paths, ConflictKey(sc), k))
  }

  lemma RankWell(u: string, v: string, paths: seq<Path>, sc: set<string>)
    ensures WellRanked(Rank(u, v, paths, sc), sc)
  {
    SortDescFacts(paths, Cycles.Length);
    SortDescFacts(paths, ConflictKey(sc));
    forall k ensures WithKey(SortDesc(paths, Cycles.Length), Cycles.Length, k) == WithKey(paths, Cycles.Length, k) {
      SortDescStable(paths, Cycles.Length, k);
    }
    forall k ensures WithKey(SortDesc(paths, ConflictKey(sc)), ConflictKey(sc), k) == WithKey(paths, ConflictKey(sc), k) {
      SortDescStable(paths, ConflictKey(sc), k);
    }
  }

  /** `nx.all_simple_paths(G, source, sink)` yields simple source-to-sink paths of `G`. */
  ghost predicate Oracle(search: Graph -> seq<Path>) {
    forall h: Graph, p: Path :: p in search(h) ==> IsSimplePath(h, p, Source, Sink)
  }

  /** Every ranking is well ranked and lists simple source-to-sink paths of `g`. */
  ghost predicate RankingsIn(rs: seq<Ranking>, g: Graph, sc: set<string>) {
    forall i :: 0 <= i < |rs| ==>
      WellRanked(rs[i], sc) && forall p :: p in rs[i].paths ==> IsSimplePath(g, p, Source, Sink)
  }

  /** What a status reports holds of the graph `g`; `found_some` says whether any pair had a path. */
  ghost predicate Honest(st: Status, g: Graph, sc: set<string>) {
    match st
    case Running(rs, found) => RankingsIn(rs, g, sc) && (found <==> exists i :: 0 <= i < |rs| && rs[i].paths != [])
    case Stopped(rs, _, _) => RankingsIn(rs, g, sc)
    case Failed(_) => true
  }

  lemma HonestGrows(st: Status, g: Graph, h: Graph, sc: set<string>)
    requires Honest(st, g, sc) && g.edges <= h.edges
    ensures Honest(st, h, sc)
  {
    if !st.Failed? {
      forall i, p | 0 <= i < |st.rankings| && p in st.rankings[i].paths
        ensures IsSimplePath(h, p, Source, Sink)
      {
        assert IsSimplePath(g, p, Source, Sink);
      }
    }
  }

  lemma GrowsTrans(f: Graph, g: Graph, h: Graph)
    requires Grows(f, g) && Grows(g, h)
    ensures Grows(f, h)
  {
  }

  /** The pairs of sections the rankings are for, in order. */
  function Visited(rs: seq<Ranking>): (r: seq<(string, string)>)
    ensures |r| == |rs|
  {
    if rs == [] then [] else Visited(rs[..|rs| - 1]) + [(rs[|rs| - 1].from, rs[|rs| - 1].to)]
  }

  /**
   * What a stretch of the loops that visits the section pairs `pairs` does,
   * from status `st` on graph `g` to status `next` on graph `h`: the graph
   * only grows, what is reported holds of the new graph, an error is the
   * first failing row's, an early return happens with the source or the
   * sink missing, and the rankings follow the pairs in order.
   */
  ghost predicate Reported(g: Graph, st: Status, h: Graph, next: Status, job: Job, pairs: seq<(string, string)>)
    requires st.Running?
  {
    && Grows(g, h) && Honest(next, h, job.sc)
    && (next.Failed? ==> Some(next.error) == FirstFailure(job.movers))
    && (next.Stopped? ==> (Source !in h.nodes || Sink !in h.nodes)
                          && Visited(next.rankings) + [(next.from, next.to)] <= Visited(st.rankings) + pairs)
    && (next.Running? ==> Visited(next.rankings) == Visited(st.rankings) + pairs)
  }

  /** Visiting no pair changes nothing. */
  lemma ReportedNothing(g: Graph, st: Status, job: Job)
    requires st.Running? && Honest(st, g, job.sc)
    ensures Reported(g, st, g, st, job, [])
  {
    assert Visited(st.rankings) + [] == Visited(st.rankings);
  }

  /** Two stretches, the first ending still running, make one. */
  lemma ReportedThen(g: Graph, st: Status, h: Graph, next: Status, f: Graph, last: Status, job: Job,
                     first: seq<(string, string)>, rest: seq<(string, string)>)
    requires st.Running? && next.Running?
    requires Reported(g, st, h, next, job, first) && Reported(h, next, f, last, job, rest)
    ensures Reported(g, st, f, last, job, first + rest)
  {
    GrowsTrans(g, h, f);
    assert Visited(st.rankings) + first + rest == Visited(st.rankings) + (first + rest);
  }

  /** A stretch that ends the call covers any longer list of pairs. */
  lemma ReportedStop(g: Graph, st: Status, h: Graph, next: Status, job: Job,
                     first: seq<(string, string)>, rest: seq<(string, string)>)
    requires st.Running? && !next.Running?
    requires Reported(g, st, h, next, job, first)
    ensures Reported(g, st, h, next, job, first + rest)
  {
    assert Visited(st.rankings) + first + rest == Visited(st.rankings) + (first + rest);
  }

  /** One pair of sections. */
  lemma VisitFacts(g: Graph, job: Job, u: string, v: string, st: Status)
    requires st.Running? && Oracle(job.search) && Honest(st, g, job.sc)
    ensures Reported(g, st, Visit(g, job, u, v, st).1, Visit(g, job, u, v, st).0, job, [(u, v)])
  {
    var (err, added) := PairEdges(job.movers, u, v, job.axis);
    var h := AddEdges(g, added);
    PairEdgesError(job.movers, u, v, job.axis);
    PairEdgesShape(job.movers, u, v, job.axis);
    AddEdgesGrows(g, added);
    HonestGrows(st, g, h, job.sc);
    if err.None? && Source in h.nodes && Sink in h.nodes {
      var paths := job.search(h);
      RankWell(u, v, paths, job.sc);
      RankedAppend(st.rankings, st.foundSome, Rank(u, v, paths, job.sc), h, job.sc);
    }
  }

  /** One more ranking, of simple paths of the graph, keeps the rankings honest. */
  lemma RankedAppend(rs: seq<Ranking>, found: bool, r: Ranking, h: Graph, sc: set<string>)
    requires Honest(Running(rs, found), h, sc) && WellRanked(r, sc)
    requires forall p :: p in r.paths ==> IsSimplePath(h, p, Source, Sink)
    ensures Honest(Running(rs + [r], found || r.paths != []), h, sc)
    ensures Visited(rs + [r]) == Visited(rs) + [(r.from, r.to)]
  {
    var all := rs + [r];
    assert all[..|all| - 1] == rs;
    assert forall i :: 0 <= i < |rs| ==> all[i] == rs[i];
    assert all[|rs|] == r;
  }

  /** The inner loop over `sections_v`. */
  lemma {:induction false} AcrossFacts(g: Graph, job: Job, u: string, vs: seq<string>, st: Status)
    requires st.Running? && Oracle(job.search) && Honest(st, g, job.sc)
    ensures Reported(g, st, Across(g, job, u, vs, st).1, Across(g, job, u, vs, st).0, job, Pairs(u, vs))
    decreases |vs|
  {
    if vs == [] {
      ReportedNothing(g, st, job);
    } else {
      var (next, h) := Visit(g, job, u, vs[0], st);
      VisitFacts(g, job, u, vs[0], st);
      assert Pairs(u, vs) == [(u, vs[0])] + Pairs(u, vs[1..]);
      if next.Running? {
        AcrossFacts(h, job, u, vs[1..], next);
        var (last, f) := Across(h, job, u, vs[1..], next);
        ReportedThen(g, st, h, next, f, last, job, [(u, vs[0])], Pairs(u, vs[1..]));
      } else {
        ReportedStop(g, st, h, next, job, [(u, vs[0])], Pairs(u, vs[1..]));
      }
    }
  }

  /** The outer loop over `sections_u`. */
  lemma {:induction false} ShiftedFacts(g: Graph, job: Job, us: seq<string>, vs: seq<string>, st: Status)
    requires st.Running? && Oracle(job.search) && Honest(st, g, job.sc)
    ensures Reported(g, st, Shifted(g, job, us, vs, st).1, Shifted(g, job, us, vs, st).0, job, Product(us, vs))
    decreases |us|
  {
    if us == [] {
      ReportedNothing(g, st, job);
    } else {
      var (next, h) := Across(g, job, us[0], vs, st);
      AcrossFacts(g, job, us[0], vs, st);
      assert Product(us, vs) == Pairs(us[0], vs) + Product(us[1..], vs);
      if next.Running? {
        ShiftedFacts(h, job, us[1..], vs, next);
        var (last, f) := Shifted(h, job, us[1..], vs, next);
        ReportedThen(g, st, h, next, f, last, job, Pairs(us[0], vs), Product(us[1..], vs));
      } else {
        ReportedStop(g, st, h, next, job, Pairs(us[0], vs), Product(us[1..], vs));
      }
    }
  }

  /**
   * What `shift_path` promises, given that `nx.all_simple_paths` yields
   * simple paths: the caller's graph only gains source and sink edges; every
   * ranking printed is the stable descending sort of simple source-to-sink
   * paths of the final graph, by length and by schedule-conflict count; the
   * pairs come in `sections_u`-major order; the call returns early only with
   * the source or the sink missing, raises only the first failing row's
   * error, and otherwise visits every pair, with `found_some` true exactly
   * when some pair had a path.
   */
  lemma ShiftPathFacts(g: Graph, rows: seq<Row>, sc: set<string>, us: seq<string>, vs: seq<string>,
                       tutorial: bool, search: Graph -> seq<Path>)
    requires Oracle(search)
    ensures var (st, h) := ShiftOutcome(g, rows, sc, us, vs, tutorial, search);
      && Grows(g, h) && Honest(st, h, sc)
      && (st.Failed? ==> Some(st.error) == FirstFailure(Movers(rows)))
      && (st.Stopped? ==> (Source !in h.nodes || Sink !in h.nodes)
                          && Visited(st.rankings) + [(st.from, st.to)] <= Product(us, vs))
      && (st.Running? ==> Visited(st.rankings) == Product(us, vs))
  {
    var job := Job(Movers(rows), sc, AxisOf(tutorial), search);
    ShiftedFacts(g, job, us, vs, Running([], false));
    assert Visited([]) == [];
  }

  /** A row that `generate_desired_sections` rejects makes the first pair, and so the call, raise. */
  lemma ShiftRaises(g: Graph, rows: seq<Row>, sc: set<string>, us: seq<string>, vs: seq<string>,
                    tutorial: bool, search: Graph -> seq<Path>)
    requires FirstFailure(Movers(rows)).Some? && us != [] && vs != []
    ensures ShiftOutcome(g, rows, sc, us, vs, tutorial, search).0 == Failed(FirstFailure(Movers(rows)).value)
  {
    PairEdgesError(Movers(rows), us[0], vs[0], AxisOf(tutorial));
  }

  /**
   * `shift_path` builds its nodes from the name and sections as they stand,
   * while `df_to_graph` strips them: the two agree on a row's node exactly
   * when those three cells need no stripping.
   */
  lemma UnstrippedNode(row: Row)
    ensures At(MoverOf(row)) == PreferenceGraph.NodeOf(PreferenceGraph.AppealOf(row))
        <==> row.name == Strip(row.name) && row.currentRec == Strip(row.currentRec) && row.currentTut == Strip(row.currentTut)
  {
  }
}
