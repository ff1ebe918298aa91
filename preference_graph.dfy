/**
 * `df_to_graph` (cycle.py): the preference graph. A node is a student at
 * their current (stripped) section pair; an edge u -> v says that u would
 * take v's section pair.
 */
module PreferenceGraph {
  import opened Wrappers
  import opened Text
  import opened Sections
  import opened Graphs

  /**
   * What the second loop of `df_to_graph` reads from a row: the stripped
   * name and current pair, whether the stripped reason is a team
   * preference, and what `generate_desired_sections` returns or raises.
   */
  datatype Appeal = Appeal(name: string, current: SectionPair, preference: bool, desired: Result<seq<SectionPair>, Error>)

  /** The stripped current pair, the key a row is filed under. */
  function Current(row: Row): SectionPair {
    SectionPair(Strip(row.currentRec), Strip(row.currentTut))
  }

  function AppealOf(row: Row): Appeal {
    Appeal(Strip(row.name), Current(row), IsPreference(row), DesiredSections(row))
  }

  /** The appeals of the rows, in row order. */
  function Appeals(rows: seq<Row>): (r: seq<Appeal>)
    ensures |r| == |rows|
  {
    if rows == [] then [] else Appeals(rows[..|rows| - 1]) + [AppealOf(rows[|rows| - 1])]
  }

  /** The appeal at index `k` is the appeal of row `k`. */
  lemma {:induction false} AppealsIndex(rows: seq<Row>, k: nat)
    requires k < |rows|
    ensures Appeals(rows)[k] == AppealOf(rows[k])
  {
    if k < |rows| - 1 {
      AppealsIndex(rows[..|rows| - 1], k);
    }
  }

  /** An appeal's node: `(student, current_section)`. */
  function NodeOf(a: Appeal): Node {
    Student(a.name, a.current)
  }

  /** `tuple(s.split(" with ")[0] for s in ds)`: the times of a section pair. */
  function Times(sec: SectionPair): SectionPair {
    SectionPair(TimeOf(sec.rec), TimeOf(sec.tut))
  }

  /**
   * Whether a desired list asks for a section pair: the exact pair for a
   * team preference, its times for a schedule conflict.
   */
  predicate Matches(preference: bool, desired: seq<SectionPair>, sec: SectionPair) {
    if preference then sec in desired else Times(sec) in desired
  }

  /** The desired list of an appeal that did not raise (empty otherwise). */
  function DesiredOf(a: Appeal): seq<SectionPair> {
    if a.desired.Ok? then a.desired.value else []
  }

  /** Appeal `a` would take section pair `sec`. */
  predicate Wants(a: Appeal, sec: SectionPair) {
    a.desired.Ok? && Matches(a.preference, a.desired.value, sec)
  }

  /** The error of the first appeal whose desired sections raised. */
  function FirstError(appeals: seq<Appeal>): Option<Error> {
    if appeals == [] then None
    else match FirstError(appeals[..|appeals| - 1])
      case Some(e) => Some(e)
      case None =>
        var last := appeals[|appeals| - 1].desired;
        if last.Err? then Some(last.error) else None
  }

  /**
   * `section_to_students`: for every current pair, the names of the appeals
   * filed under it, in row order (`setdefault(...).append`).
   */
  function Roster(appeals: seq<Appeal>): map<SectionPair, seq<string>> {
    if appeals == [] then map[]
    else
      var before := Roster(appeals[..|appeals| - 1]);
      var a := appeals[|appeals| - 1];
      var names := if a.current in before then before[a.current] else [];
      before[a.current := names + [a.name]]
  }

  /** The edges from `src` to every student filed under `sec`. */
  function Fan(src: Node, sec: SectionPair, names: seq<string>): set<(Node, Node)> {
    set n | n in names :: (src, Student(n, sec))
  }

  /** The edges from `src` to every student filed under a pair the desired list asks for. */
  function RowEdges(src: Node, roster: map<SectionPair, seq<string>>, preference: bool, desired: seq<SectionPair>): set<(Node, Node)> {
    set sec, n | sec in roster && n in roster[sec] && Matches(preference, desired, sec) :: (src, Student(n, sec))
  }

  /** The edges the second loop of `df_to_graph` adds for `appeals`, against a fixed roster. */
  function LoopEdges(appeals: seq<Appeal>, roster: map<SectionPair, seq<string>>): set<(Node, Node)> {
    if appeals == [] then {}
    else
      var a := appeals[|appeals| - 1];
      LoopEdges(appeals[..|appeals| - 1], roster) + RowEdges(NodeOf(a), roster, a.preference, DesiredOf(a))
  }

  /**
   * What `df_to_graph(rows)` returns or raises: the first failing row's
   * error, or the graph of all loop edges, whose nodes are their endpoints.
   */
  function GraphOf(rows: seq<Row>): Result<Graph, Error> {
    Build(Appeals(rows))
  }

  function Build(appeals: seq<Appeal>): Result<Graph, Error> {
    match FirstError(appeals)
    case Some(e) => Err(e)
    case None =>
      var edges := LoopEdges(appeals, Roster(appeals));
      Ok(Graph(Endpoints(edges), edges))
  }

  /** One more name of the fan, on the graph as it stands before and after its edge. */
  lemma FanGrow(g0: Graph, src: Node, sec: SectionPair, names: seq<string>, t: nat, prior: Graph, now: Graph)
    requires t < |names|
    requires prior == AddEdges(g0, Fan(src, sec, names[..t]))
    requires now == WithEdge(prior, src, Student(names[t], sec))
    ensures now == AddEdges(g0, Fan(src, sec, names[..t + 1]))
  {
    assert names[..t + 1] == names[..t] + [names[t]];
    assert Fan(src, sec, names[..t + 1]) == Fan(src, sec, names[..t]) + {(src, Student(names[t], sec))};
    AddEdgesOne(prior, src, Student(names[t], sec));
    AddEdgesUnion(g0, Fan(src, sec, names[..t]), {(src, Student(names[t], sec))});
  }

  /** Team preference: the next desired pair adds the students filed under it, if any. */
  lemma PreferenceStep(g0: Graph, src: Node, roster: map<SectionPair, seq<string>>, desired: seq<SectionPair>, d: nat,
                       prior: Graph, now: Graph)
    requires d < |desired|
    requires prior == AddEdges(g0, RowEdges(src, roster, true, desired[..d]))
    requires now == if desired[d] in roster then AddEdges(prior, Fan(src, desired[d], roster[desired[d]])) else prior
    ensures now == AddEdges(g0, RowEdges(src, roster, true, desired[..d + 1]))
  {
    assert desired[..d + 1] == desired[..d] + [desired[d]];
    var added := if desired[d] in roster then Fan(src, desired[d], roster[desired[d]]) else {};
    assert RowEdges(src, roster, true, desired[..d + 1]) == RowEdges(src, roster, true, desired[..d]) + added;
    AddNothing(prior);
    AddEdgesUnion(g0, RowEdges(src, roster, true, desired[..d]), added);
  }

  /** The students filed under the pairs of `done` whose times are `time`. */
  function TimeEdges(src: Node, roster: map<SectionPair, seq<string>>, time: SectionPair, done: set<SectionPair>): set<(Node, Node)> {
    set sec, n | sec in done && sec in roster && n in roster[sec] && Times(sec) == time :: (src, Student(n, sec))
  }

  lemma TimeStep(src: Node, roster: map<SectionPair, seq<string>>, time: SectionPair, done: set<SectionPair>, key: SectionPair)
    requires key in roster
    ensures TimeEdges(src, roster, time, done + {key})
         == TimeEdges(src, roster, time, done)
          + (if Times(key) == time then Fan(src, key, roster[key]) else {})
  {
  }

  /** One more key of the roster, on the graph as it stands before and after its students. */
  lemma TimeGrow(g0: Graph, src: Node, roster: map<SectionPair, seq<string>>, time: SectionPair,
                 keys: set<SectionPair>, key: SectionPair, prior: Graph, now: Graph)
    requires key in keys && keys <= roster.Keys
    requires prior == AddEdges(g0, TimeEdges(src, roster, time, roster.Keys - keys))
    requires now == if Times(key) == time then AddEdges(prior, Fan(src, key, roster[key])) else prior
    ensures now == AddEdges(g0, TimeEdges(src, roster, time, roster.Keys - (keys - {key})))
  {
    assert roster.Keys - (keys - {key}) == (roster.Keys - keys) + {key};
    TimeStep(src, roster, time, roster.Keys - keys, key);
    var added := if Times(key) == time then Fan(src, key, roster[key]) else {};
    AddNothing(prior);
    AddEdgesUnion(g0, TimeEdges(src, roster, time, roster.Keys - keys), added);
  }

  /** Schedule conflict: the next desired time pair adds the students of every pair with those times. */
  lemma ConflictStep(g0: Graph, src: Node, roster: map<SectionPair, seq<string>>, desired: seq<SectionPair>, d: nat,
                     prior: Graph, now: Graph)
    requires d < |desired|
    requires prior == AddEdges(g0, RowEdges(src, roster, false, desired[..d]))
    requires now == AddEdges(prior, TimeEdges(src, roster, desired[d], roster.Keys))
    ensures now == AddEdges(g0, RowEdges(src, roster, false, desired[..d + 1]))
  {
    assert desired[..d + 1] == desired[..d] + [desired[d]];
    assert RowEdges(src, roster, false, desired[..d + 1])
        == RowEdges(src, roster, false, desired[..d]) + TimeEdges(src, roster, desired[d], roster.Keys);
    AddEdgesUnion(g0, RowEdges(src, roster, false, desired[..d]), TimeEdges(src, roster, desired[d], roster.Keys));
  }

  /** After an error-free prefix, a failing row decides the error of the whole input. */
  lemma {:induction false} FirstErrorAt(appeals: seq<Appeal>, k: nat)
    requires k < |appeals| && FirstError(appeals[..k]) == None && appeals[k].desired.Err?
    ensures FirstError(appeals) == Some(appeals[k].desired.error)
  {
    if k < |appeals| - 1 {
      var init := appeals[..|appeals| - 1];
      assert init[..k] == appeals[..k];
      assert init[k] == appeals[k];
      FirstErrorAt(init, k);
    } else {
      assert appeals[..|appeals| - 1] == appeals[..k];
    }
  }

  /**
   * The first loop of `df_to_graph`: file every row's stripped name under
   * its stripped current pair.
   */
  method BuildRoster(rows: seq<Row>) returns (roster: map<SectionPair, seq<string>>)
    ensures roster == Roster(Appeals(rows))
  {
    roster := map[];
    for k := 0 to |rows|
      invariant roster == Roster(Appeals(rows)[..k])
    {
      var row := rows[k];
      var student := Strip(row.name);
      var key := SectionPair(Strip(row.currentRec), Strip(row.currentTut));
      var names := if key in roster then roster[key] else [];
      RosterStep(rows, k);
      roster := roster[key := names + [student]];
    }
    assert Appeals(rows)[..|rows|] == Appeals(rows);
  }

  /** Filing one more row appends its stripped name under its stripped current pair. */
  lemma RosterStep(rows: seq<Row>, k: nat)
    requires k < |rows|
    ensures var before := Roster(Appeals(rows)[..k]);
      var key := Current(rows[k]);
      Roster(Appeals(rows)[..k + 1])
        == before[key := (if key in before then before[key] else []) + [Strip(rows[k].name)]]
  {
    var appeals := Appeals(rows);
    RosterSnoc(appeals, k);
    AppealsIndex(rows, k);
  }

  /** Filing appeal `k` after the ones before it. */
  lemma RosterSnoc(appeals: seq<Appeal>, k: nat)
    requires k < |appeals|
    ensures var before := Roster(appeals[..k]);
      var key := appeals[k].current;
      Roster(appeals[..k + 1])
        == before[key := (if key in before then before[key] else []) + [appeals[k].name]]
  {
    assert appeals[..k + 1][..k] == appeals[..k];
  }

  /** The students filed under `key`, each joined from `src`. */
  method AddFan(g: DiGraph, src: Node, key: SectionPair, names: seq<string>)
    modifies g
    ensures g.Value() == AddEdges(old(g.Value()), Fan(src, key, names))
  {
    AddNothing(g.Value());
    for t := 0 to |names|
      invariant g.Value() == AddEdges(old(g.Value()), Fan(src, key, names[..t]))
    {
      ghost var prior := g.Value();
      g.AddEdge(src, Student(names[t], key));
      FanGrow(old(g.Value()), src, key, names, t, prior, g.Value());
    }
    assert names[..|names|] == names;
  }

  /** Team preference: join `src` to everyone filed under a desired pair. */
  method AddPreferenceEdges(g: DiGraph, src: Node, roster: map<SectionPair, seq<string>>, desired: seq<SectionPair>)
    modifies g
    ensures g.Value() == AddEdges(old(g.Value()), RowEdges(src, roster, true, desired))
  {
    AddNothing(g.Value());
    for d := 0 to |desired|
      invariant g.Value() == AddEdges(old(g.Value()), RowEdges(src, roster, true, desired[..d]))
    {
      ghost var prior := g.Value();
      if desired[d] in roster {
        AddFan(g, src, desired[d], roster[desired[d]]);
      }
      PreferenceStep(old(g.Value()), src, roster, desired, d, prior, g.Value());
    }
    assert desired[..|desired|] == desired;
  }

  /** Schedule conflict, one desired time pair: join `src` to everyone filed under a pair with those times. */
  method AddTimeEdges(g: DiGraph, src: Node, roster: map<SectionPair, seq<string>>, time: SectionPair)
    modifies g
    ensures g.Value() == AddEdges(old(g.Value()), TimeEdges(src, roster, time, roster.Keys))
  {
    var keys := roster.Keys;
    AddNothing(g.Value());
    assert roster.Keys - keys == {};
    while keys != {}
      invariant keys <= roster.Keys
      invariant g.Value() == AddEdges(old(g.Value()), TimeEdges(src, roster, time, roster.Keys - keys))
      decreases keys
    {
      var key :| key in keys;
      ghost var prior := g.Value();
      if Times(key) == time {
        AddFan(g, src, key, roster[key]);
      }
      TimeGrow(old(g.Value()), src, roster, time, keys, key, prior, g.Value());
      keys := keys - {key};
    }
    assert roster.Keys - keys == roster.Keys;
  }

  /** Schedule conflict: every desired time pair in turn. */
  method AddConflictEdges(g: DiGraph, src: Node, roster: map<SectionPair, seq<string>>, desired: seq<SectionPair>)
    modifies g
    ensures g.Value() == AddEdges(old(g.Value()), RowEdges(src, roster, false, desired))
  {
    AddNothing(g.Value());
    for d := 0 to |desired|
      invariant g.Value() == AddEdges(old(g.Value()), RowEdges(src, roster, false, desired[..d]))
    {
      ghost var prior := g.Value();
      AddTimeEdges(g, src, roster, desired[d]);
      ConflictStep(old(g.Value()), src, roster, desired, d, prior, g.Value());
    }
    assert desired[..|desired|] == desired;
  }

  /** One more error-free appeal extends the loop edges by that appeal's edges. */
  lemma LoopStep(appeals: seq<Appeal>, k: nat, roster: map<SectionPair, seq<string>>, prior: Graph, now: Graph)
    requires k < |appeals| && FirstError(appeals[..k]) == None && appeals[k].desired.Ok?
    requires prior == AddEdges(Empty, LoopEdges(appeals[..k], roster))
    requires now == AddEdges(prior, RowEdges(NodeOf(appeals[k]), roster, appeals[k].preference, appeals[k].desired.value))
    ensures FirstError(appeals[..k + 1]) == None
    ensures now == AddEdges(Empty, LoopEdges(appeals[..k + 1], roster))
  {
    var a := appeals[k];
    assert appeals[..k + 1][..k] == appeals[..k];
    assert LoopEdges(appeals[..k + 1], roster)
        == LoopEdges(appeals[..k], roster) + RowEdges(NodeOf(a), roster, a.preference, a.desired.value);
    AddEdgesUnion(Empty, LoopEdges(appeals[..k], roster), RowEdges(NodeOf(a), roster, a.preference, a.desired.value));
  }

  /**
   * One row of the second loop of `df_to_graph`: raise on an unknown reason
   * or when `generate_desired_sections` raises, otherwise join the row's
   * student to every student filed under a pair the row asks for.
   */
  method AddRow(g: DiGraph, roster: map<SectionPair, seq<string>>, rows: seq<Row>, k: nat) returns (err: Option<Error>)
    requires k < |rows|
    modifies g
    ensures var a := Appeals(rows)[k];
      a.desired.Err? ==> err == Some(a.desired.error) && g.Value() == old(g.Value())
    ensures var a := Appeals(rows)[k];
      a.desired.Ok? ==>
        && err == None
        && g.Value() == AddEdges(old(g.Value()), RowEdges(NodeOf(a), roster, a.preference, a.desired.value))
  {
    AppealsIndex(rows, k);
    var row := rows[k];
    var student := Strip(row.name);
    var reason := Strip(row.reason);
    var current := SectionPair(Strip(row.currentRec), Strip(row.currentTut));
    var src := Student(student, current);
    if reason != TeamPreference && reason != ScheduleConflict {
      DesiredFails(row);
      return Some(UnknownReason);
    }
    var desired := GenerateDesiredSections(row);
    if desired.Err? {
      return Some(desired.error);
    }
    if reason == TeamPreference {
      AddPreferenceEdges(g, src, roster, desired.value);
    } else {
      AddConflictEdges(g, src, roster, desired.value);
    }
    err := None;
  }

  /**
   * `df_to_graph`: file the students by current pair, then for each row in
   * turn raise on a bad row or add an edge to every student filed under a
   * pair that the row asks for.
   */
  method DfToGraph(rows: seq<Row>) returns (r: Result<Graph, Error>)
    ensures r == GraphOf(rows)
  {
    ghost var appeals := Appeals(rows);
    var roster := BuildRoster(rows);
    var g := new DiGraph();
    AddNothing(Empty);
    for k := 0 to |rows|
      invariant FirstError(appeals[..k]) == None
      invariant g.Value() == AddEdges(Empty, LoopEdges(appeals[..k], roster))
    {
      ghost var prior := g.Value();
      var err := AddRow(g, roster, rows, k);
      if err.Some? {
        FirstErrorAt(appeals, k);
        return Err(err.value);
      }
      LoopStep(appeals, k, roster, prior, g.Value());
    }
    assert appeals[..|rows|] == appeals;
    BuildOk(appeals, roster, g.Value());
    return Ok(g.Value());
  }

  /** Without an error, the loop's graph is what `df_to_graph` returns. */
  lemma BuildOk(appeals: seq<Appeal>, roster: map<SectionPair, seq<string>>, g: Graph)
    requires FirstError(appeals) == None && roster == Roster(appeals)
    requires g == AddEdges(Empty, LoopEdges(appeals, roster))
    ensures Build(appeals) == Ok(g)
  {
    var edges := LoopEdges(appeals, roster);
    assert AddEdges(Empty, edges) == Graph(Endpoints(edges), edges);
  }

  /** The input raises exactly when some appeal's desired sections raised. */
  lemma {:induction false} FirstErrorNone(appeals: seq<Appeal>)
    ensures FirstError(appeals) == None <==> forall a :: a in appeals ==> a.desired.Ok?
  {
    if appeals != [] {
      var init := appeals[..|appeals| - 1];
      FirstErrorNone(init);
      assert appeals == init + [appeals[|appeals| - 1]];
    }
  }

  /** `section_to_students[sec]` lists the names of exactly the appeals whose current pair is `sec`. */
  lemma {:induction false} RosterMember(appeals: seq<Appeal>, sec: SectionPair, name: string)
    ensures (sec in Roster(appeals) && name in Roster(appeals)[sec])
        <==> exists t :: t in appeals && t.current == sec && t.name == name
  {
    if appeals != [] {
      var init := appeals[..|appeals| - 1];
      var last := appeals[|appeals| - 1];
      RosterMember(init, sec, name);
      assert appeals == init + [last];
      if exists t :: t in appeals && t.current == sec && t.name == name {
        var t :| t in appeals && t.current == sec && t.name == name;
        if t != last {
          assert t in init;
        }
      }
    }
  }

  /** The loop edges are the edges of the individual appeals. */
  lemma {:induction false} LoopEdgesMember(appeals: seq<Appeal>, roster: map<SectionPair, seq<string>>, e: (Node, Node))
    ensures e in LoopEdges(appeals, roster) <==>
      exists a :: a in appeals && e in RowEdges(NodeOf(a), roster, a.preference, DesiredOf(a))
  {
    if appeals != [] {
      var init := appeals[..|appeals| - 1];
      var last := appeals[|appeals| - 1];
      LoopEdgesMember(init, roster, e);
      assert appeals == init + [last];
      assert LoopEdges(appeals, roster) == LoopEdges(init, roster) + RowEdges(NodeOf(last), roster, last.preference, DesiredOf(last));
      if e in LoopEdges(init, roster) {
        var a :| a in init && e in RowEdges(NodeOf(a), roster, a.preference, DesiredOf(a));
        assert a in appeals;
      }
      if exists a :: a in appeals && e in RowEdges(NodeOf(a), roster, a.preference, DesiredOf(a)) {
        var a :| a in appeals && e in RowEdges(NodeOf(a), roster, a.preference, DesiredOf(a));
        if a != last {
          assert a in init;
        }
      }
    }
  }

  /**
   * Soundness and completeness of the edges: without an error, u -> v is an
   * edge exactly when u and v are the nodes of two appeals and the first
   * asks for the second's current pair (exactly for a team preference, by
   * times for a schedule conflict).
   */
  lemma BuildEdges(appeals: seq<Appeal>, e: (Node, Node))
    requires Build(appeals).Ok?
    ensures e in Build(appeals).value.edges <==>
      exists a, t :: a in appeals && t in appeals && Wants(a, t.current) && e == (NodeOf(a), NodeOf(t))
  {
    var roster := Roster(appeals);
    FirstErrorNone(appeals);
    LoopEdgesMember(appeals, roster, e);
    if e in Build(appeals).value.edges {
      var a :| a in appeals && e in RowEdges(NodeOf(a), roster, a.preference, DesiredOf(a));
      var sec, name :| sec in roster && name in roster[sec]
        && Matches(a.preference, DesiredOf(a), sec) && e == (NodeOf(a), Student(name, sec));
      RosterMember(appeals, sec, name);
      var t :| t in appeals && t.current == sec && t.name == name;
      assert Wants(a, t.current) && Student(name, sec) == NodeOf(t);
    }
    if exists a, t :: a in appeals && t in appeals && Wants(a, t.current) && e == (NodeOf(a), NodeOf(t)) {
      var a, t :| a in appeals && t in appeals && Wants(a, t.current) && e == (NodeOf(a), NodeOf(t));
      RosterMember(appeals, t.current, t.name);
      assert Matches(a.preference, DesiredOf(a), t.current);
      assert e in RowEdges(NodeOf(a), roster, a.preference, DesiredOf(a));
    }
  }

  /**
   * Nodes exist only through edges: a node is in the graph exactly when an
   * edge starts or ends at it, and every edge joins two nodes.
   */
  lemma GraphNodes(rows: seq<Row>, n: Node)
    requires GraphOf(rows).Ok?
    ensures Valid(GraphOf(rows).value)
    ensures n in GraphOf(rows).value.nodes <==>
      exists e :: e in GraphOf(rows).value.edges && (e.0 == n || e.1 == n)
  {
    var g := GraphOf(rows).value;
    if n in g.nodes {
      if n in (set e | e in g.edges :: e.0) {
        var e :| e in g.edges && e.0 == n;
      } else {
        var e :| e in g.edges && e.1 == n;
      }
    }
    if exists e :: e in g.edges && (e.0 == n || e.1 == n) {
      var e :| e in g.edges && (e.0 == n || e.1 == n);
      assert e.0 in (set e | e in g.edges :: e.0);
      assert e.1 in (set e | e in g.edges :: e.1);
    }
    forall e | e in g.edges ensures e.0 in g.nodes && e.1 in g.nodes {
      assert e.0 in (set e | e in g.edges :: e.0);
      assert e.1 in (set e | e in g.edges :: e.1);
    }
  }

  /** Any row whose desired sections raise (a reason of neither kind, say) makes `df_to_graph` raise. */
  lemma FailingRowRaises(rows: seq<Row>, k: nat)
    requires k < |rows| && DesiredSections(rows[k]).Err?
    ensures GraphOf(rows).Err?
  {
    var appeals := Appeals(rows);
    FirstErrorNone(appeals);
    AppealsIndex(rows, k);
    assert appeals[k] in appeals;
  }

  /** Without a failing row, `df_to_graph` returns a graph. */
  lemma NoFailingRow(rows: seq<Row>)
    requires forall k :: 0 <= k < |rows| ==> DesiredSections(rows[k]).Ok?
    ensures GraphOf(rows).Ok?
  {
    var appeals := Appeals(rows);
    FirstErrorNone(appeals);
    forall a | a in appeals ensures a.desired.Ok? {
      var k :| 0 <= k < |appeals| && appeals[k] == a;
      AppealsIndex(rows, k);
    }
  }

  /**
   * Self-loops: a team-preference appeal that lists its own current pair
   * gets an edge from its node to itself.
   */
  lemma SelfLoop(appeals: seq<Appeal>, a: Appeal)
    requires Build(appeals).Ok? && a in appeals && a.preference
    requires a.desired.Ok? && a.current in a.desired.value
    ensures (NodeOf(a), NodeOf(a)) in Build(appeals).value.edges
  {
    BuildEdges(appeals, (NodeOf(a), NodeOf(a)));
    assert Wants(a, a.current);
  }
}
