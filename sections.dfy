/**
 * Sections, appeal rows and the desired-target lists of
 * `generate_desired_sections` (cycle.py).
 *
 * A section is written "<time> with <instructor>", e.g.
 * "TR 1-2pm with Katrina LaCurts"; a student holds a (recitation, tutorial)
 * pair of them.
 */
module Sections {
  import opened Wrappers
  import opened Text

  /** The two accepted reasons for an appeal, compared after stripping. */
  const TeamPreference: string := "Team preference"
  const ScheduleConflict: string := "Schedule conflict"

  /** Separator between the entries of a multiple-choice answer. */
  const ListSep: string := ", "
  /** Separator between the time and the instructor of a section. */
  const With: string := " with "

  /**
   * Recitation instructors and the tutorial instructors they may be paired
   * with. The entry for Mark Day carries "Katie Bruner," with a trailing
   * comma, exactly as the table is written.
   */
  const ValidRecTutPairs: set<(string, string)> := {
    ("Hari Balakrishnan", "Liz Stevens"),
    ("Olivia Brode-Roger", "Rebecca Thorndike-Breeze"),
    ("Olivia Brode-Roger", "Rachel Molko"),
    ("Mark Day", "Katie Bruner,"),
    ("Mark Day", "Nicole Cunningham-Frisbey"),
    ("Katrina LaCurts", "Jessie Stickgold-Sarah"),
    ("Larry Rudolph", "Kate Parsons"),
    ("Larry Rudolph", "Kristen Starkowski"),
    ("Karen Sollins", "Michael Trice"),
    ("Lili Wilson", "Sarah Bates")
  }

  /** A (recitation, tutorial) pair: a student's place, or a place one asks for. */
  datatype SectionPair = SectionPair(rec: string, tut: string) {
    /** Python's `pair[i]`: the recitation for 0, the tutorial otherwise. */
    function Axis(i: nat): string {
      if i == 0 then rec else tut
    }
  }

  /**
   * One normalised appeal (a row of the data frame). The four desired- and
   * available-section cells are the text Python's `str()` gives for them,
   * so an empty answer there reads "nan"; the name and current-section
   * cells are taken to be present strings.
   */
  datatype Row = Row(
    name: string,          // "Name"
    reason: string,        // "Reason for Switching ..."
    currentRec: string,    // "Which recitation section are you currently in?"
    currentTut: string,    // "Which tutorial section are you currently in?"
    availableRec: string,  // "Times that you are available for recitation"
    availableTut: string,  // "Times that you are available for tutorial ..."
    desiredRec: string,    // "Which recitation sections would you like?"
    desiredTut: string     // "Which tutorial section would you like?"
  )

  /** The failures the engine raises, in Python's terms. */
  datatype Error =
    | UnknownReason      // a reason that is neither kind
    | MissingInstructor  // IndexError from `entry.split(" with ")[1]`
    | DivisionByZero     // ZeroDivisionError while computing a fix rate

  /** The time part of a section: what precedes the first " with ". */
  function TimeOf(section: string): string {
    Before(section, With)
  }

  /** `entry.split(" with ")[1]` exists. */
  predicate HasInstructor(entry: string) {
    Contains(entry, With)
  }

  /** `entry.split(" with ")[1].strip()`. */
  function Instructor(entry: string): (r: string)
    requires HasInstructor(entry)
    ensures Trimmed(r)
  {
    SplitSingle(entry, With);
    Strip(Split(entry, With)[1])
  }

  /** Team-preference filter: both entries name instructors that the table pairs. */
  predicate Compatible(rec: string, tut: string) {
    HasInstructor(rec) && HasInstructor(tut) && (Instructor(rec), Instructor(tut)) in ValidRecTutPairs
  }

  /** The pair a candidate becomes once both entries are stripped. */
  function StripPair(p: (string, string)): SectionPair {
    SectionPair(Strip(p.0), Strip(p.1))
  }

  /** Team-preference filter on a candidate pair. */
  predicate CompatiblePair(p: (string, string)) {
    Compatible(p.0, p.1)
  }

  /** Schedule-conflict filter: every candidate is kept. */
  predicate AnyPair(p: (string, string)) {
    true
  }

  /** An entry is usable as is: schedule-conflict answers are never split. */
  predicate AnyEntry(entry: string) {
    true
  }

  /** Which candidates a reason keeps. */
  function KeepRule(preference: bool): ((string, string)) -> bool {
    if preference then CompatiblePair else AnyPair
  }

  /** Which entries a reason can handle without raising. */
  function ParseRule(preference: bool): string -> bool {
    if preference then HasInstructor else AnyEntry
  }

  /** `x` paired with every element of `ys`, in order. */
  function Pairs<T>(x: T, ys: seq<T>): seq<(T, T)> {
    if ys == [] then [] else [(x, ys[0])] + Pairs(x, ys[1..])
  }

  /** The Cartesian product of two lists, first-list-major (the nested loops' order). */
  function Product<T>(xs: seq<T>, ys: seq<T>): seq<(T, T)> {
    if xs == [] then [] else Pairs(xs[0], ys) + Product(xs[1..], ys)
  }

  /** The images under `out` of the elements `keep` accepts, in their order. */
  function Select<T, U>(ps: seq<T>, keep: T -> bool, out: T -> U): seq<U> {
    if ps == [] then []
    else (if keep(ps[0]) then [out(ps[0])] else []) + Select(ps[1..], keep, out)
  }

  /**
   * The product visits a pair with an entry that `ok` rejects: both lists
   * are non-empty and one of them holds such an entry.
   */
  predicate Broken<T>(xs: seq<T>, ys: seq<T>, ok: T -> bool) {
    |xs| > 0 && |ys| > 0
    && ((exists i :: 0 <= i < |xs| && !ok(xs[i])) || (exists j :: 0 <= j < |ys| && !ok(ys[j])))
  }

  /** The two answer lists a row's reason selects: desired sections or available times. */
  function Wishes(row: Row): (w: (seq<string>, seq<string>))
    ensures |w.0| >= 1 && |w.1| >= 1
  {
    if Strip(row.reason) == TeamPreference
    then (Split(row.desiredRec, ListSep), Split(row.desiredTut, ListSep))
    else (Split(row.availableRec, ListSep), Split(row.availableTut, ListSep))
  }

  predicate KnownReason(row: Row) {
    Strip(row.reason) == TeamPreference || Strip(row.reason) == ScheduleConflict
  }

  predicate IsPreference(row: Row) {
    Strip(row.reason) == TeamPreference
  }

  /**
   * What `generate_desired_sections(row)` returns or raises: for a team
   * preference, the compatible pairs of desired sections (an entry without
   * " with " raises); for a schedule conflict, every pair of available times.
   */
  function DesiredSections(row: Row): Result<seq<SectionPair>, Error> {
    if !KnownReason(row) then Err(UnknownReason)
    else
      var (recs, tuts) := Wishes(row);
      var preference := IsPreference(row);
      if Broken(recs, tuts, ParseRule(preference)) then Err(MissingInstructor)
      else Ok(Select(Product(recs, tuts), KeepRule(preference), StripPair))
  }

  lemma {:induction false} PairsSnoc<T>(x: T, ys: seq<T>, k: nat)
    requires k < |ys|
    ensures Pairs(x, ys[..k + 1]) == Pairs(x, ys[..k]) + [(x, ys[k])]
  {
    if k == 0 {
      assert ys[..1] == [ys[0]];
      assert ys[..1][1..] == [];
    } else {
      PairsSnoc(x, ys[1..], k - 1);
      assert ys[1..][..k] == ys[..k + 1][1..];
      assert ys[1..][..k - 1] == ys[..k][1..];
    }
  }

  lemma {:induction false} SelectAppend<T, U>(ps: seq<T>, qs: seq<T>, keep: T -> bool, out: T -> U)
    ensures Select(ps + qs, keep, out) == Select(ps, keep, out) + Select(qs, keep, out)
  {
    if ps == [] {
      assert ps + qs == qs;
    } else {
      var h := if keep(ps[0]) then [out(ps[0])] else [];
      SelectAppend(ps[1..], qs, keep, out);
      assert (ps + qs)[0] == ps[0];
      assert (ps + qs)[1..] == ps[1..] + qs;
      assert Select(ps + qs, keep, out) == h + (Select(ps[1..], keep, out) + Select(qs, keep, out));
      assert Select(ps, keep, out) == h + Select(ps[1..], keep, out);
    }
  }

  lemma RowStep<T, U>(x: T, ys: seq<T>, k: nat, keep: ((T, T)) -> bool, out: ((T, T)) -> U)
    requires k < |ys|
    ensures Select(Pairs(x, ys[..k + 1]), keep, out)
         == Select(Pairs(x, ys[..k]), keep, out)
          + (if keep((x, ys[k])) then [out((x, ys[k]))] else [])
  {
    PairsSnoc(x, ys, k);
    SelectAppend(Pairs(x, ys[..k]), [(x, ys[k])], keep, out);
  }

  lemma ProductStep<T, U>(xs: seq<T>, ys: seq<T>, k: nat, keep: ((T, T)) -> bool, out: ((T, T)) -> U)
    requires k < |xs|
    ensures Select(Product(xs[..k + 1], ys), keep, out)
         == Select(Product(xs[..k], ys), keep, out) + Select(Pairs(xs[k], ys), keep, out)
  {
    assert xs[..k + 1] == xs[..k] + [xs[k]];
    ProductAppend(xs[..k], [xs[k]], ys);
    assert [xs[k]][1..] == [];
    assert Product([xs[k]], ys) == Pairs(xs[k], ys) + Product([], ys);
    assert Product([xs[k]], ys) == Pairs(xs[k], ys);
    SelectAppend(Product(xs[..k], ys), Pairs(xs[k], ys), keep, out);
  }

  lemma {:induction false} PairsIndex<T>(x: T, ys: seq<T>)
    ensures |Pairs(x, ys)| == |ys|
    ensures forall j :: 0 <= j < |ys| ==> Pairs(x, ys)[j] == (x, ys[j])
  {
    if ys != [] {
      PairsIndex(x, ys[1..]);
    }
  }

  /** The product has one pair for each element of each list. */
  lemma {:induction false} ProductLength<T>(xs: seq<T>, ys: seq<T>)
    ensures |Product(xs, ys)| == |xs| * |ys|
  {
    if xs != [] {
      ProductLength(xs[1..], ys);
      PairsIndex(xs[0], ys);
      assert |xs| * |ys| == |ys| + (|xs| - 1) * |ys|;
    }
  }

  lemma {:induction false} ProductAppend<T>(xs: seq<T>, zs: seq<T>, ys: seq<T>)
    ensures Product(xs + zs, ys) == Product(xs, ys) + Product(zs, ys)
  {
    if xs == [] {
      assert xs + zs == zs;
    } else {
      var p, a, b := Pairs(xs[0], ys), Product(xs[1..], ys), Product(zs, ys);
      calc {
        Product(xs + zs, ys);
        { assert (xs + zs)[0] == xs[0] && (xs + zs)[1..] == xs[1..] + zs; }
        p + Product(xs[1..] + zs, ys);
        { ProductAppend(xs[1..], zs, ys); }
        p + (a + b);
        (p + a) + b;
      }
    }
  }

  /**
   * Recitation-major order: the pairs of `xs[k]` form one block, after the
   * blocks of the entries before it and before those of the entries after it.
   */
  lemma ProductBlock<T>(xs: seq<T>, ys: seq<T>, k: nat)
    requires k < |xs|
    ensures Product(xs, ys) == Product(xs[..k], ys) + Pairs(xs[k], ys) + Product(xs[k + 1..], ys)
  {
    assert xs == xs[..k] + ([xs[k]] + xs[k + 1..]);
    ProductAppend(xs[..k], [xs[k]] + xs[k + 1..], ys);
    ProductAppend([xs[k]], xs[k + 1..], ys);
    assert [xs[k]][1..] == [];
    assert Product([xs[k]], ys) == Pairs(xs[k], ys) + Product([], ys);
  }

  /** With a filter that keeps everything, selection is a plain map. */
  lemma {:induction false} SelectEvery<T, U>(ps: seq<T>, keep: T -> bool, out: T -> U)
    requires forall k :: 0 <= k < |ps| ==> keep(ps[k])
    ensures |Select(ps, keep, out)| == |ps|
    ensures forall k :: 0 <= k < |ps| ==> Select(ps, keep, out)[k] == out(ps[k])
  {
    if ps != [] {
      SelectEvery(ps[1..], keep, out);
    }
  }

  /** Selection keeps exactly the images of the accepted elements. */
  lemma {:induction false} SelectMember<T, U>(ps: seq<T>, keep: T -> bool, out: T -> U, u: U)
    ensures u in Select(ps, keep, out) <==> exists k :: 0 <= k < |ps| && keep(ps[k]) && out(ps[k]) == u
  {
    if ps != [] {
      SelectMember(ps[1..], keep, out, u);
      if u in Select(ps[1..], keep, out) {
        var k :| 0 <= k < |ps[1..]| && keep(ps[1..][k]) && out(ps[1..][k]) == u;
        assert ps[k + 1] == ps[1..][k];
      }
      if exists k :: 0 <= k < |ps| && keep(ps[k]) && out(ps[k]) == u {
        var k :| 0 <= k < |ps| && keep(ps[k]) && out(ps[k]) == u;
        if k > 0 {
          assert ps[1..][k - 1] == ps[k];
        }
      }
    }
  }

  /** The product holds exactly the pairs of an element of each list. */
  lemma {:induction false} ProductMember<T>(xs: seq<T>, ys: seq<T>, p: (T, T))
    ensures p in Product(xs, ys) <==> exists i, j :: 0 <= i < |xs| && 0 <= j < |ys| && p == (xs[i], ys[j])
  {
    if xs != [] {
      var rest := xs[1..];
      ProductMember(rest, ys, p);
      PairsIndex(xs[0], ys);
      if p in Pairs(xs[0], ys) {
        var j :| 0 <= j < |ys| && Pairs(xs[0], ys)[j] == p;
        assert p == (xs[0], ys[j]);
      }
      if p in Product(rest, ys) {
        var i, j :| 0 <= i < |rest| && 0 <= j < |ys| && p == (rest[i], ys[j]);
        assert rest[i] == xs[i + 1];
      }
      if exists i, j :: 0 <= i < |xs| && 0 <= j < |ys| && p == (xs[i], ys[j]) {
        var i, j :| 0 <= i < |xs| && 0 <= j < |ys| && p == (xs[i], ys[j]);
        if i == 0 {
          assert Pairs(xs[0], ys)[j] == p;
        } else {
          assert rest[i - 1] == xs[i];
        }
      }
    }
  }

  /** A selection from a product holds the images of exactly the accepted pairs. */
  lemma SelectProductMember<T, U>(xs: seq<T>, ys: seq<T>, keep: ((T, T)) -> bool, out: ((T, T)) -> U, u: U)
    ensures u in Select(Product(xs, ys), keep, out) <==>
      exists i, j :: 0 <= i < |xs| && 0 <= j < |ys| && keep((xs[i], ys[j])) && out((xs[i], ys[j])) == u
  {
    var ps := Product(xs, ys);
    SelectMember(ps, keep, out, u);
    if u in Select(ps, keep, out) {
      var k :| 0 <= k < |ps| && keep(ps[k]) && out(ps[k]) == u;
      ProductMember(xs, ys, ps[k]);
    }
    if exists i, j :: 0 <= i < |xs| && 0 <= j < |ys| && keep((xs[i], ys[j])) && out((xs[i], ys[j])) == u {
      var i, j :| 0 <= i < |xs| && 0 <= j < |ys| && keep((xs[i], ys[j])) && out((xs[i], ys[j])) == u;
      ProductMember(xs, ys, (xs[i], ys[j]));
      var k :| 0 <= k < |ps| && ps[k] == (xs[i], ys[j]);
    }
  }

  /** A known reason fails only for a team preference with an entry lacking " with ". */
  lemma DesiredFails(row: Row)
    ensures DesiredSections(row) == Err(UnknownReason) <==> !KnownReason(row)
    ensures DesiredSections(row) == Err(MissingInstructor) <==>
      KnownReason(row) && IsPreference(row)
      && ((exists i :: 0 <= i < |Wishes(row).0| && !HasInstructor(Wishes(row).0[i]))
       || (exists j :: 0 <= j < |Wishes(row).1| && !HasInstructor(Wishes(row).1[j])))
  {
    var (recs, tuts) := Wishes(row);
    var ok := ParseRule(IsPreference(row));
    if IsPreference(row) {
      assert forall i :: 0 <= i < |recs| ==> (ok(recs[i]) <==> HasInstructor(recs[i]));
      assert forall j :: 0 <= j < |tuts| ==> (ok(tuts[j]) <==> HasInstructor(tuts[j]));
    }
  }

  /**
   * Team preference: the result holds exactly the stripped pairs of a
   * desired recitation and a desired tutorial whose instructors the table pairs.
   */
  lemma PreferenceDesired(row: Row, u: SectionPair)
    requires IsPreference(row) && DesiredSections(row).Ok?
    ensures u in DesiredSections(row).value <==>
      exists i, j :: 0 <= i < |Wishes(row).0| && 0 <= j < |Wishes(row).1|
        && Compatible(Wishes(row).0[i], Wishes(row).1[j])
        && u == SectionPair(Strip(Wishes(row).0[i]), Strip(Wishes(row).1[j]))
  {
    var (recs, tuts) := Wishes(row);
    SelectProductMember(recs, tuts, CompatiblePair, StripPair, u);
  }

  /**
   * Schedule conflict: never an error, and the result is the whole product
   * of the available times, stripped, in recitation-major order.
   */
  lemma ConflictDesired(row: Row)
    requires KnownReason(row) && !IsPreference(row)
    ensures DesiredSections(row).Ok?
    ensures |DesiredSections(row).value| == |Product(Wishes(row).0, Wishes(row).1)| == |Wishes(row).0| * |Wishes(row).1|
    ensures forall k :: 0 <= k < |DesiredSections(row).value| ==>
      DesiredSections(row).value[k] == StripPair(Product(Wishes(row).0, Wishes(row).1)[k])
  {
    var (recs, tuts) := Wishes(row);
    assert !Broken(recs, tuts, ParseRule(false));
    ProductLength(recs, tuts);
    SelectEvery(Product(recs, tuts), AnyPair, StripPair);
  }

  /** Every returned section is stripped. */
  lemma DesiredTrimmed(row: Row, u: SectionPair)
    requires DesiredSections(row).Ok? && u in DesiredSections(row).value
    ensures Trimmed(u.rec) && Trimmed(u.tut)
  {
    var (recs, tuts) := Wishes(row);
    SelectMember(Product(recs, tuts), KeepRule(IsPreference(row)), StripPair, u);
  }

  /**
   * The table pairs Mark Day only with "Katie Bruner," (trailing comma) and
   * "Nicole Cunningham-Frisbey", so a tutorial whose instructor reads
   * "Katie Bruner" is never compatible with Mark Day's recitations.
   */
  lemma MarkDayPartners(rec: string, tut: string)
    requires Compatible(rec, tut) && Instructor(rec) == "Mark Day"
    ensures Instructor(tut) == "Katie Bruner," || Instructor(tut) == "Nicole Cunningham-Frisbey"
    ensures Instructor(tut) != "Katie Bruner"
  {
  }

  /** One pass of the inner loop: the pairs of `x` with each of `ys`, or `None` at the first rejected entry. */
  method CrossRow<T, U>(x: T, ys: seq<T>, ok: T -> bool, keep: ((T, T)) -> bool, out: ((T, T)) -> U)
    returns (r: Option<seq<U>>)
    ensures r.None? <==> exists j :: 0 <= j < |ys| && (!ok(x) || !ok(ys[j]))
    ensures r.Some? ==> r.value == Select(Pairs(x, ys), keep, out)
  {
    var row: seq<U> := [];
    for b := 0 to |ys|
      invariant row == Select(Pairs(x, ys[..b]), keep, out)
      invariant forall j :: 0 <= j < b ==> ok(x) && ok(ys[j])
    {
      if !ok(x) || !ok(ys[b]) {
        return None;
      }
      RowStep(x, ys, b, keep, out);
      row := row + if keep((x, ys[b])) then [out((x, ys[b]))] else [];
    }
    assert ys[..|ys|] == ys;
    return Some(row);
  }

  /**
   * The nested loops of `generate_desired_sections`: for every pair
   * (x, y), recitation-major, an entry `ok` rejects raises, and a pair
   * `keep` accepts is appended as `out` makes it.
   */
  method CrossSelect<T, U>(xs: seq<T>, ys: seq<T>, ok: T -> bool, keep: ((T, T)) -> bool, out: ((T, T)) -> U)
    returns (r: Option<seq<U>>)
    ensures r.None? <==> Broken(xs, ys, ok)
    ensures r.Some? ==> r.value == Select(Product(xs, ys), keep, out)
  {
    var desired: seq<U> := [];
    for a := 0 to |xs|
      invariant desired == Select(Product(xs[..a], ys), keep, out)
      invariant forall i, j :: 0 <= i < a && 0 <= j < |ys| ==> ok(xs[i]) && ok(ys[j])
    {
      var row := CrossRow(xs[a], ys, ok, keep, out);
      if row.None? {
        var j :| 0 <= j < |ys| && (!ok(xs[a]) || !ok(ys[j]));
        assert !ok(xs[a]) ==> exists i :: 0 <= i < |xs| && !ok(xs[i]);
        return None;
      }
      ProductStep(xs, ys, a, keep, out);
      desired := desired + row.value;
    }
    assert xs[..|xs|] == xs;
    if |xs| > 0 && |ys| > 0 {
      assert forall i :: 0 <= i < |xs| ==> ok(xs[i]) && ok(ys[0]);
      assert forall j :: 0 <= j < |ys| ==> ok(xs[0]) && ok(ys[j]);
    }
    return Some(desired);
  }

  /**
   * `generate_desired_sections`: the stripped reason picks the answer
   * lists and the filter, then the nested loops collect the pairs.
   */
  method GenerateDesiredSections(row: Row) returns (r: Result<seq<SectionPair>, Error>)
    ensures r == DesiredSections(row)
  {
    var reason := Strip(row.reason);
    if reason != TeamPreference && reason != ScheduleConflict {
      return Err(UnknownReason);
    }
    var preference := reason == TeamPreference;
    var (recs, tuts) := Wishes(row);
    var chosen := CrossSelect(recs, tuts, ParseRule(preference), KeepRule(preference), StripPair);
    match chosen
    case None => return Err(MissingInstructor);
    case Some(desired) => return Ok(desired);
  }
}
