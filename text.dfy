/**
 * The few operations on Python strings that the swap engine relies on:
 * `str.strip()`, `str.split(sep)` with an explicit separator, and the join
 * that undoes a split.
 */
module Text {
  import opened Wrappers

  /** The characters for which Python's `str.isspace()` holds. */
  predicate IsSpace(c: char) {
    || c == ' ' || c == '\t' || c == '\n' || c == '\r'
    || c == '\U{000B}' || c == '\U{000C}'
    || ('\U{001C}' <= c <= '\U{001F}')
    || c == '\U{0085}' || c == '\U{00A0}' || c == '\U{1680}'
    || ('\U{2000}' <= c <= '\U{200A}')
    || c == '\U{2028}' || c == '\U{2029}' || c == '\U{202F}' || c == '\U{205F}' || c == '\U{3000}'
  }

  /** Length of the longest all-whitespace prefix of `s`. */
  function LeadingSpaces(s: string): (n: nat)
    ensures n <= |s|
    ensures forall k :: 0 <= k < n ==> IsSpace(s[k])
    ensures n < |s| ==> !IsSpace(s[n])
  {
    if s != [] && IsSpace(s[0]) then 1 + LeadingSpaces(s[1..]) else 0
  }

  /** Length of the longest all-whitespace suffix of `s`. */
  function TrailingSpaces(s: string): (n: nat)
    ensures n <= |s|
    ensures forall k :: |s| - n <= k < |s| ==> IsSpace(s[k])
    ensures n < |s| ==> !IsSpace(s[|s| - 1 - n])
  {
    if s != [] && IsSpace(s[|s| - 1]) then 1 + TrailingSpaces(s[..|s| - 1]) else 0
  }

  /** Python's `s.strip()`: `s` without its leading and trailing whitespace. */
  function Strip(s: string): (r: string)
    ensures r == [] || (!IsSpace(r[0]) && !IsSpace(r[|r| - 1]))
    ensures |r| <= |s|
  {
    var t := s[LeadingSpaces(s)..];
    t[..|t| - TrailingSpaces(t)]
  }

  /** A string Python's `strip()` leaves alone. */
  predicate Trimmed(s: string) {
    s == [] || (!IsSpace(s[0]) && !IsSpace(s[|s| - 1]))
  }

  /**
   * `Strip(s)` is the middle of `s`: what it removes on either side is all
   * whitespace, and it leaves nothing to strip.
   */
  lemma StripIsMiddle(s: string)
    ensures exists a, b ::
              && 0 <= a <= b <= |s| && Strip(s) == s[a..b]
              && (forall k :: 0 <= k < a ==> IsSpace(s[k]))
              && (forall k :: b <= k < |s| ==> IsSpace(s[k]))
  {
    var a := LeadingSpaces(s);
    var t := s[a..];
    var b := a + |t| - TrailingSpaces(t);
    assert Strip(s) == s[a..b];
    assert forall k :: b <= k < |s| ==> s[k] == t[k - a];
  }

  /** A trimmed string is its own strip. */
  lemma StripTrimmed(s: string)
    requires Trimmed(s)
    ensures Strip(s) == s
  {
    if s != [] {
      assert LeadingSpaces(s) == 0;
      assert TrailingSpaces(s) == 0;
    }
  }

  /** Stripping twice is stripping once. */
  lemma StripIdempotent(s: string)
    ensures Strip(Strip(s)) == Strip(s)
  {
    StripTrimmed(Strip(s));
  }

  /** `sep` occurs in `s` starting at index `k`. */
  predicate OccursAt(s: string, sep: string, k: nat) {
    k + |sep| <= |s| && s[k..k + |sep|] == sep
  }

  /** `sep` occurs somewhere in `s` (Python's `sep in s`). */
  predicate Contains(s: string, sep: string) {
    exists k: nat :: k <= |s| && OccursAt(s, sep, k)
  }

  /** The leftmost occurrence of `sep` in `s` at or after `from`. */
  function FindFrom(s: string, sep: string, from: nat): (r: Option<nat>)
    requires sep != []
    ensures r.Some? ==> from <= r.value && OccursAt(s, sep, r.value)
    ensures forall k: nat :: from <= k && (r.None? || k < r.value) ==> !OccursAt(s, sep, k)
    decreases |s| - from
  {
    if from + |sep| > |s| then None
    else if s[from..from + |sep|] == sep then Some(from)
    else FindFrom(s, sep, from + 1)
  }

  /** Python's `s.find(sep)`, with `None` for -1. */
  function Find(s: string, sep: string): (r: Option<nat>)
    requires sep != []
    ensures r.Some? ==> OccursAt(s, sep, r.value) && forall k: nat :: k < r.value ==> !OccursAt(s, sep, k)
    ensures r.None? <==> !Contains(s, sep)
  {
    FindFrom(s, sep, 0)
  }

  /** Python's `s.split(sep)`: cut `s` at every leftmost, non-overlapping occurrence of `sep`. */
  function Split(s: string, sep: string): (parts: seq<string>)
    requires sep != []
    ensures |parts| >= 1
    decreases |s|
  {
    match Find(s, sep)
    case None => [s]
    case Some(i) => [s[..i]] + Split(s[i + |sep|..], sep)
  }

  /** Python's `sep.join(parts)`. */
  function Join(parts: seq<string>, sep: string): string
    requires |parts| >= 1
  {
    if |parts| == 1 then parts[0] else parts[0] + sep + Join(parts[1..], sep)
  }

  /** Joining the pieces of a split with the same separator gives back the string. */
  lemma {:induction false} JoinSplit(s: string, sep: string)
    requires sep != []
    ensures Join(Split(s, sep), sep) == s
    decreases |s|
  {
    match Find(s, sep)
    case None =>
    case Some(i) =>
      var rest := s[i + |sep|..];
      var parts := Split(s, sep);
      JoinSplit(rest, sep);
      assert parts == [s[..i]] + Split(rest, sep);
      assert parts[0] == s[..i] && parts[1..] == Split(rest, sep);
      calc {
        Join(parts, sep);
        s[..i] + sep + Join(Split(rest, sep), sep);
        s[..i] + sep + rest;
        { assert s[i..i + |sep|] == sep; }
        s[..i] + s[i..i + |sep|] + s[i + |sep|..];
        s;
      }
  }

  /** No piece of a split still contains the separator. */
  lemma {:induction false} SplitPiecesFree(s: string, sep: string)
    requires sep != []
    ensures forall p :: p in Split(s, sep) ==> !Contains(p, sep)
    decreases |s|
  {
    match Find(s, sep)
    case None =>
    case Some(i) =>
      var head := s[..i];
      SplitPiecesFree(s[i + |sep|..], sep);
      forall k: nat | k <= |head| && OccursAt(head, sep, k)
        ensures false
      {
        assert s[k..k + |sep|] == head[k..k + |sep|];
        assert OccursAt(s, sep, k);
      }
  }

  /** A string splits into a single piece exactly when the separator does not occur in it. */
  lemma SplitSingle(s: string, sep: string)
    requires sep != []
    ensures |Split(s, sep)| == 1 <==> !Contains(s, sep)
    ensures !Contains(s, sep) ==> Split(s, sep) == [s]
  {
  }

  /** The text before the first occurrence of `sep`, or all of `s` when there is none. */
  function Before(s: string, sep: string): string
    requires sep != []
    decreases |s|
  {
    if |s| < |sep| then s
    else if s[..|sep|] == sep then []
    else [s[0]] + Before(s[1..], sep)
  }

  /** Occurrences in `s` past its first character are the occurrences in `s[1..]`, shifted by one. */
  lemma ShiftOccurs(s: string, sep: string)
    requires |s| >= 1
    ensures forall k: nat :: OccursAt(s, sep, k + 1) <==> OccursAt(s[1..], sep, k)
  {
    forall k: nat ensures OccursAt(s, sep, k + 1) <==> OccursAt(s[1..], sep, k) {
      if k + 1 + |sep| <= |s| {
        var a, b := s[k + 1..k + 1 + |sep|], s[1..][k..k + |sep|];
        assert |a| == |b| && forall m :: 0 <= m < |a| ==> a[m] == b[m];
      }
    }
  }

  /** Where `s` does not start with `sep`, `Find` in `s` is `Find` in `s[1..]`, shifted by one. */
  lemma FindShift(s: string, sep: string)
    requires sep != [] && |s| >= |sep| && s[..|sep|] != sep
    ensures Find(s, sep).None? <==> Find(s[1..], sep).None?
    ensures Find(s, sep).Some? ==> Find(s, sep).value == Find(s[1..], sep).value + 1
  {
    var t := s[1..];
    ShiftOccurs(s, sep);
    assert !OccursAt(s, sep, 0);
    match Find(s, sep)
    case None =>
      forall k: nat | k <= |t| ensures !OccursAt(t, sep, k) {
        assert !OccursAt(s, sep, k + 1);
      }
    case Some(i) =>
      assert i >= 1 && OccursAt(t, sep, i - 1);
      var j := Find(t, sep).value;
      assert OccursAt(s, sep, j + 1);
  }

  /** `Before` stops at the leftmost occurrence that `Find` reports. */
  lemma {:induction false} BeforeFind(s: string, sep: string)
    requires sep != []
    ensures Find(s, sep).None? ==> Before(s, sep) == s
    ensures Find(s, sep).Some? ==> Before(s, sep) == s[..Find(s, sep).value]
    decreases |s|
  {
    if |s| < |sep| {
      assert !Contains(s, sep);
    } else if s[..|sep|] == sep {
      assert OccursAt(s, sep, 0);
    } else {
      var t := s[1..];
      BeforeFind(t, sep);
      FindShift(s, sep);
      if Find(s, sep).Some? {
        assert s[..Find(s, sep).value] == [s[0]] + t[..Find(t, sep).value];
      }
    }
  }

  /** Python's `s.split(sep)[0]` is the text before the first separator. */
  lemma BeforeIsFirstPiece(s: string, sep: string)
    requires sep != []
    ensures Before(s, sep) == Split(s, sep)[0]
    ensures Before(s, sep) <= s
    ensures !Contains(Before(s, sep), sep)
    ensures Before(s, sep) == s <==> !Contains(s, sep)
  {
    BeforeFind(s, sep);
    SplitPiecesFree(s, sep);
    assert Split(s, sep)[0] in Split(s, sep);
  }
}
