/**
 * The content semantics of a `Row` (`crate::Row`). The row's own source file
 * is not part of this model, so each operation below states the behaviour the
 * document code relies on, as an assumption about `Row`:
 *   insert clamps the column to the row length, delete past the end does
 *   nothing, split keeps `[0, x)` and returns `[x, len)`, append concatenates,
 *   and find returns a column at which the query occurs.
 * The render string and highlight cache of a row are not modelled.
 */
module Rows {
  import opened Wrappers
  import opened Positions

  /** A line of text, as the characters it holds. */
  type Row = seq<char>

  function Min(a: nat, b: nat): nat
  {
    if a <= b then a else b
  }

  /** `Row::insert(at, c)`: `c` lands at column `at`, or at the end when `at` is past it. */
  function Insert(s: Row, at: nat, c: char): (r: Row)
    ensures |r| == |s| + 1
    ensures r[Min(at, |s|)] == c
    ensures forall i :: 0 <= i < Min(at, |s|) ==> r[i] == s[i]
    ensures forall i :: Min(at, |s|) < i < |r| ==> r[i] == s[i - 1]
  {
    if at >= |s| then s + [c] else s[..at] + [c] + s[at..]
  }

  /** `Row::delete(at)`: removes the character at `at`; nothing happens past the end. */
  function Delete(s: Row, at: nat): (r: Row)
    ensures at >= |s| ==> r == s
    ensures at < |s| ==> |r| == |s| - 1 && r[..at] == s[..at] && r[at..] == s[at + 1..]
  {
    if at >= |s| then s else s[..at] + s[at + 1..]
  }

  /** `Row::split(at)`: the row keeps `[0, at)` and the returned tail holds the rest. */
  function Split(s: Row, at: nat): (r: (Row, Row))
    ensures r.0 + r.1 == s
    ensures |r.0| == Min(at, |s|)
  {
    var k := Min(at, |s|);
    (s[..k], s[k..])
  }

  /** `Row::append(other)`: the row grows by `other`, which follows its old content. */
  function Append(s: Row, t: Row): (r: Row)
    ensures |r| == |s| + |t|
    ensures r[..|s|] == s && r[|s|..] == t
  {
    s + t
  }

  /** Inserting a character and deleting it again at the column where it landed restores the row. */
  lemma InsertThenDelete(s: Row, at: nat, c: char)
    ensures Delete(Insert(s, at, c), Min(at, |s|)) == s
  {
    var k := Min(at, |s|);
    var r := Insert(s, at, c);
    assert r == s[..k] + [c] + s[k..];
  }

  /** Splitting a row and appending the tail back reconstructs it, at every column. */
  lemma SplitThenAppend(s: Row, at: nat)
    ensures Append(Split(s, at).0, Split(s, at).1) == s
  {
  }

  // ---------------------------------------------------------------------------
  // Search within one row

  /** The query `q` occurs in `s` starting at column `i`. */
  predicate OccursAt(s: Row, q: seq<char>, i: nat)
  {
    i + |q| <= |s| && s[i..i + |q|] == q
  }

  /** The least column at or after `from` where `q` occurs. */
  function FirstOccurrence(s: Row, q: seq<char>, from: nat): (r: Option<nat>)
    decreases |s| - from
    ensures r.Some? ==> from <= r.value && OccursAt(s, q, r.value)
    ensures r.Some? ==> forall j :: from <= j < r.value ==> !OccursAt(s, q, j)
    ensures r.None? ==> forall j: nat :: from <= j ==> !OccursAt(s, q, j)
  {
    if from + |q| > |s| then None
    else if s[from..from + |q|] == q then Some(from)
    else FirstOccurrence(s, q, from + 1)
  }

  /** The greatest column at or before `from` where `q` occurs. */
  function LastOccurrence(s: Row, q: seq<char>, from: nat): (r: Option<nat>)
    decreases from
    ensures r.Some? ==> r.value <= from && OccursAt(s, q, r.value)
    ensures r.Some? ==> forall j :: r.value < j <= from ==> !OccursAt(s, q, j)
    ensures r.None? ==> forall j: nat :: j <= from ==> !OccursAt(s, q, j)
  {
    if from + |q| <= |s| && s[from..from + |q|] == q then Some(from)
    else if from == 0 then None
    else LastOccurrence(s, q, from - 1)
  }

  /**
   * `Row::find(query, at, direction)`: an empty query or a start column past
   * the end finds nothing; Forward gives the first occurrence at or after
   * `at`, Backward the last occurrence starting at or before `at`.
   */
  function Find(s: Row, q: seq<char>, at: nat, direction: SearchDirection): (r: Option<nat>)
    ensures r.Some? ==> 0 < |q| && OccursAt(s, q, r.value) && r.value <= |s|
    ensures r.Some? && direction == Forward ==>
      at <= r.value && forall j :: at <= j < r.value ==> !OccursAt(s, q, j)
    ensures r.Some? && direction == Backward ==>
      r.value <= at && forall j :: r.value < j <= at ==> !OccursAt(s, q, j)
    ensures r.None? && 0 < |q| && direction == Forward ==>
      forall j: nat :: at <= j ==> !OccursAt(s, q, j)
    ensures r.None? && 0 < |q| && at <= |s| && direction == Backward ==>
      forall j: nat :: j <= at ==> !OccursAt(s, q, j)
  {
    if |q| == 0 || at > |s| then None
    else if direction == Forward then FirstOccurrence(s, q, at)
    else LastOccurrence(s, q, at)
  }
}
