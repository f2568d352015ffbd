/**
 * The line buffer of the editor (`Document` in src/document.rs): an ordered
 * list of rows, an optional file name and a dirty flag. The structural edits
 * are specified by functions on the row list; the `Document` methods perform
 * them step by step, as the source does, and are proved to agree.
 */
module Documents {
  import opened Wrappers
  import opened Positions
  import Rows

  // ---------------------------------------------------------------------------
  // Structural edits on the row list

  /** `insert_newline`: split row `at.y` at `at.x`, append an empty row at the end, or do nothing. */
  function NewlineRows(rows: seq<Rows.Row>, at: Position): (r: seq<Rows.Row>)
    ensures at.y > |rows| ==> r == rows
    ensures at.y == |rows| ==> r == rows + [[]]
    ensures at.y < |rows| ==>
      && |r| == |rows| + 1
      && r[at.y] + r[at.y + 1] == rows[at.y]
      && |r[at.y]| == Rows.Min(at.x, |rows[at.y]|)
      && (forall i :: 0 <= i < at.y ==> r[i] == rows[i])
      && (forall i :: at.y + 1 < i < |r| ==> r[i] == rows[i - 1])
  {
    if at.y < |rows| then
      var parts := Rows.Split(rows[at.y], at.x);
      rows[..at.y] + [parts.0, parts.1] + rows[at.y + 1..]
    else if at.y == |rows| then
      rows + [[]]
    else
      rows
  }

  /** `insert`: a character typed at `at`; a line break is a newline insertion. */
  function InsertedRows(rows: seq<Rows.Row>, at: Position, c: char): (r: seq<Rows.Row>)
    ensures at.y > |rows| ==> r == rows
    ensures at.y <= |rows| && c == '\n' ==> r == NewlineRows(rows, at)
    ensures at.y == |rows| && c != '\n' ==> r == rows + [[c]]
    ensures at.y < |rows| && c != '\n' ==>
      && |r| == |rows|
      && r[at.y] == Rows.Insert(rows[at.y], at.x, c)
      && forall i :: 0 <= i < |r| && i != at.y ==> r[i] == rows[i]
  {
    if at.y > |rows| then rows
    else if c == '\n' then NewlineRows(rows, at)
    else if at.y == |rows| then
      var row := Rows.Insert([], 0, c);
      assert row == [c];
      rows + [row]
    else rows[at.y := Rows.Insert(rows[at.y], at.x, c)]
  }

  /** `delete` at the end of a row that has a successor joins the two rows. */
  predicate JoinsLines(rows: seq<Rows.Row>, at: Position)
  {
    at.y + 1 < |rows| && at.x == |rows[at.y]|
  }

  /** `delete`: join with the next row at end of line, else delete one character of row `at.y`. */
  function DeletedRows(rows: seq<Rows.Row>, at: Position): (r: seq<Rows.Row>)
    ensures at.y >= |rows| ==> r == rows
    ensures JoinsLines(rows, at) ==>
      && |r| == |rows| - 1
      && r[at.y] == rows[at.y] + rows[at.y + 1]
      && (forall i :: 0 <= i < at.y ==> r[i] == rows[i])
      && (forall i :: at.y < i < |r| ==> r[i] == rows[i + 1])
    ensures at.y < |rows| && !JoinsLines(rows, at) ==>
      && |r| == |rows|
      && r[at.y] == Rows.Delete(rows[at.y], at.x)
      && forall i :: 0 <= i < |r| && i != at.y ==> r[i] == rows[i]
  {
    if at.y >= |rows| then rows
    else if JoinsLines(rows, at) then
      rows[..at.y] + [Rows.Append(rows[at.y], rows[at.y + 1])] + rows[at.y + 2..]
    else
      rows[at.y := Rows.Delete(rows[at.y], at.x)]
  }

  /** `delete_line`: row `at.y` disappears and every other row keeps its order. */
  function RemovedLine(rows: seq<Rows.Row>, at: Position): (r: seq<Rows.Row>)
    ensures at.y >= |rows| ==> r == rows
    ensures at.y < |rows| ==>
      && |r| == |rows| - 1
      && (forall i :: 0 <= i < at.y ==> r[i] == rows[i])
      && (forall i :: at.y <= i < |r| ==> r[i] == rows[i + 1])
  {
    if at.y >= |rows| then rows else rows[..at.y] + rows[at.y + 1..]
  }

  /**
   * Typing a character into an existing row and deleting at the same
   * position gives back the rows as they were.
   */
  lemma InsertThenDelete(rows: seq<Rows.Row>, at: Position, c: char)
    requires at.y < |rows| && at.x <= |rows[at.y]| && c != '\n'
    ensures DeletedRows(InsertedRows(rows, at, c), at) == rows
  {
    var mid := InsertedRows(rows, at, c);
    assert |mid[at.y]| == |rows[at.y]| + 1;
    assert !JoinsLines(mid, at);
    Rows.InsertThenDelete(rows[at.y], at.x, c);
    var r := DeletedRows(mid, at);
    assert |r| == |rows|;
    forall i | 0 <= i < |r| ensures r[i] == rows[i] {
    }
  }

  /**
   * Breaking a line at a column inside it and deleting at the same position
   * joins the two halves again: the split round-trip of the document.
   */
  lemma NewlineThenDelete(rows: seq<Rows.Row>, at: Position)
    requires at.y < |rows| && at.x <= |rows[at.y]|
    ensures DeletedRows(NewlineRows(rows, at), at) == rows
  {
    var mid := NewlineRows(rows, at);
    assert JoinsLines(mid, at);
    var r := DeletedRows(mid, at);
    assert |r| == |rows|;
    forall i | 0 <= i < |r| ensures r[i] == rows[i] {
      if i > at.y {
        assert r[i] == mid[i + 1] == rows[i];
      }
    }
  }

  /**
   * Outside the range of `InsertThenDelete` the round trip fails. A character
   * typed past the end of row `at.y` lands at the end of that row, but the
   * delete still works at column `at.x`: one column after the old end it joins
   * the row with its successor, and further out, or with no successor, it does
   * nothing, so the character stays.
   */
  lemma InsertPastRowEndThenDelete(rows: seq<Rows.Row>, at: Position, c: char)
    requires at.y < |rows| && |rows[at.y]| < at.x && c != '\n'
    ensures var r := DeletedRows(InsertedRows(rows, at, c), at);
      && r != rows
      && (at.x == |rows[at.y]| + 1 && at.y + 1 < |rows| ==>
            |r| == |rows| - 1 && r[at.y] == rows[at.y] + [c] + rows[at.y + 1])
      && (at.x > |rows[at.y]| + 1 || at.y + 1 == |rows| ==> r == rows[at.y := rows[at.y] + [c]])
  {
  }

  /**
   * A character typed on the line after the last one starts a new row;
   * deleting at the same position removes it only from column 0, and even
   * then an empty row is left behind.
   */
  lemma InsertBelowLastRowThenDelete(rows: seq<Rows.Row>, x: nat, c: char)
    requires c != '\n'
    ensures var r := DeletedRows(InsertedRows(rows, Position(x, |rows|), c), Position(x, |rows|));
      && r != rows
      && r == rows + [if x == 0 then [] else [c]]
  {
  }

  /**
   * A line break past the end of an existing row splits off an empty row;
   * deleting at the same position does not join it back, since the column is
   * past the end of the kept row, so one empty row too many remains.
   */
  lemma NewlinePastRowEndThenDelete(rows: seq<Rows.Row>, at: Position)
    requires at.y < |rows| && |rows[at.y]| < at.x
    ensures var r := DeletedRows(NewlineRows(rows, at), at);
      && r != rows
      && r == rows[..at.y] + [rows[at.y], []] + rows[at.y + 1..]
  {
    var mid := NewlineRows(rows, at);
    assert mid[at.y] == rows[at.y];
    assert |DeletedRows(mid, at)| == |rows| + 1;
  }

  /**
   * A line break on the line after the last row appends an empty row, and a
   * delete there leaves it in place, at every column.
   */
  lemma NewlineBelowLastRowThenDelete(rows: seq<Rows.Row>, x: nat)
    ensures var r := DeletedRows(NewlineRows(rows, Position(x, |rows|)), Position(x, |rows|));
      && r != rows
      && r == rows + [[]]
  {
  }

  /** The joining case on concrete rows: "x" typed at (3,0) of ["ab", "c"] and deleted there leaves ["abxc"]. */
  lemma InsertThenDeleteJoinsExample()
    ensures InsertedRows(["ab", "c"], Position(3, 0), 'x') == ["abx", "c"]
    ensures DeletedRows(["abx", "c"], Position(3, 0)) == ["abxc"]
  {
    assert Rows.Insert("ab", 3, 'x') == "abx";
    assert JoinsLines(["abx", "c"], Position(3, 0));
    assert Rows.Append("abx", "c") == "abxc";
  }

  // ---------------------------------------------------------------------------
  // Search over the rows

  /** Forward scan from row `y`, column `x`, to the last row; later rows from column 0. */
  function ScanForward(rows: seq<Rows.Row>, q: seq<char>, y: nat, x: nat): Option<Position>
    requires y <= |rows|
    decreases |rows| - y
  {
    if y == |rows| then None
    else match Rows.Find(rows[y], q, x, Forward)
      case Some(i) => Some(Position(i, y))
      case None => ScanForward(rows, q, y + 1, 0)
  }

  /** Backward scan from row `y`, column `x`, down to row 1; earlier rows from their end. */
  function ScanBackward(rows: seq<Rows.Row>, q: seq<char>, y: nat, x: nat): Option<Position>
    requires y < |rows|
    decreases y
  {
    if y == 0 then None
    else match Rows.Find(rows[y], q, x, Backward)
      case Some(i) => Some(Position(i, y))
      case None => ScanBackward(rows, q, y - 1, |rows[y - 1]|)
  }

  /** What `Document::find` returns: no wraparound in either direction. */
  function Search(rows: seq<Rows.Row>, q: seq<char>, at: Position, direction: SearchDirection): Option<Position>
  {
    if at.y >= |rows| then None
    else match direction
      case Forward => ScanForward(rows, q, at.y, at.x)
      case Backward => ScanBackward(rows, q, at.y, at.x)
  }

  /** Column `x` of row `y` lies in the forward search range that starts at `at`. */
  predicate AfterStart(at: Position, y: nat, x: nat)
  {
    at.y < y || (at.y == y && at.x <= x)
  }

  /** Column `x` of row `y` lies in the backward search range that starts at `at`: row 0 is never part of it. */
  predicate BeforeStart(at: Position, y: nat, x: nat)
  {
    1 <= y && (y < at.y || (y == at.y && x <= at.x))
  }

  /** `(y, x)` comes strictly before `p` in reading order. */
  predicate Precedes(y: nat, x: nat, p: Position)
  {
    y < p.y || (y == p.y && x < p.x)
  }

  lemma {:induction false} ScanForwardFirst(rows: seq<Rows.Row>, q: seq<char>, y: nat, x: nat)
    requires y <= |rows|
    ensures var r := ScanForward(rows, q, y, x);
      && (r.Some? ==> y <= r.value.y < |rows| && Rows.OccursAt(rows[r.value.y], q, r.value.x) && 0 < |q|)
      && (r.Some? ==> AfterStart(Position(x, y), r.value.y, r.value.x))
      && (r.Some? ==> forall y': nat, x': nat | y' < |rows| && AfterStart(Position(x, y), y', x') && Precedes(y', x', r.value)
                        :: !Rows.OccursAt(rows[y'], q, x'))
      && (r.None? && 0 < |q| ==> forall y': nat, x': nat | y' < |rows| && AfterStart(Position(x, y), y', x')
                        :: !Rows.OccursAt(rows[y'], q, x'))
    decreases |rows| - y
  {
    if y < |rows| {
      var here := Rows.Find(rows[y], q, x, Forward);
      if here.None? {
        ScanForwardFirst(rows, q, y + 1, 0);
      }
    }
  }

  lemma {:induction false} ScanBackwardNearest(rows: seq<Rows.Row>, q: seq<char>, y: nat, x: nat)
    requires y < |rows|
    ensures var r := ScanBackward(rows, q, y, x);
      && (r.Some? ==> 1 <= r.value.y <= y && Rows.OccursAt(rows[r.value.y], q, r.value.x) && 0 < |q|)
      && (r.Some? ==> BeforeStart(Position(x, y), r.value.y, r.value.x))
      && (r.Some? && x <= |rows[y]| ==> forall y': nat, x': nat | y' < |rows| && BeforeStart(Position(x, y), y', x') && Precedes(r.value.y, r.value.x, Position(x', y'))
                        :: !Rows.OccursAt(rows[y'], q, x'))
      && (r.None? && 0 < |q| && x <= |rows[y]| ==> forall y': nat, x': nat | y' < |rows| && BeforeStart(Position(x, y), y', x')
                        :: !Rows.OccursAt(rows[y'], q, x'))
    decreases y
  {
    if y > 0 {
      var here := Rows.Find(rows[y], q, x, Backward);
      if here.None? {
        ScanBackwardNearest(rows, q, y - 1, |rows[y - 1]|);
      }
    }
  }

  /** Any search result is an occurrence of the query inside the document. */
  lemma SearchResultInDocument(rows: seq<Rows.Row>, q: seq<char>, at: Position, direction: SearchDirection)
    ensures at.y >= |rows| ==> Search(rows, q, at, direction).None?
    ensures var r := Search(rows, q, at, direction);
      r.Some? ==> r.value.y < |rows| && r.value.x <= |rows[r.value.y]| && Rows.OccursAt(rows[r.value.y], q, r.value.x)
  {
    if at.y < |rows| {
      if direction == Forward {
        ScanForwardFirst(rows, q, at.y, at.x);
      } else {
        ScanBackwardNearest(rows, q, at.y, at.x);
      }
    }
  }

  /**
   * A forward search never wraps: its result is at or after the start, it
   * is the first occurrence from there, and it finds nothing only when no
   * occurrence lies between the start and the end of the document.
   */
  lemma SearchForwardFirstMatch(rows: seq<Rows.Row>, q: seq<char>, at: Position)
    requires at.y < |rows| && 0 < |q|
    ensures var r := Search(rows, q, at, Forward);
      && (r.Some? ==> AfterStart(at, r.value.y, r.value.x))
      && (r.Some? ==> forall y: nat, x: nat | y < |rows| && AfterStart(at, y, x) && Precedes(y, x, r.value)
                        :: !Rows.OccursAt(rows[y], q, x))
      && (r.None? <==> forall y: nat, x: nat | y < |rows| && AfterStart(at, y, x) :: !Rows.OccursAt(rows[y], q, x))
  {
    ScanForwardFirst(rows, q, at.y, at.x);
  }

  /**
   * A backward search looks at rows `at.y` down to 1 only: its result is at
   * or before the start and never in row 0, it is the nearest occurrence in
   * that range, and it finds nothing when the range holds none.
   */
  lemma SearchBackwardNearestMatch(rows: seq<Rows.Row>, q: seq<char>, at: Position)
    requires at.y < |rows| && at.x <= |rows[at.y]| && 0 < |q|
    ensures at.y == 0 ==> Search(rows, q, at, Backward).None?
    ensures var r := Search(rows, q, at, Backward);
      && (r.Some? ==> 1 <= r.value.y && BeforeStart(at, r.value.y, r.value.x))
      && (r.Some? ==> forall y: nat, x: nat | y < |rows| && BeforeStart(at, y, x) && Precedes(r.value.y, r.value.x, Position(x, y))
                        :: !Rows.OccursAt(rows[y], q, x))
      && (r.None? <==> forall y: nat, x: nat | y < |rows| && BeforeStart(at, y, x) :: !Rows.OccursAt(rows[y], q, x))
  {
    ScanBackwardNearest(rows, q, at.y, at.x);
  }

  /** The backward search never reads row 0: replacing it changes nothing. */
  lemma {:induction false} BackwardIgnoresRowZero(rows: seq<Rows.Row>, q: seq<char>, y: nat, x: nat, other: Rows.Row)
    requires y < |rows|
    ensures ScanBackward(rows, q, y, x) == ScanBackward(rows[0 := other], q, y, x)
    decreases y
  {
    var rows' := rows[0 := other];
    if y > 0 {
      assert rows'[y] == rows[y];
      if Rows.Find(rows[y], q, x, Backward).None? {
        if y - 1 > 0 {
          assert rows'[y - 1] == rows[y - 1];
        }
        BackwardIgnoresRowZero(rows, q, y - 1, |rows[y - 1]|, other);
        if y - 1 == 0 {
          assert ScanBackward(rows, q, 0, |rows[0]|) == None == ScanBackward(rows', q, 0, |rows'[0]|);
        }
      }
    }
  }

  /**
   * A backward search that starts past the end of its row finds nothing in
   * that row (`Row::find` rejects the column) and goes on as a search from the
   * end of the row above; in row 0 it finds nothing at all.
   */
  lemma SearchBackwardPastRowEnd(rows: seq<Rows.Row>, q: seq<char>, at: Position)
    requires at.y < |rows| && |rows[at.y]| < at.x
    ensures at.y == 0 ==> Search(rows, q, at, Backward).None?
    ensures 0 < at.y ==>
      Search(rows, q, at, Backward) == Search(rows, q, Position(|rows[at.y - 1]|, at.y - 1), Backward)
  {
  }

  /** The skipped start row on concrete rows: from past the end of ["", "ab", "ab"]'s last row, "b" is found in row 1. */
  lemma SearchBackwardPastRowEndExample()
    ensures Search(["", "ab", "ab"], "b", Position(2, 2), Backward) == Some(Position(1, 2))
    ensures Search(["", "ab", "ab"], "b", Position(5, 2), Backward) == Some(Position(1, 1))
  {
  }

  /**
   * The backward scan as the loop evidently means it: rows `y` down to 0,
   * the first row searched from column `x` and every row above from its end.
   */
  function ScanBackwardToTop(rows: seq<Rows.Row>, q: seq<char>, y: nat, x: nat): Option<Position>
    requires y < |rows|
    decreases y
  {
    match Rows.Find(rows[y], q, x, Backward)
    case Some(i) => Some(Position(i, y))
    case None => if y == 0 then None else ScanBackwardToTop(rows, q, y - 1, |rows[y - 1]|)
  }

  /** Column `x` of row `y` lies at or before `at` in reading order. */
  predicate AtOrBefore(at: Position, y: nat, x: nat)
  {
    y < at.y || (y == at.y && x <= at.x)
  }

  /**
   * The scan down to row 0 returns the nearest occurrence at or before its
   * start, and finds nothing only when no row from 0 to `y` holds one there.
   */
  lemma {:induction false} ScanBackwardToTopNearest(rows: seq<Rows.Row>, q: seq<char>, y: nat, x: nat)
    requires y < |rows| && x <= |rows[y]| && 0 < |q|
    ensures var r := ScanBackwardToTop(rows, q, y, x);
      && (r.Some? ==> AtOrBefore(Position(x, y), r.value.y, r.value.x) && Rows.OccursAt(rows[r.value.y], q, r.value.x))
      && (r.Some? ==> forall y': nat, x': nat | y' < |rows| && AtOrBefore(Position(x, y), y', x') && Precedes(r.value.y, r.value.x, Position(x', y'))
                        :: !Rows.OccursAt(rows[y'], q, x'))
      && (r.None? <==> forall y': nat, x': nat | y' < |rows| && AtOrBefore(Position(x, y), y', x') :: !Rows.OccursAt(rows[y'], q, x'))
    decreases y
  {
    if Rows.Find(rows[y], q, x, Backward).None? && y > 0 {
      ScanBackwardToTopNearest(rows, q, y - 1, |rows[y - 1]|);
    }
  }

  /**
   * The as-written backward search misses an occurrence in row 0: from (1,1)
   * of ["a", "b"] it finds no "a", while the scan down to row 0 finds it at (0,0).
   */
  lemma BackwardSearchMissesRowZero()
    ensures Rows.OccursAt(["a", "b"][0], "a", 0)
    ensures Search(["a", "b"], "a", Position(1, 1), Backward) == None
    ensures ScanBackwardToTop(["a", "b"], "a", 1, 1) == Some(Position(0, 0))
  {
    var b: Rows.Row := "b";
    assert b[0..1][0] == 'b';
    assert Rows.LastOccurrence(b, "a", 1) == None;
    assert Rows.LastOccurrence("a", "a", 1) == Some(0);
  }

  /** The worked example: in the single row "hello", "l" is found from (0,0) at column 2, from (3,0) at 3, and not from (4,0). */
  lemma SearchHelloExample()
    ensures Search(["hello"], "l", Position(0, 0), Forward) == Some(Position(2, 0))
    ensures Search(["hello"], "l", Position(3, 0), Forward) == Some(Position(3, 0))
    ensures Search(["hello"], "l", Position(4, 0), Forward) == None
  {
    var s: Rows.Row := "hello";
    assert s[0..1][0] == 'h' && s[1..2][0] == 'e';
    assert !Rows.OccursAt(s, "l", 0) && !Rows.OccursAt(s, "l", 1) && Rows.OccursAt(s, "l", 2);
    assert Rows.OccursAt(s, "l", 3);
    assert !Rows.OccursAt(s, "l", 4);
    assert Rows.FirstOccurrence(s, "l", 1) == Rows.FirstOccurrence(s, "l", 2);
    assert Rows.FirstOccurrence(s, "l", 4) == Rows.FirstOccurrence(s, "l", 5);
  }

  // ---------------------------------------------------------------------------
  // Size and persisted form

  /** The number of characters over all rows. */
  function TotalChars(rows: seq<Rows.Row>): nat
  {
    if rows == [] then 0 else TotalChars(rows[..|rows| - 1]) + |rows[|rows| - 1]|
  }

  /** What `save` writes: every row followed by a line break. */
  function Serialized(rows: seq<Rows.Row>): string
  {
    if rows == [] then [] else Serialized(rows[..|rows| - 1]) + rows[|rows| - 1] + ['\n']
  }

  /** The written text is exactly one character per row longer than the rows' content. */
  lemma {:induction false} SerializedLength(rows: seq<Rows.Row>)
    ensures |Serialized(rows)| == |rows| + TotalChars(rows)
  {
    if rows != [] {
      SerializedLength(rows[..|rows| - 1]);
    }
  }

  datatype SaveError = EmptyDocument | NoFileName | WriteFailed

  /** A successful save: the file written, the line and byte counts of its message, and the text written. */
  datatype Written = Written(fileName: string, lines: nat, bytes: nat, content: string)

  /**
   * The outcome of `save` under the name `fileName`; `writeOk` stands for
   * the filesystem's answer to creating and writing the file.
   */
  function SaveResult(fileName: Option<string>, rows: seq<Rows.Row>, writeOk: bool): (r: Result<Written, SaveError>)
    ensures r.Ok? <==> fileName.Some? && writeOk
    ensures fileName.None? ==> r == Err(NoFileName)
    ensures fileName.Some? && !writeOk ==> r == Err(WriteFailed)
    ensures r.Ok? ==> fileName == Some(r.value.fileName) && r.value.lines == |rows| && r.value.content == Serialized(rows)
    ensures r.Ok? ==> r.value.bytes == |r.value.content|
  {
    match fileName
    case None => Err(NoFileName)
    case Some(name) =>
      if writeOk then
        SerializedLength(rows);
        Ok(Written(name, |rows|, |rows| + TotalChars(rows), Serialized(rows)))
      else Err(WriteFailed)
  }

  // ---------------------------------------------------------------------------
  // The document

  class Document {
    var rows: seq<Rows.Row>
    var fileName: Option<string>
    var dirty: bool

    /** `Document::default()`: no rows, no name, clean. */
    constructor Default()
      ensures rows == [] && fileName == None && !dirty
    {
      rows := [];
      fileName := None;
      dirty := false;
    }

    /** `Document::from(name)`: a new unsaved file, dirty, named unless the name is empty. */
    constructor From(s: string)
      ensures rows == [] && dirty
      ensures fileName == if s == "" then None else Some(s)
    {
      rows := [];
      fileName := if s == "" then None else Some(s);
      dirty := true;
    }

    function Row(index: nat): (r: Option<Rows.Row>)
      reads this
      ensures r.Some? <==> index < |rows|
      ensures r.Some? ==> r.value == rows[index]
    {
      if index < |rows| then Some(rows[index]) else None
    }

    function Len(): (n: nat)
      reads this
      ensures n == 0 <==> rows == []
    {
      |rows|
    }

    function IsEmpty(): (b: bool)
      reads this
      ensures b <==> Len() == 0
    {
      |rows| == 0
    }

    function IsDirty(): (b: bool)
      reads this
      ensures b == dirty
    {
      dirty
    }

    method Insert(at: Position, c: char)
      modifies this`rows, this`dirty
      ensures rows == InsertedRows(old(rows), at, c)
      ensures dirty == (old(dirty) || at.y <= old(|rows|))
    {
      if at.y > |rows| {
        return;
      }
      dirty := true;
      if c == '\n' {
        InsertNewline(at);
        return;
      }
      if at.y == |rows| {
        var row := Rows.Insert([], 0, c);
        rows := rows + [row];
      } else {
        rows := rows[at.y := Rows.Insert(rows[at.y], at.x, c)];
      }
    }

    method Delete(at: Position)
      modifies this`rows, this`dirty
      ensures rows == DeletedRows(old(rows), at)
      ensures dirty == (old(dirty) || at.y < old(|rows|))
    {
      var len := |rows|;
      if at.y >= len {
        return;
      }
      dirty := true;
      if at.x == |rows[at.y]| && at.y + 1 < len {
        var nextRow := rows[at.y + 1];
        rows := rows[..at.y + 1] + rows[at.y + 2..];
        rows := rows[at.y := Rows.Append(rows[at.y], nextRow)];
      } else {
        rows := rows[at.y := Rows.Delete(rows[at.y], at.x)];
      }
    }

    method DeleteLine(at: Position)
      modifies this`rows, this`dirty
      ensures rows == RemovedLine(old(rows), at)
      ensures dirty == (old(dirty) || at.y < old(|rows|))
    {
      if at.y >= |rows| {
        return;
      }
      dirty := true;
      rows := rows[..at.y] + rows[at.y + 1..];
    }

    /** Never touches `dirty` itself: only `rows` is in its frame. */
    method InsertNewline(at: Position)
      modifies this`rows
      ensures rows == NewlineRows(old(rows), at)
    {
      if at.y < |rows| {
        var parts := Rows.Split(rows[at.y], at.x);
        rows := rows[at.y := parts.0];
        rows := rows[..at.y + 1] + [parts.1] + rows[at.y + 1..];
      } else if at.y == |rows| {
        rows := rows + [[]];
      }
    }

    method Find(query: seq<char>, at: Position, direction: SearchDirection) returns (r: Option<Position>)
      ensures r == Search(rows, query, at, direction)
    {
      if at.y >= |rows| {
        return None;
      }
      var position := at;
      var start := if direction == Forward then position.y else 0;
      var end := if direction == Forward then |rows| else position.y;
      for i := start to end
        invariant direction == Forward ==> position.y == i
        invariant direction == Forward ==>
          ScanForward(rows, query, position.y, position.x) == ScanForward(rows, query, at.y, at.x)
        invariant direction == Backward ==> position.y == at.y - i
        invariant direction == Backward ==>
          ScanBackward(rows, query, position.y, position.x) == ScanBackward(rows, query, at.y, at.x)
      {
        if position.y < |rows| {
          var found := Rows.Find(rows[position.y], query, position.x, direction);
          if found.Some? {
            position := position.(x := found.value);
            return Some(position);
          }
          match direction
          case Forward =>
            position := Position(0, position.y + 1);
          case Backward =>
            // The loop ends before it reaches row 0, so this guard always holds.
            assert position.y > 0;
            if position.y > 0 {
              position := Position(|rows[position.y - 1]|, position.y - 1);
            }
        } else {
          return None;
        }
      }
      return None;
    }

    method SizeInBytes() returns (size: nat)
      ensures size == |rows| + TotalChars(rows)
    {
      size := 0;
      for i := 0 to |rows|
        invariant size == i + TotalChars(rows[..i])
      {
        assert rows[..i + 1][..i] == rows[..i];
        size := size + |rows[i]| + 1;
      }
      assert rows[..|rows|] == rows;
    }

    /** `save` with the filesystem abstracted: `writeOk` is whether creating and writing the file succeeds. */
    method Save(writeOk: bool) returns (r: Result<Written, SaveError>)
      ensures r == SaveResult(fileName, rows, writeOk)
    {
      if fileName.None? {
        return Err(NoFileName);
      }
      if !writeOk {
        return Err(WriteFailed);
      }
      var content: string := [];
      for i := 0 to |rows|
        invariant content == Serialized(rows[..i])
      {
        assert rows[..i + 1][..i] == rows[..i];
        content := content + rows[i] + ['\n'];
      }
      assert rows[..|rows|] == rows;
      var size := SizeInBytes();
      r := Ok(Written(fileName.value, |rows|, size, content));
    }

    /**
     * `save_as`: refuses an empty clean document; saving under another
     * name than the current one writes there and then restores the name.
     */
    method SaveAs(target: Option<string>, writeOk: bool) returns (r: Result<Written, SaveError>)
      modifies this`fileName, this`dirty
      ensures old(rows == [] && !dirty) ==>
        r == Err(EmptyDocument) && fileName == old(fileName) && dirty == old(dirty)
      ensures old(rows != [] || dirty) && target.Some? && old(fileName) == target ==>
        r == SaveResult(target, rows, writeOk) && fileName == old(fileName) && !dirty
      ensures old(rows != [] || dirty) && target.Some? && old(fileName).Some? && old(fileName) != target ==>
        r == SaveResult(target, rows, writeOk) && fileName == old(fileName) && dirty == old(dirty)
      ensures old(rows != [] || dirty) && target.Some? && old(fileName).None? ==>
        r == SaveResult(target, rows, writeOk) && fileName == target && !dirty
      ensures old(rows != [] || dirty) && target.None? ==>
        r == SaveResult(old(fileName), rows, writeOk) && fileName == old(fileName) && dirty == (old(dirty) && !r.Ok?)
    {
      if IsEmpty() && !IsDirty() {
        return Err(EmptyDocument);
      }
      var prevName := fileName;
      match target
      case Some(name) =>
        if fileName.Some? {
          if name == fileName.value {
            dirty := false;
            r := Save(writeOk);
          } else {
            fileName := Some(name);
            r := Save(writeOk);
            fileName := prevName;
          }
        } else {
          fileName := Some(name);
          dirty := false;
          r := Save(writeOk);
        }
      case None =>
        r := Save(writeOk);
        if r.Ok? {
          dirty := false;
        }
    }
  }
}
