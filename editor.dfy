/**
 * The editor controller (`Editor` in src/editor.rs): the cursor movement
 * policy, the viewport offset that keeps the cursor visible, the mode state
 * machine driven by key presses, and the text of the status bar. The
 * terminal's size is a parameter; reading keys and drawing are not modelled.
 */
module Editors {
  import opened Wrappers
  import opened Positions
  import Rows
  import Documents

  datatype Mode = Normal | Insert | Command | Visual {

    /** The mode's name as the status bar shows it. */
    function ToString(): string
    {
      match this
      case Normal => "Normal"
      case Insert => "Insert"
      case Command => "Command"
      case Visual => "Visual"
    }
  }

  /** No two modes share a name, so the status bar always tells the mode. */
  lemma ModeNamesDistinct(a: Mode, b: Mode)
    ensures a.ToString() == b.ToString() ==> a == b
  {
  }

  /** The key events the controller reacts to; `Other` stands for every other termion key. */
  datatype Key = Char(c: char) | Ctrl(c: char) | Up | Down | Left | Right | PageUp | PageDown | Home | End | Esc | Other

  /** The text area of the terminal: its height in rows and its width in columns. */
  datatype TerminalSize = TerminalSize(height: nat, width: nat)

  /** `usize::saturating_sub`. */
  function SatSub(a: nat, b: nat): nat
  {
    if a >= b then a - b else 0
  }

  /** Length of row `y`, or 0 where the document has no such row (the line past the last one). */
  function RowLen(rows: seq<Rows.Row>, y: nat): nat
  {
    if y < |rows| then |rows[y]| else 0
  }

  /** The cursor is on a row of the document or on the line just past it, and within that row. */
  predicate CursorValid(rows: seq<Rows.Row>, p: Position)
  {
    p.y <= |rows| && p.x <= RowLen(rows, p.y)
  }

  // ---------------------------------------------------------------------------
  // Cursor movement

  /** The position a key asks for, before the column is clamped to the new row. */
  function Step(rows: seq<Rows.Row>, cursor: Position, key: Key, pageHeight: nat): Position
  {
    var x := cursor.x;
    var y := cursor.y;
    var height := |rows|;
    var width := RowLen(rows, y);
    if key == Up || key == Char('k') then
      Position(x, SatSub(y, 1))
    else if key == Down || key == Char('j') then
      Position(x, if y < height then y + 1 else y)
    else if key == Left || key == Char('h') then
      if x > 0 then Position(x - 1, y)
      else if y > 0 then Position(RowLen(rows, y - 1), y - 1)
      else cursor
    else if key == Right || key == Char('l') then
      if x < width then Position(x + 1, y)
      else if y < height then Position(0, y + 1)
      else cursor
    else if key == PageUp then
      Position(x, if y > pageHeight then y - pageHeight else 0)
    else if key == PageDown then
      Position(x, if y + pageHeight < height then y + pageHeight else height)
    else if key == Home then
      Position(0, y)
    else if key == End then
      Position(width, y)
    else
      cursor
  }

  /**
   * Where `move_cursor` leaves the cursor: the column never exceeds the
   * length of the row it lands on, and a cursor on the document or the line
   * past it stays there.
   */
  function Moved(rows: seq<Rows.Row>, cursor: Position, key: Key, pageHeight: nat): (p: Position)
    ensures p.x <= RowLen(rows, p.y)
    ensures cursor.y <= |rows| ==> p.y <= |rows|
  {
    var s := Step(rows, cursor, key, pageHeight);
    var width := RowLen(rows, s.y);
    Position(if s.x > width then width else s.x, s.y)
  }

  /** Left (or `h`) moves one column back, wraps to the end of the previous row at column 0, and stops at (0,0). */
  lemma MoveLeft(rows: seq<Rows.Row>, cursor: Position, key: Key, pageHeight: nat)
    requires key in {Left, Char('h')}
    requires CursorValid(rows, cursor)
    ensures cursor.x > 0 ==> Moved(rows, cursor, key, pageHeight) == Position(cursor.x - 1, cursor.y)
    ensures cursor.x == 0 && cursor.y > 0 ==>
      Moved(rows, cursor, key, pageHeight) == Position(RowLen(rows, cursor.y - 1), cursor.y - 1)
    ensures cursor == Position(0, 0) ==> Moved(rows, cursor, key, pageHeight) == cursor
  {
  }

  /**
   * Right (or `l`) moves one column on, wraps to column 0 of the next row at the end
   * of a row (the line past the last row included), and does nothing there.
   */
  lemma MoveRight(rows: seq<Rows.Row>, cursor: Position, key: Key, pageHeight: nat)
    requires key in {Right, Char('l')}
    requires CursorValid(rows, cursor)
    ensures cursor.x < RowLen(rows, cursor.y) ==> Moved(rows, cursor, key, pageHeight) == Position(cursor.x + 1, cursor.y)
    ensures cursor.x == RowLen(rows, cursor.y) && cursor.y < |rows| ==>
      Moved(rows, cursor, key, pageHeight) == Position(0, cursor.y + 1)
    ensures cursor.y == |rows| ==> Moved(rows, cursor, key, pageHeight) == cursor
  {
  }

  /** Home goes to column 0 and End to the end of the current row. */
  lemma MoveHomeEnd(rows: seq<Rows.Row>, cursor: Position, pageHeight: nat)
    ensures Moved(rows, cursor, Home, pageHeight) == Position(0, cursor.y)
    ensures Moved(rows, cursor, End, pageHeight) == Position(RowLen(rows, cursor.y), cursor.y)
  {
  }

  /**
   * Vertical moves (the arrows, `k` and `j`, and the page keys) change only the row, clamp the column to the new row,
   * never go above row 0 and never go below the line past the last row.
   */
  lemma MoveVertical(rows: seq<Rows.Row>, cursor: Position, key: Key, pageHeight: nat)
    requires key in {Up, Down, PageUp, PageDown, Char('k'), Char('j')}
    requires cursor.y <= |rows|
    ensures var p := Moved(rows, cursor, key, pageHeight);
      p.x == Rows.Min(cursor.x, RowLen(rows, p.y)) && p.y <= |rows|
    ensures key == Up || key == Char('k') ==> Moved(rows, cursor, key, pageHeight).y == SatSub(cursor.y, 1)
    ensures key == Down || key == Char('j') ==> Moved(rows, cursor, key, pageHeight).y == Rows.Min(cursor.y + 1, |rows|)
    ensures key == PageUp ==> Moved(rows, cursor, key, pageHeight).y == SatSub(cursor.y, pageHeight)
    ensures key == PageDown ==> Moved(rows, cursor, key, pageHeight).y == Rows.Min(cursor.y + pageHeight, |rows|)
  {
  }

  // ---------------------------------------------------------------------------
  // Viewport

  /**
   * One axis of `scroll`: the new offset of a window of `size` cells so that
   * it shows `cursor`; a cursor already inside leaves the window alone.
   */
  function ScrollAxis(cursor: nat, offset: nat, size: nat): (r: nat)
    ensures size >= 1 ==> r <= cursor < r + size
    ensures offset <= cursor < offset + size ==> r == offset
  {
    if cursor < offset then cursor
    else if cursor >= offset + size then SatSub(cursor, size) + 1
    else offset
  }

  function Scrolled(cursor: Position, offset: Position, size: TerminalSize): Position
  {
    Position(ScrollAxis(cursor.x, offset.x, size.width), ScrollAxis(cursor.y, offset.y, size.height))
  }

  function Distance(a: nat, b: nat): nat
  {
    if a <= b then b - a else a - b
  }

  /** Of all windows that show the cursor, scrolling picks the one nearest to the old offset. */
  lemma ScrollMovesLeast(cursor: nat, offset: nat, size: nat, other: nat)
    requires size >= 1 && other <= cursor < other + size
    ensures Distance(ScrollAxis(cursor, offset, size), offset) <= Distance(other, offset)
  {
  }

  /** Scrolling twice is scrolling once, for a window at least one cell high. */
  lemma ScrollIdempotent(cursor: nat, offset: nat, size: nat)
    requires size >= 1
    ensures ScrollAxis(cursor, ScrollAxis(cursor, offset, size), size) == ScrollAxis(cursor, offset, size)
  {
  }

  /** With a window of height 0 (a terminal of two rows or fewer) the offset never settles. */
  lemma ScrollEmptyWindowOscillates(cursor: nat, offset: nat)
    ensures ScrollAxis(cursor, ScrollAxis(cursor, offset, 0), 0) != ScrollAxis(cursor, offset, 0)
  {
  }

  /** Height 10, offset 0, cursor on row 15: the window starts at row 6, the cursor on its last row. */
  lemma ScrollExample()
    ensures ScrollAxis(15, 0, 10) == 6
  {
  }

  // ---------------------------------------------------------------------------
  // Modes

  /** `process_keypress` on the mode: only `i` in Normal and Esc in Insert switch; Command and Visual are never left. */
  function NextMode(m: Mode, key: Key): (r: Mode)
    ensures m == Normal && key == Char('i') ==> r == Insert
    ensures m == Insert && key == Esc ==> r == Normal
    ensures r != m ==> (m == Normal && key == Char('i')) || (m == Insert && key == Esc)
  {
    match m
    case Normal => if key == Char('i') then Insert else Normal
    case Insert => if key == Esc then Normal else Insert
    case Command => Command
    case Visual => Visual
  }

  /** The keys that `process_keypress` hands to `move_cursor` in each mode. */
  predicate MovesCursor(m: Mode, key: Key)
  {
    match m
    case Normal =>
      key in {Up, Down, Left, Right, Char('h'), Char('j'), Char('k'), Char('l'), PageUp, PageDown, End, Home}
    case Insert => key in {Up, Down, Left, Right}
    case Command => false
    case Visual => false
  }

  function ModeAfter(m: Mode, keys: seq<Key>): Mode
    decreases |keys|
  {
    if keys == [] then m else ModeAfter(NextMode(m, keys[0]), keys[1..])
  }

  /** No sequence of keys leads from Normal or Insert into Command or Visual: the `:` and `v` bindings are disabled. */
  lemma {:induction false} OnlyNormalAndInsertReachable(m: Mode, keys: seq<Key>)
    requires m == Normal || m == Insert
    ensures ModeAfter(m, keys) == Normal || ModeAfter(m, keys) == Insert
    decreases |keys|
  {
    if keys != [] {
      OnlyNormalAndInsertReachable(NextMode(m, keys[0]), keys[1..]);
    }
  }

  /** Command and Visual ignore every key, so an editor in either stays there. */
  lemma {:induction false} CommandAndVisualAbsorb(m: Mode, keys: seq<Key>)
    requires m == Command || m == Visual
    ensures ModeAfter(m, keys) == m
    decreases |keys|
  {
    if keys != [] {
      CommandAndVisualAbsorb(NextMode(m, keys[0]), keys[1..]);
    }
  }

  // ---------------------------------------------------------------------------
  // The editor

  class Editor {
    var shouldQuit: bool
    var cursor: Position
    var offset: Position
    var document: Documents.Document
    var mode: Mode

    /** The state `Editor::default` starts from, given the document it opened. */
    constructor (document: Documents.Document)
      ensures this.document == document
      ensures !shouldQuit && mode == Normal
      ensures cursor == Position(0, 0) && offset == Position(0, 0)
    {
      this.document := document;
      shouldQuit := false;
      cursor := Position(0, 0);
      offset := Position(0, 0);
      mode := Normal;
    }

    method Scroll(size: TerminalSize)
      modifies this`offset
      ensures offset == Scrolled(cursor, old(offset), size)
    {
      var x := cursor.x;
      var y := cursor.y;
      var width := size.width;
      var height := size.height;
      if y < offset.y {
        offset := offset.(y := y);
      } else if y >= offset.y + height {
        offset := offset.(y := SatSub(y, height) + 1);
      }
      if x < offset.x {
        offset := offset.(x := x);
      } else if x >= offset.x + width {
        offset := offset.(x := SatSub(x, width) + 1);
      }
    }

    method MoveCursor(key: Key, size: TerminalSize)
      modifies this`cursor
      ensures cursor == Moved(document.rows, old(cursor), key, size.height)
    {
      var y := cursor.y;
      var x := cursor.x;
      var height := document.Len();
      var terminalHeight := size.height;
      var width := match document.Row(y) case Some(row) => |row| case None => 0;
      if key == Up || key == Char('k') {
        y := SatSub(y, 1);
      } else if key == Down || key == Char('j') {
        if y < height {
          y := y + 1;
        }
      } else if key == Left || key == Char('h') {
        if x > 0 {
          x := x - 1;
        } else if y > 0 {
          y := y - 1;
          x := match document.Row(y) case Some(row) => |row| case None => 0;
        }
      } else if key == Right || key == Char('l') {
        if x < width {
          x := x + 1;
        } else if y < height {
          y := y + 1;
          x := 0;
        }
      } else if key == PageUp {
        y := if y > terminalHeight then y - terminalHeight else 0;
      } else if key == PageDown {
        y := if y + terminalHeight < height then y + terminalHeight else height;
      } else if key == Home {
        x := 0;
      } else if key == End {
        x := width;
      }
      width := match document.Row(y) case Some(row) => |row| case None => 0;
      if x > width {
        x := width;
      }
      cursor := Position(x, y);
    }

    /**
     * One key press: the mode and quit transitions, a cursor move for the
     * movement keys of Normal and the arrows of Insert, then a scroll. The
     * document is never edited, in any mode.
     */
    method ProcessKeypress(key: Key, size: TerminalSize)
      modifies this`mode, this`shouldQuit, this`cursor, this`offset
      ensures mode == NextMode(old(mode), key)
      ensures shouldQuit == (old(shouldQuit) || (old(mode) == Normal && key == Ctrl('q')))
      ensures cursor == if MovesCursor(old(mode), key) then Moved(document.rows, old(cursor), key, size.height) else old(cursor)
      ensures offset == Scrolled(cursor, old(offset), size)
      ensures document == old(document) && document.rows == old(document.rows) && document.dirty == old(document.dirty)
      ensures old(CursorValid(document.rows, cursor)) ==> CursorValid(document.rows, cursor)
      ensures size.height >= 1 ==> offset.y <= cursor.y < offset.y + size.height
      ensures size.width >= 1 ==> offset.x <= cursor.x < offset.x + size.width
    {
      match mode {
        case Normal =>
          if key == Char('i') {
            mode := Insert;
          } else if key in {Up, Down, Left, Right, Char('h'), Char('j'), Char('k'), Char('l'), PageUp, PageDown, End, Home} {
            MoveCursor(key, size);
          } else if key == Ctrl('q') {
            shouldQuit := true;
          }
        case Insert =>
          if key == Esc {
            mode := Normal;
          } else if key in {Up, Down, Left, Right} {
            MoveCursor(key, size);
          }
        case Command =>
        case Visual =>
      }
      Scroll(size);
    }
  }

  // ---------------------------------------------------------------------------
  // Status bar

  /** `String::truncate(n)` on text of one byte per character. */
  function Truncate(s: string, n: nat): (r: string)
    ensures |r| == Rows.Min(|s|, n) && r == s[..|r|]
  {
    if |s| <= n then s else s[..n]
  }

  function Spaces(n: nat): (r: string)
    ensures |r| == n && forall i :: 0 <= i < n ==> r[i] == ' '
  {
    if n == 0 then "" else Spaces(n - 1) + " "
  }

  /** The number a string of decimal digits denotes, most significant digit first. */
  function DigitsValue(s: string): nat
  {
    if s == [] then 0
    else DigitsValue(s[..|s| - 1]) * 10 + (if '0' <= s[|s| - 1] <= '9' then s[|s| - 1] as int - '0' as int else 0)
  }

  /** The decimal digits of `n`, as `format!("{}")` prints a `usize`: no leading zero, and they denote `n`. */
  function Decimal(n: nat): (r: string)
    ensures 1 <= |r|
    ensures forall i :: 0 <= i < |r| ==> '0' <= r[i] <= '9'
    ensures r[0] == '0' ==> |r| == 1
    ensures DigitsValue(r) == n
  {
    if n < 10 then [('0' as int + n) as char]
    else
      var r := Decimal(n / 10) + [('0' as int + n % 10) as char];
      assert r[..|r| - 1] == Decimal(n / 10);
      r
  }

  /** The file-name part: the name cut to 20 characters, or "[No Name]". */
  function NamePart(fileName: Option<string>): (r: string)
    ensures |r| <= 20
    ensures fileName.None? ==> r == "[No Name]"
    ensures fileName.Some? ==> |r| == Rows.Min(|fileName.value|, 20) && r == fileName.value[..|r|]
  {
    match fileName
    case None => "[No Name]"
    case Some(name) => Truncate(name, 20)
  }

  function StatusText(fileName: Option<string>, lines: nat): string
  {
    NamePart(fileName) + " - " + Decimal(lines) + " lines"
  }

  function ModeIndicator(m: Mode): string
  {
    " [ " + m.ToString() + " ] "
  }

  function LineIndicator(cursorY: nat, lines: nat): string
  {
    Decimal(cursorY + 1) + "/" + Decimal(lines)
  }

  /** The width the status text and line indicator take without padding or mode indicator. */
  function UnpaddedWidth(fileName: Option<string>, lines: nat, cursorY: nat): nat
  {
    |StatusText(fileName, lines)| + |LineIndicator(cursorY, lines)|
  }

  /**
   * `draw_status_bar` as written: the padding `width - len - mode_indicator.len()`
   * is an unchecked `usize` subtraction, so a width just above `len` makes
   * the program panic (`None`) instead of drawing a line.
   */
  function StatusLineAsWritten(fileName: Option<string>, lines: nat, mode: Mode, cursorY: nat, width: nat): (r: Option<string>)
    ensures r.None? <==>
      var len := UnpaddedWidth(fileName, lines, cursorY);
      len < width < len + |ModeIndicator(mode)|
    ensures r.Some? ==> |r.value| == width
  {
    var status := StatusText(fileName, lines);
    var modeIndicator := ModeIndicator(mode);
    var lineIndicator := LineIndicator(cursorY, lines);
    var len := |status| + |lineIndicator|;
    if width > len && width - len < |modeIndicator| then
      None
    else
      var padded := if width > len then status + Spaces(width - len - |modeIndicator|) else status;
      Some(Truncate(padded + modeIndicator + lineIndicator, width))
  }

  /**
   * The status line with the padding saturating at 0: it always fills the
   * terminal width exactly, starts with the file-name part and, when it
   * fits, holds spaces up to the mode indicator and then the line indicator
   * at its end; when it does not fit, it is the unpadded text cut to the width.
   */
  function StatusLine(fileName: Option<string>, lines: nat, mode: Mode, cursorY: nat, width: nat): (r: string)
    ensures |r| == width
    ensures var status := StatusText(fileName, lines);
      var k := Rows.Min(width, |status|);
      r[..k] == status[..k]
    ensures var li := LineIndicator(cursorY, lines);
      var mi := ModeIndicator(mode);
      width >= UnpaddedWidth(fileName, lines, cursorY) + |mi| ==>
        r[width - |li|..] == li && r[width - |li| - |mi|..width - |li|] == mi
    ensures var status := StatusText(fileName, lines);
      var li := LineIndicator(cursorY, lines);
      var mi := ModeIndicator(mode);
      width >= UnpaddedWidth(fileName, lines, cursorY) + |mi| ==>
        forall i :: |status| <= i < width - |li| - |mi| ==> r[i] == ' '
    ensures var status := StatusText(fileName, lines);
      var li := LineIndicator(cursorY, lines);
      var mi := ModeIndicator(mode);
      width < UnpaddedWidth(fileName, lines, cursorY) + |mi| ==>
        r == (status + mi + li)[..width]
  {
    var status := StatusText(fileName, lines);
    var modeIndicator := ModeIndicator(mode);
    var lineIndicator := LineIndicator(cursorY, lines);
    var len := |status| + |lineIndicator|;
    var padding := SatSub(SatSub(width, len), |modeIndicator|);
    var full := status + Spaces(padding) + modeIndicator + lineIndicator;
    PaddedLayout(status, padding, modeIndicator, lineIndicator);
    Truncate(full, width)
  }

  /** Where each part of a padded status line sits. */
  lemma PaddedLayout(status: string, padding: nat, mi: string, li: string)
    ensures var full := status + Spaces(padding) + mi + li;
      && |full| == |status| + padding + |mi| + |li|
      && full[..|status|] == status
      && (forall i :: |status| <= i < |status| + padding ==> full[i] == ' ')
      && full[|full| - |li|..] == li
      && full[|full| - |li| - |mi|..|full| - |li|] == mi
      && (padding == 0 ==> full == status + mi + li)
  {
    var full := status + Spaces(padding) + mi + li;
    forall i | |status| <= i < |status| + padding ensures full[i] == ' ' {
      assert full[i] == Spaces(padding)[i - |status|];
    }
    assert padding == 0 ==> Spaces(padding) == [];
  }

  /** Whenever the code as written draws a line, it draws the corrected line. */
  lemma StatusLineAgrees(fileName: Option<string>, lines: nat, mode: Mode, cursorY: nat, width: nat)
    ensures var w := StatusLineAsWritten(fileName, lines, mode, cursorY, width);
      w.Some? ==> w.value == StatusLine(fileName, lines, mode, cursorY, width)
  {
  }

  /**
   * A concrete panic: file "notes.txt" with 3 lines, Normal mode, cursor on
   * the first row, 25 columns. The text and line indicator take 22 columns
   * and the mode indicator 12, so the padding would be 25 - 22 - 12.
   */
  lemma StatusLineUnderflows()
    ensures StatusLineAsWritten(Some("notes.txt"), 3, Normal, 0, 25).None?
    ensures |StatusLine(Some("notes.txt"), 3, Normal, 0, 25)| == 25
  {
    assert Decimal(3) == "3" && Decimal(1) == "1";
    assert NamePart(Some("notes.txt")) == "notes.txt";
    assert |StatusText(Some("notes.txt"), 3)| == 19;
    assert |LineIndicator(0, 3)| == 3;
    assert |ModeIndicator(Normal)| == 12;
  }
}
