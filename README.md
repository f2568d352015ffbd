# ggedit editing core, modelled in Dafny

This project models the core of ggedit, a modal terminal text editor written in Rust. It covers three parts:

- **The line buffer** (`Document`, src/document.rs).
  - It holds an ordered list of rows, an optional file name and a dirty flag.
  - It offers character insert, delete with line-merge, whole-line delete, newline split, a non-wrapping forward/backward search, the byte-size estimate, and the name/dirty logic of `save_as`.
  - `Documents.Document` is a class whose methods change `rows`, `fileName` and `dirty` in place, step by step as the Rust code does.
  - Each method is proved equal to a function on the row list (`InsertedRows`, `DeletedRows`, `RemovedLine`, `NewlineRows`, `Search`). The properties are proved about those functions.
- **The editor controller** (`Editor`, src/editor.rs).
  - It covers the cursor movement policy (`Moved`), the viewport offset (`ScrollAxis`), the mode state machine (`NextMode`) and the status-bar text.
  - `Editors.Editor` is a class whose `MoveCursor`, `Scroll` and `ProcessKeypress` methods update `cursor`, `offset`, `mode` and `shouldQuit`. The terminal size is a parameter.
- **The highlight colours** (src/highlighting.rs): `Highlighting.Type` and its two colour functions.

`Row` (`crate::Row`) is not part of this model. Module `Rows` therefore states the row behaviour that the document code relies on, as **assumptions**:
- `insert` clamps the column to the row length.
- `delete` past the end does nothing.
- `split(x)` keeps `[0, x)` and returns `[x, len)`.
- `append` concatenates.
- `find` finds nothing for an empty query or for a start column past the end. Otherwise it returns the first occurrence at or after the column (Forward) or the last one starting at or before it (Backward).

Every `highlight` call is a cache refresh that does not change content, so it is not modelled.

Where the code does something other than what one would expect of it, the model follows the code:
- `save_as` sets `dirty = false` *before* writing on two paths: when the given name equals the current name, and when the document has no name yet. A failed write then leaves the document clean, although its changes were never persisted. Clearing dirty only after a successful write would keep it dirty. `SaveAs` states what the code does.
- The backward search walks rows `at.y` down to 1 and never searches row 0. With `at.y == 0` it finds nothing (`SearchBackwardNearestMatch`, `BackwardIgnoresRowZero`). The loop evidently means to reach row 0: its `position.y > 0` guard (src/document.rs:219) can never be false as written. This is recorded under "## Findings".
- A backward search that starts past the end of its row finds nothing in that row, because `Row::find` rejects the column, and goes on from the end of the row above (`SearchBackwardPastRowEnd`).
- Inserting a character and deleting at the same position does not restore the rows at every position. It does so only at a column ≤ the length of an existing row, both for an ordinary character (`InsertThenDelete`) and for a line break (`NewlineThenDelete`). Elsewhere it fails:
  - Past the end of a row, the character lands at the row's end but the delete works at the given column. One column after the old end, it joins the row with the next one: "x" typed at (3,0) of ["ab", "c"] and deleted there leaves ["abxc"]. Further out, or on the last row, the delete does nothing (`InsertPastRowEndThenDelete`, `InsertThenDeleteJoinsExample`).
  - On the line after the last row, the character starts a new row. The delete removes it only from column 0, and even then an empty row is left behind (`InsertBelowLastRowThenDelete`).
  - A line break past the end of an existing row splits off an empty row. The delete at that column does not join it back, because the column lies past the end of the kept row, so the empty row remains (`NewlinePastRowEndThenDelete`).
  - A line break on the line after the last row appends an empty row, which a delete there leaves in place, at every column (`NewlineBelowLastRowThenDelete`).
- Only Normal and Insert react to keys. The `:` and `v` bindings are commented out (src/editor.rs:127-128), so Command and Visual are unreachable. If the editor were in either, every key would be ignored. Insert mode moves the cursor with the arrow keys and never edits the document.
- The status line reads `<name> - <n> lines<padding> [ <Mode> ] <row>/<n>`.

## Model

| member | source | states |
|---|---|---|
| `Highlighting.Type.ToBgColor` | src/highlighting.rs:11-17 | only `SearchMatch` has a background colour, and it is Rgb(255,255,0) |
| `Highlighting.Type.ToFgColor` | src/highlighting.rs:19-25 | every class but `None` has a foreground colour: `Number` Rgb(232,165,165), `SearchMatch` Rgb(0,0,0) |
| `Highlighting.SearchMatchIsDistinguishable` | src/highlighting.rs:11-25 | a class with a background also has a foreground that differs from it |
| `Rows.Insert` | src/document.rs:130-140 | row grows by one; the character lands at min(column, length); earlier characters stay and later ones shift right (assumed `Row::insert`) |
| `Rows.Delete` | src/document.rs:154-158 | deleting past the end changes nothing; otherwise exactly the character at the column is removed (assumed `Row::delete`) |
| `Rows.Split` | src/document.rs:173-176 | head and tail concatenate to the row; the head keeps min(column, length) characters (assumed `Row::split`) |
| `Rows.Append` | src/document.rs:149-153 | the result is the row followed by the other row (assumed `Row::append`) |
| `Rows.InsertThenDelete` | src/document.rs:138 | deleting at the column where a character was inserted restores the row |
| `Rows.SplitThenAppend` | src/document.rs:174 | appending the split-off tail back onto the head reconstructs the row, for every column |
| `Rows.FirstOccurrence` | src/document.rs:208 | the least column at or after the start where the query occurs, or none if there is none |
| `Rows.LastOccurrence` | src/document.rs:208 | the greatest column at or before the start where the query occurs, or none if there is none |
| `Rows.Find` | src/document.rs:208 | a result is an occurrence of a non-empty query at a column ≤ row length; Forward gives the first one at or after the start, Backward the last one at or before it; for a non-empty query, no result means there is none at or after the start (Forward), or, when the start column is ≤ the row length, none at or before it (Backward); an empty query or a start column past the end finds nothing (assumed `Row::find`) |
| `Documents.NewlineRows` | src/document.rs:169-185 | y < len: one more row, and the new rows y and y+1 concatenate to old row y (split round trip) with the others in place; y == len: one empty row appended; y > len: unchanged |
| `Documents.InsertedRows` | src/document.rs:121-141 | y > len: unchanged; a line break is a newline insertion; y == len: exactly one row `[c]` appended and earlier rows untouched; y < len: same row count and only row y changes |
| `Documents.DeletedRows` | src/document.rs:143-159 | y ≥ len: unchanged; at the end of a row with a successor, the count drops by one, row y becomes old y ++ old y+1 and later rows shift down in order; otherwise only row y changes |
| `Documents.RemovedLine` | src/document.rs:161-167 | in range: exactly row y is removed and the others keep their order; out of range: unchanged |
| `Documents.InsertThenDelete` | src/document.rs:121-159 | inserting a character into an existing row and deleting at the same position restores all rows |
| `Documents.NewlineThenDelete` | src/document.rs:143-185 | breaking an existing row at a column ≤ its length and deleting at the break position joins it again |
| `Documents.NewlinePastRowEndThenDelete` | src/document.rs:143-185 | breaking an existing row past its end and deleting at the same position never restores the rows: one empty row after it remains |
| `Documents.NewlineBelowLastRowThenDelete` | src/document.rs:143-185 | a line break on the line after the last row and a delete there leave `rows + [[]]`, at every column |
| `Documents.InsertPastRowEndThenDelete` | src/document.rs:121-159 | typing past the end of an existing row and deleting at the same position never restores the rows: one column after the end with a next row the two rows are joined, otherwise the character stays at the row's end |
| `Documents.InsertBelowLastRowThenDelete` | src/document.rs:121-159 | typing on the line after the last row and deleting at the same position never restores the rows: an empty row is left at column 0, the new one-character row at any other column |
| `Documents.InsertThenDeleteJoinsExample` | src/document.rs:121-159 | "x" typed at (3,0) of ["ab", "c"] gives ["abx", "c"], and deleting at (3,0) then gives ["abxc"] |
| `Documents.ScanForwardFirst` | src/document.rs:206-217 | the forward scan returns the first occurrence from the start, in reading order; for a non-empty query, none only when no occurrence lies after the start |
| `Documents.ScanBackwardNearest` | src/document.rs:206-224 | the backward scan returns the nearest occurrence at or before the start within rows ≥ 1; for a non-empty query and a start column ≤ the row length, none only when that range holds none |
| `Documents.SearchResultInDocument` | src/document.rs:187-230 | a start row past the end finds nothing; any result lies on an existing row at a column ≤ its length where the query occurs |
| `Documents.SearchForwardFirstMatch` | src/document.rs:194-217 | for a start on an existing row and a non-empty query: a forward result is at or after the start (no wraparound) and is the first match; no result iff no match from the start to the end |
| `Documents.SearchBackwardNearestMatch` | src/document.rs:194-224 | for a start on an existing row at a column ≤ its length and a non-empty query: a backward result is at or before the start and never in row 0; start row 0 finds nothing; no result iff rows 1..y hold no match at or before the start |
| `Documents.SearchBackwardPastRowEnd` | src/document.rs:206-224 | a backward start past the end of its row skips that row: in row 0 it finds nothing, otherwise it is the search from the end of the row above |
| `Documents.SearchBackwardPastRowEndExample` | src/document.rs:206-224 | in ["", "ab", "ab"], "b" backward from (2,2) is found at (1,2), but from (5,2) only at (1,1) |
| `Documents.ScanBackwardToTopNearest` | src/document.rs:197-224 | the backward scan down to row 0, from a column ≤ the row length with a non-empty query, returns the nearest occurrence at or before the start and none iff rows 0..y hold none there |
| `Documents.BackwardSearchMissesRowZero` | src/document.rs:206-224 | "a" occurs at (0,0) of ["a", "b"], yet the backward search from (1,1) finds nothing, while the scan down to row 0 finds (0,0) |
| `Documents.BackwardIgnoresRowZero` | src/document.rs:197-224 | replacing row 0 never changes a backward search |
| `Documents.SearchHelloExample` | src/document.rs:187-230 | in the row "hello", "l" is found at (2,0) from (0,0), at (3,0) from (3,0), and not from (4,0) |
| `Documents.SerializedLength` | src/document.rs:98-101 | the text written has one character per row more than the rows' total character count |
| `Documents.SaveResult` | src/document.rs:94-115 | save succeeds exactly when there is a name and the write succeeds; without a name it fails with `NoFileName`, and a failed write with a name gives `WriteFailed`; a successful save reports the name, the row count and a byte count equal to the length of the text written (each row plus a line break) |
| `Documents.Document.Default` | src/document.rs:8-14 | the default document has no rows and no name, and is clean |
| `Documents.Document.From` | src/document.rs:17-30 | a new document is empty and dirty, and is named unless the name is empty |
| `Documents.Document.Row` | src/document.rs:117-119 | a row is returned exactly when the index is in range |
| `Documents.Document.Len` | src/document.rs:236-238 | the row count, 0 exactly for an empty document |
| `Documents.Document.IsEmpty` | src/document.rs:232-234 | true exactly when there are no rows |
| `Documents.Document.IsDirty` | src/document.rs:239-241 | the dirty flag |
| `Documents.Document.Insert` | src/document.rs:121-141 | rows become `InsertedRows`; dirty is set exactly when y ≤ len and is untouched otherwise |
| `Documents.Document.Delete` | src/document.rs:143-159 | rows become `DeletedRows`; dirty is set exactly when y < len |
| `Documents.Document.DeleteLine` | src/document.rs:161-167 | rows become `RemovedLine`; dirty is set exactly when y < len |
| `Documents.Document.InsertNewline` | src/document.rs:169-185 | rows become `NewlineRows`; only `rows` may change, so dirty is never set here |
| `Documents.Document.Find` | src/document.rs:187-230 | the loop returns the `Search` result |
| `Documents.Document.SizeInBytes` | src/document.rs:249-255 | row count plus the total character count (0 for an empty document) |
| `Documents.Document.Save` | src/document.rs:94-115 | the result is `SaveResult` for the current name; the document is not changed |
| `Documents.Document.SaveAs` | src/document.rs:50-92 | empty and clean: `Err`, nothing changes; another name than the current one: written under that name, and the name and dirty flag are restored on Ok and Err; the same name: dirty cleared; no name yet: name set and dirty cleared; no argument: dirty cleared only on success |
| `Editors.ModeNamesDistinct` | src/editor.rs:23-31 | no two modes share the name the status bar shows |
| `Editors.Moved` | src/editor.rs:174-241 | after a move the column is at most the length of the new row (0 past the last row); a cursor with y ≤ len keeps y ≤ len for every key |
| `Editors.MoveLeft` | src/editor.rs:190-201 | Left or `h`: x > 0 moves one left; at x = 0, y > 0 goes to the end of the previous row; (0,0) stays |
| `Editors.MoveRight` | src/editor.rs:202-209 | Right or `l`: x < length moves one right; at the end of a row with y < len goes to (0, y+1), the line past the last row included; at y = len nothing moves |
| `Editors.MoveHomeEnd` | src/editor.rs:224-225 | Home sets x to 0; End sets x to the row length |
| `Editors.MoveVertical` | src/editor.rs:184-189 | Up/`k`, Down/`j`, PageUp and PageDown change y within [0, len] (Down guarded, PageDown capped at len, Up and PageUp stop at 0) and clamp x to the new row |
| `Editors.ScrollAxis` | src/editor.rs:157-172 | for a window of height ≥ 1, offset ≤ cursor < offset + height afterwards; a cursor already inside leaves the offset unchanged |
| `Editors.ScrollMovesLeast` | src/editor.rs:162-171 | the new window is the one nearest the old offset among all windows that show the cursor |
| `Editors.ScrollIdempotent` | src/editor.rs:162-171 | scrolling a second time changes nothing (height ≥ 1) |
| `Editors.ScrollEmptyWindowOscillates` | src/editor.rs:164-165 | with height 0 every scroll moves the offset again, so the height ≥ 1 precondition is needed |
| `Editors.ScrollExample` | src/editor.rs:162-166 | height 10, offset 0, cursor row 15 gives offset 6 |
| `Editors.NextMode` | src/editor.rs:124-152 | Normal + `i` → Insert; Insert + Esc → Normal; every other key leaves the mode as it is |
| `Editors.OnlyNormalAndInsertReachable` | src/editor.rs:125-128 | from Normal or Insert, no key sequence reaches Command or Visual |
| `Editors.CommandAndVisualAbsorb` | src/editor.rs:151 | Command and Visual ignore every key sequence |
| `Editors.Editor.constructor` | src/editor.rs:78-100 | the editor starts in Normal mode at (0,0) with offset (0,0), not quitting |
| `Editors.Editor.Scroll` | src/editor.rs:157-172 | the offset becomes `ScrollAxis` of each axis, x against the width and y against the height |
| `Editors.Editor.MoveCursor` | src/editor.rs:174-241 | the cursor becomes `Moved` of the old cursor |
| `Editors.Editor.ProcessKeypress` | src/editor.rs:121-155 | the mode follows `NextMode`; Ctrl-q in Normal sets `shouldQuit`, which then stays set; only Normal's movement keys and Insert's arrows move the cursor; the document is never edited; scroll runs after every key, so for height and width ≥ 1 the cursor stays in view; a valid cursor stays valid |
| `Editors.Truncate` | src/editor.rs:284 | the result is the prefix of length min(length, n) |
| `Editors.Decimal` | src/editor.rs:286-294 | the line count and row number as `format!` prints them: at least one digit, no leading zero, and the digits denote the number |
| `Editors.NamePart` | src/editor.rs:281-285 | "[No Name]" without a name; otherwise the name cut to at most 20 characters |
| `Editors.StatusLineAsWritten` | src/editor.rs:278-300 | as written, the bar panics exactly when len < width < len + mode-indicator length; otherwise it is exactly `width` characters wide |
| `Editors.StatusLine` | src/editor.rs:286-300 | with saturating padding, the line is exactly `width` characters wide and starts with the status text; when it fits, spaces follow the text up to the mode indicator, which is followed by the line indicator at the end; when it does not fit, it is text, mode indicator and line indicator cut to the width |
| `Editors.StatusLineAgrees` | src/editor.rs:295-300 | whenever the code as written draws a line, it is the corrected line |
| `Editors.StatusLineUnderflows` | src/editor.rs:296-297 | "notes.txt", 3 lines, Normal, row 0, width 25: as written it panics; the corrected line is 25 wide |

## Left out

- src/terminal.rs: raw-mode setup, escape sequences, key reading, cursor styling and flushing are I/O. The terminal size is a `TerminalSize` parameter. Its height (terminal rows − 2, saturating) can be 0.
- `Document::open` and the filesystem side of `save`: reading the file, `File::create` and `write_all`. Whether creating and writing the file succeeds is the `writeOk` parameter. The text written is `Serialized(rows)`, and a failed write is one `WriteFailed` outcome.
- The wording of `save`'s message (`"name" nL, nB written`) is not modelled. `Written` carries the name, line count and byte count that the message shows.
- `FileType`: `save` re-deriving the file type, `Document::file_type`, and the highlight options.
- `Document::highlight` and every per-row `highlight` call: they refresh a cache that does not change content.
- `Row` itself: its render string, tab expansion, highlight classification and grapheme handling. Only the content semantics listed above are modelled, as assumptions.
- Rows.Find: assumed semantics, because `Row::find` is not part of this model. A Backward match may start at the start column itself.
- `Editor::run`, `Editor::default`'s reading of the program arguments and opening of the file, `die`/`exit`, and `refresh_screen`, `draw_rows`, `draw_row`, `draw_welcome_message` and `draw_message_bar`: these are side-effecting output.
- The status message and its 5-second expiry: it depends on the wall clock.
- The error result of `Terminal::read_key` in `process_keypress`: the key is a parameter.
- Concrete termion `Key` decoding: `Key` lists the variants that `process_keypress` matches, and `Other` stands for the rest.
- Editors.ScrollAxis: does not model saturation of `usize` at its maximum value in `saturating_add`; offsets are unbounded naturals.
- Editors.Moved: does not model saturation of `y + terminal_height` at the maximum `usize` in PageDown.
- Documents.Document.SizeInBytes: counts characters, not UTF-8 bytes, as the code does. Encoding of non-ASCII text is not modelled.
- Editors.Truncate: `String::truncate` cuts at a byte index and panics off a character boundary. The model cuts at a character index, which is the same for ASCII text.

## Findings

| source | as written | input that shows it | evidently intended | confidence | as-written member | corrected member |
|---|---|---|---|---|---|---|
| src/editor.rs:296-297 | the padding `width - len - mode_indicator.len()` is an unchecked `usize` subtraction that is guarded only by `width > len` | file "notes.txt", 3 lines, Normal mode, cursor on row 0, width 25: len = 22 and the indicator is 12 wide, so 25 − 22 − 12 underflows and the program panics | no padding when the mode indicator does not fit (saturating subtraction), so the bar is drawn truncated to the width | high (not executed) | `Editors.StatusLineAsWritten`, `Editors.StatusLineUnderflows` | `Editors.StatusLine` |
| src/document.rs:206 | for Backward the loop `for _ in start..end` has start 0 and end `at.y`, so it runs `at.y` times over the `at.y + 1` rows from `at.y` down to 0, so row 0 is never searched | rows ["a", "b"], query "a", backward from (1,1): nothing is found although "a" occurs at (0,0) | search rows `at.y` down to 0 inclusive (an inclusive range `start..=end`): the `if position.y > 0` guard at src/document.rs:219 can never be false in the loop as written (asserted in `Documents.Document.Find`), and makes sense only if the loop reaches row 0 | medium (not executed) | `Documents.ScanBackward`, `Documents.BackwardSearchMissesRowZero` | `Documents.ScanBackwardToTop`, `Documents.ScanBackwardToTopNearest` |

`Documents.Document.Find` keeps the loop as written, so the editor model searches as the code does; `ScanBackwardToTop` is the reference for the intended backward search.
