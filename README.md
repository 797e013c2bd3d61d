# ComposeCodeEditor editor state, in Dafny

This project models the line buffer and caret/selection engine of the
ComposeCodeEditor text editor (`src/main/kotlin/EditorState.kt`). It proves
what the engine's operations do to the buffer and the caret.

- **`Caret`** (`caret.dfy`) holds the immutable value types. `CaretPosition`
  is a (row, column) pair. Its `CompareTo` orders positions by row, then by
  column. `CaretSelection` is an anchored `from`/`to` pair with
  `IsSingleLine`, `IsLineSelected`, `LineSelection` and `Normalized`.
  `TextRange` stands for Compose's range type.
- **`TextLines`** (`text_lines.dfy`) holds the Kotlin library calls the
  engine relies on, written as functions: `String.lines()` (splits on
  `\r\n`, `\n` and `\r`), `joinToString`, `CharSequence.removeRange`, and the
  list edits `removeRange`, `removeAt` and `addAll`. It also proves that
  splitting and joining are inverse to each other.
- **`Document`** (`document.dfy`) treats the buffer as a value. It defines
  which carets fit the buffer and the document text (the lines joined by
  `"\n"`). It gives the buffer that `clearSelected`, `newLine` and `paste`
  produce (`Cleared`, `SplitAt`, `Pasted`). For each one it proves the
  effect row by row and on the document text:
  - clearing deletes the text between the two selection offsets, but keeps
    one `"\n"` when the selection spans several lines;
  - a new line inserts `"\n"` at the caret;
  - paste inserts the clipboard's text at the caret.
- **`Editor`** (`editor_state.dfy`) is the class `EditorState`. It has the
  fields `lines`, `selection` (the backing `_selection`) and
  `normalizedSelection`, and the object invariant `Valid()`: the buffer is
  never empty, no line holds a line break, and
  `normalizedSelection == selection.Normalized()`. Each editing method
  changes the fields in place, the way the Kotlin code does. Its `ensures`
  tie the new state to the `Document` function of the old state.
- **`Scenarios`** (`scenarios.dfy`) holds client methods that drive small
  worked examples through `EditorState`. Their outcomes follow from the
  contracts alone.

Modelling decisions:

- A `Line` is modelled as its text only.
- The clipboard is a parameter: `None` when `hasText()` is false or
  `getText()` is null, otherwise `Some(text)`. `Paste` splits the text with
  `lines()` itself. `lines()` never yields an empty list, so the Kotlin check
  `clipboardLines.isEmpty()` (`EditorState.kt:148`) never fires and has no
  counterpart.
- Where the Kotlin code would throw (`IndexOutOfBoundsException`, a
  `substring` past the end, or `removeRange` with `end < start` or a
  non-empty range outside the text), the method has a `requires` clause that
  excludes exactly those inputs. That is why:
  - `ClearSelected` needs both rows inside the buffer, and both columns
    within their rows only when something is selected (`Clearable`).
    `removeRange` returns the text unchanged for an empty range without
    checking it, so a caret past the end of its row is cleared as a no-op;
  - `NewLine` needs a selection that fits the buffer, since after clearing
    it cuts the row at the caret with `substring`;
  - `MoveUp` needs only `selection.from.row <= lines.size`;
  - `MoveDown` needs only `selection.to.row < lines.size`;
  - `Paste` needs a selection that fits the buffer only when the clipboard
    has text.
- Whether the selection fits the buffer is not part of `Valid()`, because
  `setText` (`EditorState.kt:78-86`) keeps the old selection. Operations that
  index with the selection take what they need of that fit as a
  precondition.
- That no line holds a line break is part of `Valid()`. Every line comes
  from `lines()` or from a piece of an existing line, and the
  `...KeepsNoBreaks` lemmas prove that each edit keeps it.

Behaviour of the code worth noting:

- Splitting and joining give the text back only when it has no `"\r"`.
  `lines()` also splits on `"\r\n"` and `"\r"`, so re-joining with `"\n"`
  gives the text with those breaks turned into `"\n"`. `JoinLines` proves
  exactly that.
- `setText` does not reset the selection.
- At row 0 (`moveUp`) and on the last row (`moveDown`), a move leaves even a
  non-collapsed selection exactly as it was. It does not collapse it.
- After `paste`, the caret stays at the start of the pasted text.

## Model

| member | source | states |
|---|---|---|
| `Caret.CaretPosition.CompareTo` | src/main/kotlin/EditorState.kt:15-20 | the result is 0 exactly when the positions are equal, negative exactly when this one is on an earlier row or on the same row at an earlier column, and positive in the mirrored case |
| `Caret.CompareToAntisymmetric` | src/main/kotlin/EditorState.kt:16-20 | swapping the operands of `compareTo` flips the sign and keeps zero at zero |
| `Caret.CompareToTransitive` | src/main/kotlin/EditorState.kt:16-20 | `<=` and `<` on positions are transitive |
| `Caret.CompareToTotal` | src/main/kotlin/EditorState.kt:16-20 | any two positions are ordered one way, equal, or ordered the other way, and never both ways |
| `Caret.CaretSelection.IsSingleLine` | src/main/kotlin/EditorState.kt:28 | both endpoints on one row; such a selection is in document order exactly when `from.column <= to.column` |
| `Caret.CaretSelection.IsLineSelected` | src/main/kotlin/EditorState.kt:30-32 | row i lies between the endpoints' rows as given; when `to` is on an earlier row than `from`, no row is selected |
| `Caret.Collapsed` | src/main/kotlin/EditorState.kt:25-26 | `CaretSelection(position)` is normalized, single-line, and covers no position |
| `Caret.CaretSelection.LineSelection` | src/main/kotlin/EditorState.kt:30-42 | a row outside `[from.row, to.row]` (`isLineSelected` false) gets `TextRange.Zero`; ends are never negative |
| `Caret.LineSelectionWithin` | src/main/kotlin/EditorState.kt:34-42 | for a normalized selection whose endpoints fit their rows, the range satisfies `0 <= start <= end <= text.length` |
| `Caret.LineSelectionCovers` | src/main/kotlin/EditorState.kt:34-42 | for a normalized selection, column k of row i is inside the returned range exactly when position (i, k) lies in [from, to): the whole of interior rows, from `from.column` on the first row, up to `to.column` on the last row |
| `Caret.CaretSelection.Normalized` | src/main/kotlin/EditorState.kt:44-46 | the result has `from <= to` in document order, has the same two endpoints (kept or swapped), and is the selection itself when it is already in order |
| `Caret.NormalizedIdempotent` | src/main/kotlin/EditorState.kt:44-46 | normalizing twice is normalizing once |
| `Caret.NormalizedKeepsSpan` | src/main/kotlin/EditorState.kt:28-46 | normalizing keeps `isSingleLine`, and the normalized selection covers exactly the positions from the earlier endpoint (inclusive) to the later one (exclusive), whichever of `from` and `to` comes first |
| `Caret.NormalizedLineSelected` | src/main/kotlin/EditorState.kt:30-46 | on the normalized selection, `isLineSelected(i)` holds exactly when row i lies between the two endpoints' rows, in either order |
| `Caret.CollapsedIsNormalized` | src/main/kotlin/EditorState.kt:59-68 | a caret is its own normalization, so the initial `_selection` and `normalizedSelection` agree |
| `TextLines.Lines` | src/main/kotlin/EditorState.kt:85 | `String.lines()` always yields at least one line |
| `TextLines.LinesHaveNoBreaks` | src/main/kotlin/EditorState.kt:85 | no line produced by `lines()` contains `\n` or `\r` |
| `TextLines.Join` | src/main/kotlin/EditorState.kt:76 | `joinToString(separator)`: the elements with the separator between consecutive ones (definition; its properties are the lemmas below) |
| `TextLines.JoinStartsWithFirst` | src/main/kotlin/EditorState.kt:76 | the joined text starts with the first line |
| `TextLines.JoinEndsWithLast` | src/main/kotlin/EditorState.kt:76 | the joined text ends with the last line |
| `TextLines.JoinLines` | src/main/kotlin/EditorState.kt:76-86 | joining the lines of any text with `"\n"` gives the text with every `\r\n` and lone `\r` read as `\n` |
| `TextLines.JoinLinesWithoutCR` | src/main/kotlin/EditorState.kt:76-86 | for text without `\r`, `getText("\n")` after `setText(t)` is `t` |
| `TextLines.LinesJoin` | src/main/kotlin/EditorState.kt:76-86 | splitting the `"\n"`-join of break-free lines gives back those lines |
| `TextLines.RemoveCharRange` | src/main/kotlin/EditorState.kt:92-100 | `removeRange(start, end)` with `start <= end`: an empty range gives the text back whatever its bounds; a range within the text keeps the first `start` characters and continues with the characters from `end`, shortening the text by `end - start` |
| `TextLines.RemoveLineRange` | src/main/kotlin/EditorState.kt:103-105 | `lines.removeRange(from, to)` removes exactly the rows `from..to-1` and shifts the later rows down |
| `TextLines.RemoveAt` | src/main/kotlin/EditorState.kt:160 | `removeAt(i)` removes row i and shifts the later rows down by one |
| `TextLines.InsertAll` | src/main/kotlin/EditorState.kt:161 | `addAll(i, xs)` puts `xs` at index i, keeping the rows before and shifting the rest by `xs.size` |
| `Document.Cleared` | src/main/kotlin/EditorState.kt:88-109 | the buffer after clearing the normalized selection: the same number of rows for a single-line selection, `to.row - from.row - 1` fewer otherwise; an empty selection leaves the buffer unchanged (even past the end of its row); the start position stays valid when it was |
| `Document.ClearedRows` | src/main/kotlin/EditorState.kt:88-109 | single-line: row r becomes `text[..from.col] + text[to.col..]` and the count is unchanged; multi-line: row `from.row` keeps `text[..from.col]`, the next row is the old `to.row` cut to `text[to.col..]` (not joined), the rows strictly between are gone, the count drops by `to.row - from.row - 1`; the rows before and after the span are unchanged |
| `Document.ClearedText` | src/main/kotlin/EditorState.kt:88-109 | on the document text, clearing removes everything between the offsets of `from` and `to`, leaving one `"\n"` when the selection spans several rows |
| `Document.ClearedCaret` | src/main/kotlin/EditorState.kt:103-108 | the caret at the normalized start is valid after clearing and keeps its document offset |
| `Document.ClearedKeepsNoBreaks` | src/main/kotlin/EditorState.kt:88-109 | clearing keeps every row free of line breaks |
| `Document.ClearedIdempotent` | src/main/kotlin/EditorState.kt:88-109 | a second `clearSelected` (which sees the collapsed caret) changes nothing |
| `Document.SplitAt` | src/main/kotlin/EditorState.kt:111-120 | one more row; the caret's row and the next one concatenate to the old row; (row + 1, 0) fits the new buffer |
| `Document.SplitAtRows` | src/main/kotlin/EditorState.kt:113-118 | splitting adds one row: row r is `text[..c]`, row r+1 is `text[c..]`, their concatenation is the old row, and the rows before and after are unchanged (the later ones shifted by one) |
| `Document.SplitAtText` | src/main/kotlin/EditorState.kt:111-119 | on the document text, a new line inserts one `"\n"` at the caret's offset, and (r+1, 0) is valid and lies right after it |
| `Document.SplitAtKeepsNoBreaks` | src/main/kotlin/EditorState.kt:111-120 | splitting a row keeps every row free of line breaks |
| `Document.Pasted` | src/main/kotlin/EditorState.kt:145-163 | the buffer after pasting k lines at caret p has `size - 1 + k` rows, and p still fits it |
| `Document.PastedRows` | src/main/kotlin/EditorState.kt:151-161 | pasting k lines gives old count - 1 + k rows: rows before r unchanged; for k = 1 row r is `prefix + clip[0] + suffix`; otherwise row r is `prefix + clip[0]`, the middle rows are `clip[1..k-2]` and row r+k-1 is `clip[k-1] + suffix`; the later rows are shifted by k - 1 |
| `Document.Merged` | src/main/kotlin/EditorState.kt:157-158 | after the two in-place updates the clipboard still has the same number of lines, and they join to `prefix + join(clip) + suffix` |
| `Document.PastedText` | src/main/kotlin/EditorState.kt:145-163 | on the document text, paste inserts the `"\n"`-join of the clipboard lines at the caret's offset, and the caret stays valid at the same offset (before the pasted text) |
| `Document.PastedKeepsNoBreaks` | src/main/kotlin/EditorState.kt:145-163 | pasting break-free clipboard lines keeps every row free of line breaks |
| `Document.TextEnds` | src/main/kotlin/EditorState.kt:136-143 | (0, 0) is valid and at offset 0; (last row, its length) is valid and at the end of the document text |
| `Editor.EditorState.constructor` | src/main/kotlin/EditorState.kt:59-74 | starts with one empty line and a caret at (0, 0) that fits it, with `normalizedSelection` already equal to `selection.normalized()`; the invariant holds |
| `Editor.EditorState.SetSelection` | src/main/kotlin/EditorState.kt:61-66 | the setter stores the value and sets `normalizedSelection` to its normalization; the lines do not change and the invariant is kept |
| `Editor.EditorState.GetText` | src/main/kotlin/EditorState.kt:76 | with `"\n"`, splitting the result again gives back the buffer when no line contains a break |
| `Editor.EditorState.SetText` | src/main/kotlin/EditorState.kt:78-86 | the buffer becomes `lines()` of the text (exactly `[""]` for empty text), so it is never empty and no line holds a break; `getText("\n")` returns the text when it has no `\r`; the selection is untouched |
| `Editor.EditorState.ClearSelected` | src/main/kotlin/EditorState.kt:88-109 | accepts exactly the selections Kotlin does not throw on (`Clearable`); works on `normalizedSelection`; the new buffer is `Cleared(old buffer, old normalized selection)`, the old buffer itself when nothing was selected; the selection collapses to the normalized start, which fits the new buffer and keeps its document offset when the old selection fitted; the invariant is kept |
| `Editor.EditorState.NewLine` | src/main/kotlin/EditorState.kt:111-120 | the new buffer is the cleared buffer split at the normalized start; the caret is (start.row + 1, 0) and fits the buffer |
| `Editor.EditorState.MoveUp` | src/main/kotlin/EditorState.kt:122-127 | reads `selection.from`; at row 0 the selection is left exactly as it was; otherwise the caret collapses to (row - 1, min(target length, column)), which fits the buffer; the buffer never changes |
| `Editor.EditorState.MoveDown` | src/main/kotlin/EditorState.kt:129-134 | reads `selection.to`; on the last row the selection is left exactly as it was; otherwise the caret collapses to (row + 1, min(target length, column)), which fits the buffer; the buffer never changes |
| `Editor.EditorState.MoveToStart` | src/main/kotlin/EditorState.kt:136-138 | the caret becomes (0, 0), at the start of the document text; the buffer is unchanged |
| `Editor.EditorState.MoveToEnd` | src/main/kotlin/EditorState.kt:140-143 | the caret becomes (last row, length of the last line), at the end of the document text; the buffer is unchanged |
| `Editor.EditorState.Paste` | src/main/kotlin/EditorState.kt:145-163 | a clipboard without text changes nothing; otherwise the new buffer is `Pasted(Cleared(old buffer, old normalized selection), start, lines(text))`, its document text is the cleared text with the clipboard text (breaks read as `"\n"`) inserted at the caret's offset, the caret stays at the normalized start, which still fits, and the invariant is kept |

## Left out

- Key-event dispatch (`onKeyEvent`, `src/main/kotlin/EditorState.kt:166-197`): it only routes Compose `KeyEvent`s to the operations above.
- Per-line presentation attachments of `Line` (focus requester, text layout, layout coordinates, `getCharAtPosition`): they belong to the rendering layer and involve floating-point geometry.
- The `currentHoveredElement` and `keyEvent` properties: UI state and wiring.
- Compose snapshot-state observation (`mutableStateOf`, `mutableStateListOf`): modelled as plain fields and a sequence. No change notification is modelled.
- `ClipboardManager`: a foreign API. `Paste` takes its text as a parameter, `None` when `hasText()` is false or `getText()` is null.
- The debug `println` in `clearSelected`: console output.
- `src/main/kotlin/Editor.kt` (the Compose UI, including the single-line replacement in `onValueChange`) and `src/main/kotlin/Main.kt` (window bootstrap and a file read) are not part of this model. They are UI and I/O. `Valid()` takes it that this code writes no line break into a line.
- Runtime exceptions for stale or invalid indices are preconditions, not modelled error results.
- Row and column are unbounded natural numbers. Kotlin's 32-bit `Int` overflow (at 2^31 rows or columns) and negative positions are not modelled. Compose's `TextRange` check against negative ends is therefore never reached.
- `Caret.CaretPosition.CompareTo`: states only the sign of the result, not the exact -1/0/1 values of Kotlin's `Int.compareTo`, because every caller uses only the sign.
