/** The editor state: the mutable line list and the caret/selection, and the
    editing operations that change them in place. */
module Editor {
  import opened TextLines
  import opened Caret
  import opened Document

  /** What `ClipboardManager.getText()` gives: no text, or some. */
  datatype Option<T> = None | Some(value: T)

  /** Kotlin's `min` on two ints. */
  function Min(a: int, b: int): int {
    if a <= b then a else b
  }

  class EditorState {
    /** The backing field `_selection`, read through the `selection` getter. */
    var selection: CaretSelection
    /** Kept equal to `selection.Normalized()` by the `selection` setter. */
    var normalizedSelection: CaretSelection
    /** The buffer, one string per line. */
    var lines: seq<string>

    /** The object invariant: the buffer is never empty, no line holds a
        line break, and the normalized copy agrees with the selection.
        Whether the selection fits the buffer is not part of it: `SetText`
        keeps a stale selection. */
    ghost predicate Valid()
      reads this
    {
      && |lines| >= 1
      && AllWithoutBreaks(lines)
      && normalizedSelection == selection.Normalized()
    }

    /** One empty line and a caret at (0, 0). */
    constructor ()
      ensures Valid()
      ensures lines == [""]
      ensures selection == Collapsed(Origin) && normalizedSelection == Collapsed(Origin)
      ensures SelectionValid(lines, selection)
    {
      selection := Collapsed(Origin);
      normalizedSelection := Collapsed(Origin);
      lines := [""];
    }

    /** The `selection` setter. */
    method SetSelection(value: CaretSelection)
      requires Valid()
      modifies this
      ensures Valid()
      ensures selection == value && normalizedSelection == value.Normalized()
      ensures lines == old(lines)
    {
      selection := value;
      normalizedSelection := selection.Normalized();
    }

    /** The lines joined by `lineSeparator`; with "\n", splitting the result
        again gives back the buffer when no line holds a break. */
    function GetText(lineSeparator: string): (text: string)
      reads this
      ensures lineSeparator == "\n" && |lines| >= 1 && AllWithoutBreaks(lines) ==> Lines(text) == lines
    {
      var text := Join(lines, lineSeparator);
      if lineSeparator == "\n" && |lines| >= 1 && AllWithoutBreaks(lines) then
        LinesJoin(lines); text
      else text
    }

    /** Replaces the buffer by the lines of `text`; the selection is left as
        it was. */
    method SetText(text: string)
      requires Valid()
      modifies this
      ensures Valid()
      ensures lines == Lines(text)
      ensures text == "" ==> lines == [""]
      ensures '\r' !in text ==> GetText("\n") == text
      ensures selection == old(selection) && normalizedSelection == old(normalizedSelection)
    {
      lines := [];
      if |text| == 0 {
        lines := lines + [""];
        return;
      }
      var split := Lines(text);
      var i := 0;
      while i < |split|
        invariant 0 <= i <= |split|
        invariant lines == split[..i]
        invariant selection == old(selection) && normalizedSelection == old(normalizedSelection)
      {
        lines := lines + [split[i]];
        i := i + 1;
      }
      assert lines == split;
      LinesHaveNoBreaks(text);
      if '\r' !in text {
        JoinLinesWithoutCR(text);
      }
    }

    /** Deletes the selected text (working on the normalized selection) and
        collapses the selection to a caret at its start. An empty selection
        leaves the buffer as it is, even when its column lies past the end
        of its row. */
    method ClearSelected()
      requires Valid() && Clearable(lines, selection)
      modifies this
      ensures Valid()
      ensures lines == Cleared(old(lines), old(normalizedSelection))
      ensures selection == Collapsed(old(normalizedSelection).from)
      ensures old(selection.from == selection.to) ==> lines == old(lines)
      ensures SelectionValid(old(lines), old(selection)) ==> SelectionValid(lines, selection)
      ensures SelectionValid(old(lines), old(normalizedSelection)) ==>
        Offset(lines, selection.from) == Offset(old(lines), old(normalizedSelection).from)
    {
      var sel := normalizedSelection;
      ghost var ls := lines;
      ghost var f, t := sel.from, sel.to;
      assert Clearable(ls, sel);
      var firstLine := sel.from.row;
      var range := sel.LineSelection(firstLine, lines[firstLine]);
      assert range == if sel.IsSingleLine() then TextRange(f.column, t.column)
                      else TextRange(f.column, |ls[f.row]|);
      if sel.from != sel.to {
        LineSelectionWithin(sel, firstLine, lines[firstLine]);
      }
      ghost var x := RemoveCharRange(ls[f.row], range.start, range.end);
      lines := lines[firstLine := RemoveCharRange(lines[firstLine], range.start, range.end)];

      if !sel.IsSingleLine() {
        var lastLine := sel.to.row;
        range := sel.LineSelection(lastLine, lines[lastLine]);
        assert range == TextRange(0, t.column);
        LineSelectionWithin(sel, lastLine, lines[lastLine]);
        lines := lines[lastLine := RemoveCharRange(lines[lastLine], range.start, range.end)];
      }

      ghost var edited := lines;
      if sel.from.row < sel.to.row {
        lines := RemoveLineRange(lines, sel.from.row + 1, sel.to.row);
      }

      assert lines == Cleared(ls, sel) by {
        if sel.IsSingleLine() {
          SpliceOneRow(ls, f.row, x);
        } else {
          var y := ls[t.row][t.column..];
          RemoveCharRangeWithin(ls[f.row], f.column, |ls[f.row]|);
          RemoveCharRangeWithin(ls[t.row], 0, t.column);
          assert x == ls[f.row][..f.column] by {
            assert ls[f.row][..f.column] + ls[f.row][|ls[f.row]|..] == ls[f.row][..f.column];
          }
          assert ls[t.row][..0] + y == y;
          assert edited == ls[f.row := x][t.row := y];
          SpliceTwoRows(ls, f.row, t.row, x, y);
        }
      }
      if SelectionValid(ls, sel) {
        ClearedCaret(ls, sel);
      }
      ClearedKeepsNoBreaks(ls, sel);
      SetSelection(Collapsed(sel.from));
    }

    /** Clears the selection, then splits the caret's line at the caret; the
        caret moves to the start of the new line. */
    method NewLine()
      requires Valid() && SelectionValid(lines, selection)
      modifies this
      ensures Valid()
      ensures var s := old(normalizedSelection);
        lines == SplitAt(Cleared(old(lines), s), s.from)
      ensures selection == Collapsed(CaretPosition(old(normalizedSelection).from.row + 1, 0))
      ensures SelectionValid(lines, selection)
    {
      ClearSelected();
      var pos := selection.from;
      var line := lines[pos.row];
      var first := line[..pos.column];
      var second := line[pos.column..];
      ghost var cleared := lines;
      lines := lines[pos.row := first];
      ghost var cut := lines;
      lines := InsertAll(lines, pos.row + 1, [second]);
      assert cut[..pos.row + 1] == cleared[..pos.row] + [first];
      assert cut[pos.row + 1..] == cleared[pos.row + 1..];
      assert lines == SplitAt(cleared, pos);
      SplitAtKeepsNoBreaks(cleared, pos);
      SetSelection(Collapsed(CaretPosition(pos.row + 1, 0)));
    }

    /** Moves the caret one row up from `selection.from`, clamping the column
        to the target line; at row 0 nothing changes. */
    method MoveUp()
      requires Valid() && selection.from.row <= |lines|
      modifies this
      ensures Valid() && lines == old(lines)
      ensures var p := old(selection.from);
        if p.row == 0 then
          selection == old(selection) && normalizedSelection == old(normalizedSelection)
        else
          && selection == Collapsed(CaretPosition(p.row - 1, Min(|lines[p.row - 1]|, p.column)))
          && SelectionValid(lines, selection)
    {
      var from := selection.from;
      if from.row == 0 {
        return;
      }
      var text := lines[from.row - 1];
      SetSelection(Collapsed(CaretPosition(from.row - 1, Min(|text|, from.column))));
    }

    /** Moves the caret one row down from `selection.to`, clamping the column
        to the target line; on the last row nothing changes. */
    method MoveDown()
      requires Valid() && selection.to.row < |lines|
      modifies this
      ensures Valid() && lines == old(lines)
      ensures var p := old(selection.to);
        if p.row == |lines| - 1 then
          selection == old(selection) && normalizedSelection == old(normalizedSelection)
        else
          && selection == Collapsed(CaretPosition(p.row + 1, Min(|lines[p.row + 1]|, p.column)))
          && SelectionValid(lines, selection)
    {
      var from := selection.to;
      if from.row == |lines| - 1 {
        return;
      }
      var text := lines[from.row + 1];
      SetSelection(Collapsed(CaretPosition(from.row + 1, Min(|text|, from.column))));
    }

    /** Puts the caret at (0, 0), the start of the document text. */
    method MoveToStart()
      requires Valid()
      modifies this
      ensures Valid() && lines == old(lines)
      ensures selection == Collapsed(Origin)
      ensures SelectionValid(lines, selection) && Offset(lines, selection.from) == 0
    {
      SetSelection(Collapsed(CaretPosition(0, 0)));
      TextEnds(lines);
    }

    /** Puts the caret after the last character of the last line, the end of
        the document text. */
    method MoveToEnd()
      requires Valid()
      modifies this
      ensures Valid() && lines == old(lines)
      ensures selection == Collapsed(EndOfText(lines))
      ensures SelectionValid(lines, selection) && Offset(lines, selection.from) == |Text(lines)|
    {
      var text := lines[|lines| - 1];
      SetSelection(Collapsed(CaretPosition(|lines| - 1, |text|)));
      TextEnds(lines);
    }

    /** Pastes the clipboard text, if there is any: clears the selection,
        then replaces the caret's line by the lines of the clipboard text,
        the first prefixed by the text before the caret and the last followed
        by the text after it. In the document text, the clipboard text (its
        breaks read as "\n") goes in at the caret, which stays where it was. */
    method Paste(clipboard: Option<string>)
      requires Valid()
      requires clipboard.Some? ==> SelectionValid(lines, selection)
      modifies this
      ensures Valid()
      ensures clipboard.None? ==>
        && lines == old(lines)
        && selection == old(selection) && normalizedSelection == old(normalizedSelection)
      ensures clipboard.Some? ==>
        var s := old(normalizedSelection);
        var c := Cleared(old(lines), s);
        && lines == Pasted(c, s.from, Lines(clipboard.value))
        && selection == Collapsed(s.from)
        && SelectionValid(lines, selection)
        && Text(lines) == Text(c)[..Offset(c, s.from)] + NormalizeBreaks(clipboard.value) + Text(c)[Offset(c, s.from)..]
    {
      if clipboard.None? {
        return;
      }
      var clipboardLines := Lines(clipboard.value);
      ClearSelected();

      var sel := selection.Normalized();
      var firstLine := lines[sel.from.row];
      var start := firstLine[..sel.from.column];
      var end := firstLine[sel.from.column..];

      var clip := clipboardLines;
      clip := clip[0 := start + clip[0]];
      clip := clip[|clip| - 1 := clip[|clip| - 1] + end];

      ghost var cleared := lines;
      lines := RemoveAt(lines, sel.from.row);
      lines := InsertAll(lines, sel.from.row, clip);
      assert lines == Pasted(cleared, sel.from, clipboardLines);
      PastedText(cleared, sel.from, clipboardLines);
      JoinLines(clipboard.value);
      LinesHaveNoBreaks(clipboard.value);
      PastedKeepsNoBreaks(cleared, sel.from, clipboardLines);
    }
  }
}
