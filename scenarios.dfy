/** Clients of `EditorState` that drive it through small worked examples;
    each outcome follows from the operations' contracts alone. */
module Scenarios {
  import opened TextLines
  import opened Caret
  import opened Document
  import opened Editor

  /** ["abc", "def"] with (0,1)..(1,2) selected: clearing leaves "a" and
      "f" on separate rows and the caret at (0,1). */
  method ClearAcrossTwoLines() {
    var e := new EditorState();
    LinesJoin(["abc", "def"]);
    assert Join(["abc", "def"], "\n") == "abc\ndef";
    e.SetText("abc\ndef");
    assert e.lines == ["abc", "def"];
    e.SetSelection(CaretSelection(CaretPosition(0, 1), CaretPosition(1, 2)));
    ghost var sel := CaretSelection(CaretPosition(0, 1), CaretPosition(1, 2));
    assert Cleared(["abc", "def"], sel) == ["a", "f"] by {
      assert "abc"[..1] == "a" && "def"[2..] == "f";
      assert ["abc", "def"][..0] == [] && ["abc", "def"][2..] == [];
    }
    e.ClearSelected();
    assert e.lines == ["a", "f"];
    assert e.selection == Collapsed(CaretPosition(0, 1));
    e.ClearSelected();
    assert e.lines == ["a", "f"];
  }

  /** ["hi"] after `setText` keeps a caret at (0,5), past the end of the
      row: clearing removes an empty range, so the row and the caret stay. */
  method ClearStaleCaret() {
    var e := new EditorState();
    LinesJoin(["hi"]);
    e.SetText("hi");
    e.SetSelection(Collapsed(CaretPosition(0, 5)));
    e.ClearSelected();
    assert e.lines == ["hi"];
    assert e.selection == Collapsed(CaretPosition(0, 5));
  }

  /** ["hello"] with the caret at (0,5): a new line appends an empty row and
      puts the caret at (1,0). */
  method NewLineAtEnd() {
    var e := new EditorState();
    LinesJoin(["hello"]);
    e.SetText("hello");
    e.MoveToEnd();
    assert e.selection == Collapsed(CaretPosition(0, 5));
    SplitAtRows(["hello"], CaretPosition(0, 5));
    e.NewLine();
    assert e.lines[0] == "hello" && e.lines[1] == "";
    assert e.lines == ["hello", ""];
    assert e.selection == Collapsed(CaretPosition(1, 0));
  }

  /** ["ab", "cd"] with the caret at (0,1): down goes to (1,1); down again on
      the last row does nothing. */
  method MoveDownTwice() {
    var e := new EditorState();
    LinesJoin(["ab", "cd"]);
    assert Join(["ab", "cd"], "\n") == "ab\ncd";
    e.SetText("ab\ncd");
    assert e.lines == ["ab", "cd"];
    e.SetSelection(Collapsed(CaretPosition(0, 1)));
    e.MoveDown();
    assert e.selection == Collapsed(CaretPosition(1, 1));
    e.MoveDown();
    assert e.selection == Collapsed(CaretPosition(1, 1));
    e.MoveUp();
    assert e.selection == Collapsed(CaretPosition(0, 1));
  }

  /** ["x"] with the caret at (0,1): pasting "A\nB" gives ["xA", "B"] and
      leaves the caret at (0,1); an empty clipboard changes nothing. */
  method PasteTwoLines() {
    var e := new EditorState();
    LinesJoin(["x"]);
    e.SetText("x");
    e.SetSelection(Collapsed(CaretPosition(0, 1)));
    LinesJoin(["A", "B"]);
    assert Join(["A", "B"], "\n") == "A\nB";
    PastedRows(["x"], CaretPosition(0, 1), ["A", "B"]);
    e.Paste(Some("A\nB"));
    assert e.lines[0] == "xA" && e.lines[1] == "B";
    assert e.lines == ["xA", "B"];
    assert e.selection == Collapsed(CaretPosition(0, 1));
    e.Paste(None);
    assert e.lines == ["xA", "B"];
  }
}
