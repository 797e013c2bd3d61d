/** The line buffer as a value: which carets fit it, the whole-document text
    it stands for, and the buffer that each editing operation of the editor
    state produces, with what that edit means for the document text. */
module Document {
  import opened TextLines
  import opened Caret

  /** Row inside the buffer, column at most the row's length. */
  predicate PositionValid(ls: seq<string>, p: CaretPosition) {
    p.row < |ls| && p.column <= |ls[p.row]|
  }

  predicate SelectionValid(ls: seq<string>, s: CaretSelection) {
    PositionValid(ls, s.from) && PositionValid(ls, s.to)
  }

  /** The document text, as `getText()` gives it with its default "\n". */
  function Text(ls: seq<string>): string {
    Join(ls, "\n")
  }

  /** Rows lo..hi of `ls` replaced by `m`. */
  function Splice(ls: seq<string>, lo: nat, hi: nat, m: seq<string>): (r: seq<string>)
    requires lo <= hi < |ls|
    ensures |r| == |ls| - (hi - lo + 1) + |m|
  {
    ls[..lo] + m + ls[hi + 1..]
  }

  /** What each row of a spliced buffer holds. */
  lemma SpliceRows(ls: seq<string>, lo: nat, hi: nat, m: seq<string>)
    requires lo <= hi < |ls|
    ensures var r := Splice(ls, lo, hi, m);
      && (forall i :: 0 <= i < lo ==> r[i] == ls[i])
      && (forall j :: 0 <= j < |m| ==> r[lo + j] == m[j])
      && (forall i :: hi < i < |ls| ==> r[i - (hi - lo + 1) + |m|] == ls[i])
  {
  }

  /** The document text before row `r`, including the break that ends row r-1. */
  function Before(ls: seq<string>, r: nat): string
    requires r < |ls|
  {
    if r == 0 then "" else Join(ls[..r], "\n") + "\n"
  }

  /** The document text after row `r`, including the break that ends row r. */
  function After(ls: seq<string>, r: nat): string
    requires r < |ls|
  {
    if r == |ls| - 1 then "" else "\n" + Join(ls[r + 1..], "\n")
  }

  /** The index in the document text of the character slot `p`. */
  function Offset(ls: seq<string>, p: CaretPosition): (r: nat)
    requires PositionValid(ls, p)
    ensures r <= |Text(ls)|
  {
    TextAround(ls, p.row);
    |Before(ls, p.row)| + p.column
  }

  // ---------------------------------------------------------------------
  // Document text of a spliced buffer
  // ---------------------------------------------------------------------

  /** Appending the rows after `hi` appends the text after `hi`. */
  lemma TextWithAfter(ls: seq<string>, hi: nat, m: seq<string>)
    requires hi < |ls| && |m| >= 1
    ensures Text(m + ls[hi + 1..]) == Text(m) + After(ls, hi)
  {
    if hi < |ls| - 1 {
      JoinConcat(m, ls[hi + 1..], "\n");
    } else {
      assert m + ls[hi + 1..] == m;
    }
  }

  /** Prepending the rows before `lo` prepends the text before `lo`. */
  lemma TextWithBefore(ls: seq<string>, lo: nat, x: seq<string>)
    requires lo < |ls| && |x| >= 1
    ensures Text(ls[..lo] + x) == Before(ls, lo) + Text(x)
  {
    if lo > 0 {
      JoinConcat(ls[..lo], x, "\n");
    } else {
      assert ls[..lo] + x == x;
    }
  }

  /** Replacing rows lo..hi by `m` replaces their text by the join of `m`. */
  lemma SpliceText(ls: seq<string>, lo: nat, hi: nat, m: seq<string>)
    requires lo <= hi < |ls| && |m| >= 1
    ensures Text(Splice(ls, lo, hi, m)) == Before(ls, lo) + Text(m) + After(ls, hi)
  {
    var x := m + ls[hi + 1..];
    assert Splice(ls, lo, hi, m) == ls[..lo] + x;
    TextWithAfter(ls, hi, m);
    TextWithBefore(ls, lo, x);
  }

  lemma TextOfPair(x: string, y: string)
    ensures Text([x, y]) == x + "\n" + y
  {
    JoinCons(x, [y], "\n");
    assert [x] + [y] == [x, y];
  }

  /** The document text is the text before row `r`, row `r`, and the text
      after it. */
  lemma TextAround(ls: seq<string>, r: nat)
    requires r < |ls|
    ensures Text(ls) == Before(ls, r) + ls[r] + After(ls, r)
  {
    assert Splice(ls, r, r, [ls[r]]) == ls;
    SpliceText(ls, r, r, [ls[r]]);
  }

  /** `Offset` cuts the document text exactly at the caret. */
  lemma TextAtOffset(ls: seq<string>, p: CaretPosition)
    requires PositionValid(ls, p)
    ensures Offset(ls, p) <= |Text(ls)|
    ensures Text(ls)[..Offset(ls, p)] == Before(ls, p.row) + ls[p.row][..p.column]
    ensures Text(ls)[Offset(ls, p)..] == ls[p.row][p.column..] + After(ls, p.row)
  {
    var b, l, a := Before(ls, p.row), ls[p.row], After(ls, p.row);
    TextAround(ls, p.row);
    assert Text(ls) == (b + l[..p.column]) + (l[p.column..] + a) by {
      assert l == l[..p.column] + l[p.column..];
    }
  }

  /** Rows before `lo` keep their text, so positions on them keep their offset. */
  lemma SpliceKeepsBefore(ls: seq<string>, lo: nat, hi: nat, m: seq<string>)
    requires lo <= hi < |ls| && |m| >= 1
    ensures Before(Splice(ls, lo, hi, m), lo) == Before(ls, lo)
  {
    assert Splice(ls, lo, hi, m)[..lo] == ls[..lo];
  }

  // ---------------------------------------------------------------------
  // clearSelected
  // ---------------------------------------------------------------------

  /** The selections `clearSelected` accepts: both rows inside the buffer
      and, unless nothing is selected, both columns within their rows. An
      empty selection removes an empty range, which Kotlin does without
      looking at the column. */
  predicate Clearable(ls: seq<string>, s: CaretSelection) {
    s.from.row < |ls| && s.to.row < |ls| && (s.from == s.to || SelectionValid(ls, s))
  }

  /** The buffer after `clearSelected` on the normalized selection `s`: the
      selected text leaves the first row and the last row, the rows strictly
      between are dropped, and the first and last rows are not joined. */
  function Cleared(ls: seq<string>, s: CaretSelection): (r: seq<string>)
    requires Clearable(ls, s) && s.IsNormalized()
    ensures |r| == if s.IsSingleLine() then |ls| else |ls| - (s.to.row - s.from.row - 1)
    ensures s.from == s.to ==> r == ls
    ensures PositionValid(ls, s.from) ==> PositionValid(r, s.from)
  {
    var f, t := s.from, s.to;
    if f.row == t.row then
      var r := Splice(ls, f.row, f.row, [RemoveCharRange(ls[f.row], f.column, t.column)]);
      assert f == t ==> r == ls by {
        if f == t { assert ls[..f.row] + [ls[f.row]] + ls[f.row + 1..] == ls; }
      }
      r
    else
      Splice(ls, f.row, t.row, [ls[f.row][..f.column], ls[t.row][t.column..]])
  }

  /** Rewriting one row in place splices that row. */
  lemma SpliceOneRow(ls: seq<string>, i: nat, x: string)
    requires i < |ls|
    ensures ls[i := x] == Splice(ls, i, i, [x])
  {
    assert ls[i := x] == ls[..i] + [x] + ls[i + 1..];
  }

  /** Rewriting the first and last rows of a span in place and then dropping
      the rows strictly between them splices the two new rows in. */
  lemma SpliceTwoRows(ls: seq<string>, lo: nat, hi: nat, x: string, y: string)
    requires lo < hi < |ls|
    ensures RemoveLineRange(ls[lo := x][hi := y], lo + 1, hi) == Splice(ls, lo, hi, [x, y])
  {
    var both := ls[lo := x][hi := y];
    assert both[..lo + 1] == ls[..lo] + [x];
    assert both[hi..] == [y] + ls[hi + 1..];
  }

  /** Row by row: what is left of the first and last rows, rows outside the
      span unchanged, and the line count. */
  lemma ClearedRows(ls: seq<string>, s: CaretSelection)
    requires SelectionValid(ls, s) && s.IsNormalized()
    ensures var r, f, t := Cleared(ls, s), s.from, s.to;
      && (forall i :: 0 <= i < f.row ==> r[i] == ls[i])
      && (s.IsSingleLine() ==>
            && |r| == |ls|
            && r[f.row] == ls[f.row][..f.column] + ls[f.row][t.column..]
            && (forall i :: f.row < i < |ls| ==> r[i] == ls[i]))
      && (!s.IsSingleLine() ==>
            && |r| == |ls| - (t.row - f.row - 1)
            && r[f.row] == ls[f.row][..f.column]
            && r[f.row + 1] == ls[t.row][t.column..]
            && (forall i :: t.row < i < |ls| ==> r[i - (t.row - f.row - 1)] == ls[i]))
  {
    if s.IsSingleLine() {
      RemoveCharRangeWithin(ls[s.from.row], s.from.column, s.to.column);
    }
  }

  /** In the document text, clearing deletes the characters from the start
      offset to the end offset; a multi-line selection keeps one "\n" because
      the first and last rows stay separate lines. */
  lemma ClearedText(ls: seq<string>, s: CaretSelection)
    requires SelectionValid(ls, s) && s.IsNormalized()
    ensures Text(Cleared(ls, s)) ==
            Text(ls)[..Offset(ls, s.from)]
            + (if s.IsSingleLine() then "" else "\n")
            + Text(ls)[Offset(ls, s.to)..]
  {
    var f, t := s.from, s.to;
    var first, last := ls[f.row][..f.column], ls[t.row][t.column..];
    var sep := if s.IsSingleLine() then "" else "\n";
    var m := if s.IsSingleLine() then [first + last] else [first, last];
    assert Cleared(ls, s) == Splice(ls, f.row, t.row, m) by {
      if s.IsSingleLine() {
        RemoveCharRangeWithin(ls[f.row], f.column, t.column);
      }
    }
    assert Text(m) == first + sep + last by {
      if !s.IsSingleLine() {
        TextOfPair(first, last);
      }
    }
    SpliceText(ls, f.row, t.row, m);
    TextAtOffset(ls, f);
    TextAtOffset(ls, t);
    Regroup(Before(ls, f.row), first, sep, last, After(ls, t.row));
  }

  lemma Regroup(b: string, x: string, sep: string, y: string, a: string)
    ensures b + (x + sep + y) + a == (b + x) + sep + (y + a)
  {
  }

  /** After clearing, the caret at the old start is valid and sits at the
      same document offset. */
  lemma ClearedCaret(ls: seq<string>, s: CaretSelection)
    requires SelectionValid(ls, s) && s.IsNormalized()
    ensures PositionValid(Cleared(ls, s), s.from)
    ensures Offset(Cleared(ls, s), s.from) == Offset(ls, s.from)
  {
    var f, t := s.from, s.to;
    if f.row == t.row {
      SpliceKeepsBefore(ls, f.row, f.row, [RemoveCharRange(ls[f.row], f.column, t.column)]);
    } else {
      SpliceKeepsBefore(ls, f.row, t.row, [ls[f.row][..f.column], ls[t.row][t.column..]]);
    }
  }

  /** Clearing twice is clearing once: the second call sees a caret. */
  lemma ClearedIdempotent(ls: seq<string>, s: CaretSelection)
    requires SelectionValid(ls, s) && s.IsNormalized()
    ensures Collapsed(s.from).Normalized() == Collapsed(s.from)
    ensures Cleared(Cleared(ls, s), Collapsed(s.from)) == Cleared(ls, s)
  {
    ClearedCaret(ls, s);
  }

  // ---------------------------------------------------------------------
  // newLine
  // ---------------------------------------------------------------------

  /** Row `p.row` split at `p.column`; the remainder becomes the next row. */
  function SplitAt(ls: seq<string>, p: CaretPosition): (r: seq<string>)
    requires PositionValid(ls, p)
    ensures |r| == |ls| + 1
    ensures r[p.row] + r[p.row + 1] == ls[p.row]
    ensures PositionValid(r, CaretPosition(p.row + 1, 0))
  {
    Splice(ls, p.row, p.row, [ls[p.row][..p.column], ls[p.row][p.column..]])
  }

  /** One more row; the two halves concatenate to the old row; other rows
      keep their text. */
  lemma SplitAtRows(ls: seq<string>, p: CaretPosition)
    requires PositionValid(ls, p)
    ensures var r := SplitAt(ls, p);
      && |r| == |ls| + 1
      && r[p.row] == ls[p.row][..p.column]
      && r[p.row + 1] == ls[p.row][p.column..]
      && r[p.row] + r[p.row + 1] == ls[p.row]
      && (forall i :: 0 <= i < p.row ==> r[i] == ls[i])
      && (forall i :: p.row < i < |ls| ==> r[i + 1] == ls[i])
  {
  }

  /** Splitting inserts one "\n" at the caret's offset, and column 0 of the
      next row is just after it. */
  lemma SplitAtText(ls: seq<string>, p: CaretPosition)
    requires PositionValid(ls, p)
    ensures Text(SplitAt(ls, p)) == Text(ls)[..Offset(ls, p)] + "\n" + Text(ls)[Offset(ls, p)..]
    ensures PositionValid(SplitAt(ls, p), CaretPosition(p.row + 1, 0))
    ensures Offset(SplitAt(ls, p), CaretPosition(p.row + 1, 0)) == Offset(ls, p) + 1
  {
    var first, second := ls[p.row][..p.column], ls[p.row][p.column..];
    var r := SplitAt(ls, p);
    TextAtOffset(ls, p);
    SpliceText(ls, p.row, p.row, [first, second]);
    TextOfPair(first, second);
    Regroup(Before(ls, p.row), first, "\n", second, After(ls, p.row));
    SplitAtRows(ls, p);
    SpliceKeepsBefore(ls, p.row, p.row, [first, second]);
    calc {
      Before(r, p.row + 1);
      Join(r[..p.row + 1], "\n") + "\n";
      { assert r[..p.row + 1] == r[..p.row] + [first];
        if p.row > 0 { JoinConcat(r[..p.row], [first], "\n"); } }
      Before(r, p.row) + first + "\n";
    }
  }

  // ---------------------------------------------------------------------
  // paste
  // ---------------------------------------------------------------------

  /** The clipboard lines with `prefix` put before the first and `suffix`
      after the last, updated in place in that order; their "\n"-join is the
      clipboard text between `prefix` and `suffix`. */
  function Merged(clip: seq<string>, prefix: string, suffix: string): (r: seq<string>)
    requires |clip| >= 1
    ensures |r| == |clip|
    ensures Text(r) == prefix + Text(clip) + suffix
  {
    var c := clip[0 := prefix + clip[0]];
    JoinPrefixFirst(clip, prefix, "\n");
    JoinSuffixLast(c, suffix, "\n");
    c[|c| - 1 := c[|c| - 1] + suffix]
  }

  /** The buffer after pasting `clip` at caret `p`: row `p.row` is split at
      the caret and the clipboard lines go in between. */
  function Pasted(ls: seq<string>, p: CaretPosition, clip: seq<string>): (r: seq<string>)
    requires PositionValid(ls, p) && |clip| >= 1
    ensures |r| == |ls| - 1 + |clip|
    ensures PositionValid(r, p)
  {
    Splice(ls, p.row, p.row, Merged(clip, ls[p.row][..p.column], ls[p.row][p.column..]))
  }

  /** Row by row: `k` clipboard lines replace the caret's row, the first
      carrying the text before the caret and the last the text after it. */
  lemma PastedRows(ls: seq<string>, p: CaretPosition, clip: seq<string>)
    requires PositionValid(ls, p) && |clip| >= 1
    ensures var r, k, pre, suf := Pasted(ls, p, clip), |clip|, ls[p.row][..p.column], ls[p.row][p.column..];
      && |r| == |ls| - 1 + k
      && (forall i :: 0 <= i < p.row ==> r[i] == ls[i])
      && (k == 1 ==> r[p.row] == pre + clip[0] + suf)
      && (k >= 2 ==>
            && r[p.row] == pre + clip[0]
            && (forall j :: 0 < j < k - 1 ==> r[p.row + j] == clip[j])
            && r[p.row + k - 1] == clip[k - 1] + suf)
      && (forall i :: p.row < i < |ls| ==> r[i + k - 1] == ls[i])
  {
  }

  /** In the document text, pasting inserts the "\n"-join of the clipboard
      lines at the caret's offset; the caret keeps its offset (it stays
      before the pasted text). */
  lemma PastedText(ls: seq<string>, p: CaretPosition, clip: seq<string>)
    requires PositionValid(ls, p) && |clip| >= 1
    ensures Text(Pasted(ls, p, clip)) == Text(ls)[..Offset(ls, p)] + Text(clip) + Text(ls)[Offset(ls, p)..]
    ensures PositionValid(Pasted(ls, p, clip), p)
    ensures Offset(Pasted(ls, p, clip), p) == Offset(ls, p)
  {
    var pre, suf := ls[p.row][..p.column], ls[p.row][p.column..];
    var m := Merged(clip, pre, suf);
    TextAtOffset(ls, p);
    SpliceText(ls, p.row, p.row, m);
    Regroup(Before(ls, p.row), pre, Text(clip), suf, After(ls, p.row));
    SpliceKeepsBefore(ls, p.row, p.row, m);
    PastedRows(ls, p, clip);
  }

  // ---------------------------------------------------------------------
  // No edit brings a line break into a row
  // ---------------------------------------------------------------------

  lemma SpliceKeepsNoBreaks(ls: seq<string>, lo: nat, hi: nat, m: seq<string>)
    requires lo <= hi < |ls| && AllWithoutBreaks(ls) && AllWithoutBreaks(m)
    ensures AllWithoutBreaks(Splice(ls, lo, hi, m))
  {
    SpliceRows(ls, lo, hi, m);
  }

  /** Clearing keeps every row free of line breaks. */
  lemma ClearedKeepsNoBreaks(ls: seq<string>, s: CaretSelection)
    requires Clearable(ls, s) && s.IsNormalized() && AllWithoutBreaks(ls)
    ensures AllWithoutBreaks(Cleared(ls, s))
  {
    var f, t := s.from, s.to;
    if f == t {
    } else if f.row == t.row {
      var l := ls[f.row];
      RemoveCharRangeWithin(l, f.column, t.column);
      NoBreakPieces(l, f.column);
      NoBreakPieces(l, t.column);
      SpliceKeepsNoBreaks(ls, f.row, f.row, [RemoveCharRange(l, f.column, t.column)]);
    } else {
      NoBreakPieces(ls[f.row], f.column);
      NoBreakPieces(ls[t.row], t.column);
      SpliceKeepsNoBreaks(ls, f.row, t.row, [ls[f.row][..f.column], ls[t.row][t.column..]]);
    }
  }

  /** Splitting a row keeps every row free of line breaks. */
  lemma SplitAtKeepsNoBreaks(ls: seq<string>, p: CaretPosition)
    requires PositionValid(ls, p) && AllWithoutBreaks(ls)
    ensures AllWithoutBreaks(SplitAt(ls, p))
  {
    NoBreakPieces(ls[p.row], p.column);
    SpliceKeepsNoBreaks(ls, p.row, p.row, [ls[p.row][..p.column], ls[p.row][p.column..]]);
  }

  /** Pasting break-free clipboard lines keeps every row free of line breaks. */
  lemma PastedKeepsNoBreaks(ls: seq<string>, p: CaretPosition, clip: seq<string>)
    requires PositionValid(ls, p) && |clip| >= 1
    requires AllWithoutBreaks(ls) && AllWithoutBreaks(clip)
    ensures AllWithoutBreaks(Pasted(ls, p, clip))
  {
    var pre, suf := ls[p.row][..p.column], ls[p.row][p.column..];
    NoBreakPieces(ls[p.row], p.column);
    var m := Merged(clip, pre, suf);
    assert AllWithoutBreaks(m) by {
      forall j | 0 <= j < |m| ensures HasNoBreak(m[j]) {
        assert HasNoBreak(clip[j]);
      }
    }
    SpliceKeepsNoBreaks(ls, p.row, p.row, m);
  }

  // ---------------------------------------------------------------------
  // moveToStart / moveToEnd
  // ---------------------------------------------------------------------

  /** The slot after the last character of the last row. */
  function EndOfText(ls: seq<string>): CaretPosition
    requires |ls| >= 1
  {
    CaretPosition(|ls| - 1, |ls[|ls| - 1]|)
  }

  /** The origin is offset 0 and the end position is the end of the
      document text, in every non-empty buffer. */
  lemma TextEnds(ls: seq<string>)
    requires |ls| >= 1
    ensures PositionValid(ls, Origin) && Offset(ls, Origin) == 0
    ensures PositionValid(ls, EndOfText(ls)) && Offset(ls, EndOfText(ls)) == |Text(ls)|
  {
    TextAround(ls, |ls| - 1);
  }
}
