/** Caret positions, selections and the per-line character ranges they
    cover: the immutable value types of the editor state. */
module Caret {

  /** Kotlin's `Int.compareTo`: negative, zero or positive as `a` is below,
      equal to or above `b`. */
  function CompareInts(a: int, b: int): (r: int)
    ensures r < 0 <==> a < b
    ensures r == 0 <==> a == b
  {
    if a < b then -1 else if a == b then 0 else 1
  }

  /** A character slot in the buffer; `column` may equal the line's length
      ("after the last character"). */
  datatype CaretPosition = CaretPosition(row: nat, column: nat)
  {
    /** Document order: by row, then by column. */
    function CompareTo(o: CaretPosition): (r: int)
      ensures r == 0 <==> this == o
      ensures r < 0 <==> row < o.row || (row == o.row && column < o.column)
      ensures r > 0 <==> o.row < row || (row == o.row && o.column < column)
    {
      var r := CompareInts(row, o.row);
      if r == 0 then CompareInts(column, o.column) else r
    }

    /** Kotlin's `this < o` on positions. */
    predicate Before(o: CaretPosition) {
      CompareTo(o) < 0
    }

    /** Kotlin's `this <= o` on positions. */
    predicate AtOrBefore(o: CaretPosition) {
      CompareTo(o) <= 0
    }
  }

  /** `CaretPosition()`: the default position (0, 0). */
  const Origin := CaretPosition(0, 0)

  /** A character range of one line, as `TextRange(start, end)`; `start` may
      exceed `end` (a reversed range). */
  datatype TextRange = TextRange(start: int, end: int)

  /** `TextRange.Zero`. */
  const Zero := TextRange(0, 0)

  /** An anchored selection: `from` is where it began, `to` is the live end,
      which may precede `from` in document order. */
  datatype CaretSelection = CaretSelection(from: CaretPosition, to: CaretPosition)
  {
    /** Both endpoints on one row; such a selection is in document order
        exactly when its columns are. */
    predicate IsSingleLine(): (b: bool)
      ensures b ==> (IsNormalized() <==> from.column <= to.column)
    {
      from.row == to.row
    }

    /** Row `i` lies between the endpoints' rows, taken as given: a selection
        whose `to` is on an earlier row than `from` selects no row. */
    predicate IsLineSelected(i: int): (b: bool)
      ensures b ==> from.row <= to.row
      ensures to.row < from.row ==> !b
    {
      i >= from.row && i <= to.row
    }

    /** True when `from` does not come after `to`. */
    predicate IsNormalized() {
      from.AtOrBefore(to)
    }

    /** True when position `p` lies inside the selected span [from, to). */
    predicate Covers(p: CaretPosition) {
      from.AtOrBefore(p) && p.Before(to)
    }

    /** The character range of row `i` that the selection covers, taken with
        the selection as given (not normalized). */
    function LineSelection(i: int, text: string): (r: TextRange)
      ensures !IsLineSelected(i) ==> r == Zero
      ensures 0 <= r.start && 0 <= r.end
    {
      if i < from.row || i > to.row then Zero
      else if i == from.row && i == to.row then TextRange(from.column, to.column)
      else if i == from.row then TextRange(from.column, |text|)
      else if i == to.row then TextRange(0, to.column)
      else TextRange(0, |text|)
    }

    /** The same two endpoints, in document order. */
    function Normalized(): (r: CaretSelection)
      ensures r.IsNormalized()
      ensures (r.from == from && r.to == to) || (r.from == to && r.to == from)
      ensures IsNormalized() ==> r == this
    {
      if from.Before(to) then this else CaretSelection(to, from)
    }
  }

  /** `CaretSelection(position)`: a caret with nothing selected. */
  function Collapsed(p: CaretPosition): (r: CaretSelection)
    ensures r.IsNormalized() && r.IsSingleLine()
    ensures forall q :: !r.Covers(q)
  {
    CaretSelection(p, p)
  }

  // ---------------------------------------------------------------------
  // Document order is a total order
  // ---------------------------------------------------------------------

  /** Swapping the operands flips the sign of `CompareTo`. */
  lemma CompareToAntisymmetric(a: CaretPosition, b: CaretPosition)
    ensures a.CompareTo(b) < 0 <==> b.CompareTo(a) > 0
    ensures a.CompareTo(b) == 0 <==> b.CompareTo(a) == 0
  {
  }

  lemma CompareToTransitive(a: CaretPosition, b: CaretPosition, c: CaretPosition)
    ensures a.AtOrBefore(b) && b.AtOrBefore(c) ==> a.AtOrBefore(c)
    ensures a.Before(b) && b.AtOrBefore(c) ==> a.Before(c)
  {
  }

  /** Any two positions are comparable, and exactly one relation holds. */
  lemma CompareToTotal(a: CaretPosition, b: CaretPosition)
    ensures a.Before(b) || a == b || b.Before(a)
    ensures !(a.Before(b) && b.Before(a))
  {
  }

  // ---------------------------------------------------------------------
  // Normalization
  // ---------------------------------------------------------------------

  lemma NormalizedIdempotent(s: CaretSelection)
    ensures s.Normalized().Normalized() == s.Normalized()
  {
  }

  /** Normalizing keeps single-line-ness, and the normalized selection
      covers exactly the positions between the two endpoints, whichever of
      them comes first. */
  lemma NormalizedKeepsSpan(s: CaretSelection, p: CaretPosition)
    ensures s.Normalized().IsSingleLine() == s.IsSingleLine()
    ensures s.Normalized().Covers(p) <==>
      (s.from.AtOrBefore(p) && p.Before(s.to)) || (s.to.AtOrBefore(p) && p.Before(s.from))
  {
  }

  /** Row `i` is selected by the normalized selection exactly when it lies
      between the endpoints' rows, in either order. */
  lemma NormalizedLineSelected(s: CaretSelection, i: int)
    ensures s.Normalized().IsLineSelected(i) <==>
      (s.from.row <= i <= s.to.row) || (s.to.row <= i <= s.from.row)
  {
  }

  /** A caret (collapsed selection) is its own normalization; in particular
      the initial `CaretSelection()` agrees with its normalized form. */
  lemma CollapsedIsNormalized(p: CaretPosition)
    ensures Collapsed(p).Normalized() == Collapsed(p)
  {
  }

  // ---------------------------------------------------------------------
  // Line selection
  // ---------------------------------------------------------------------

  /** On a normalized selection whose endpoints fit their rows, each row's
      range is a well-formed range of that row's text. */
  lemma LineSelectionWithin(s: CaretSelection, i: int, text: string)
    requires s.IsNormalized()
    requires i == s.from.row ==> s.from.column <= |text|
    requires i == s.to.row ==> s.to.column <= |text|
    ensures 0 <= s.LineSelection(i, text).start <= s.LineSelection(i, text).end <= |text|
  {
  }

  /** The range of row `i` is exactly the set of columns of `i` that the
      normalized selection covers: the first row from `from.column` to the
      end, the last row up to `to.column`, rows between in full, rows outside
      not at all. */
  lemma LineSelectionCovers(s: CaretSelection, i: nat, text: string, k: nat)
    requires s.IsNormalized()
    requires i == s.to.row ==> s.to.column <= |text|
    requires k < |text|
    ensures s.LineSelection(i, text).start <= k < s.LineSelection(i, text).end
            <==> s.Covers(CaretPosition(i, k))
  {
  }
}
