/** Text primitives the editor state relies on: Kotlin's `String.lines()`,
    `joinToString`, `CharSequence.removeRange` and the in-place list edits of
    the line list (`removeRange`, `removeAt`, `add`, `addAll`), stated on
    values. */
module TextLines {

  /** True when `s` holds no line-break character. */
  predicate HasNoBreak(s: string) {
    '\n' !in s && '\r' !in s
  }

  /** True when no element of `ls` holds a line-break character. */
  predicate AllWithoutBreaks(ls: seq<string>) {
    forall i :: 0 <= i < |ls| ==> HasNoBreak(ls[i])
  }

  /** Kotlin's `String.lines()`: splits at every "\r\n", "\n" or "\r" (a "\r"
      directly followed by "\n" counts as one break). The empty string gives
      one empty line, and so does a trailing break. */
  function Lines(s: string): (r: seq<string>)
    ensures |r| >= 1
    decreases |s|
  {
    if s == [] then [""]
    else if s[0] == '\n' then [""] + Lines(s[1..])
    else if s[0] == '\r' then
      if |s| >= 2 && s[1] == '\n' then [""] + Lines(s[2..]) else [""] + Lines(s[1..])
    else
      var rest := Lines(s[1..]);
      [[s[0]] + rest[0]] + rest[1..]
  }

  /** `s` with every "\r\n" and every lone "\r" read as "\n": the text that
      splitting and re-joining with "\n" must give back. */
  function NormalizeBreaks(s: string): (r: string)
    ensures '\r' !in r
    ensures '\r' !in s ==> r == s
    decreases |s|
  {
    if s == [] then ""
    else if s[0] == '\r' then
      "\n" + NormalizeBreaks(if |s| >= 2 && s[1] == '\n' then s[2..] else s[1..])
    else [s[0]] + NormalizeBreaks(s[1..])
  }

  /** Kotlin's `joinToString(separator)`: the elements with `sep` between
      consecutive ones. */
  function Join(ls: seq<string>, sep: string): string
  {
    if |ls| == 0 then ""
    else if |ls| == 1 then ls[0]
    else ls[0] + sep + Join(ls[1..], sep)
  }

  /** Kotlin's `CharSequence.removeRange(start, end)`: it throws when
      `end < start`; an empty range (`start == end`) gives the text back
      without looking at the bounds; any other range must lie within the
      text. */
  function RemoveCharRange(s: string, start: int, end: int): (r: string)
    requires start <= end
    requires start == end || (0 <= start && end <= |s|)
    ensures start == end ==> r == s
    ensures 0 <= start && end <= |s| ==>
      && |r| == |s| - (end - start)
      && r[..start] == s[..start] && r[start..] == s[end..]
  {
    if start == end then s else s[..start] + s[end..]
  }

  /** Within the bounds, removing a range keeps what lies on either side. */
  lemma RemoveCharRangeWithin(s: string, start: int, end: int)
    requires 0 <= start <= end <= |s|
    ensures RemoveCharRange(s, start, end) == s[..start] + s[end..]
  {
    if start == end {
      assert s == s[..start] + s[start..];
    }
  }

  /** `MutableList.removeRange(from, to)`: drops the elements at indices
      from .. to-1; it throws unless 0 <= from <= to <= size. */
  function RemoveLineRange<T>(ls: seq<T>, from: int, to: int): (r: seq<T>)
    requires 0 <= from <= to <= |ls|
    ensures |r| == |ls| - (to - from)
    ensures forall i :: 0 <= i < from ==> r[i] == ls[i]
    ensures forall i :: from <= i < |r| ==> r[i] == ls[i + (to - from)]
  {
    ls[..from] + ls[to..]
  }

  /** `MutableList.removeAt(i)`. */
  function RemoveAt<T>(ls: seq<T>, i: int): (r: seq<T>)
    requires 0 <= i < |ls|
    ensures |r| == |ls| - 1
    ensures forall j :: 0 <= j < i ==> r[j] == ls[j]
    ensures forall j :: i <= j < |r| ==> r[j] == ls[j + 1]
  {
    ls[..i] + ls[i + 1..]
  }

  /** `MutableList.addAll(i, xs)`; `add(i, x)` is the case `xs == [x]`. */
  function InsertAll<T>(ls: seq<T>, i: int, xs: seq<T>): (r: seq<T>)
    requires 0 <= i <= |ls|
    ensures |r| == |ls| + |xs|
    ensures forall j :: 0 <= j < i ==> r[j] == ls[j]
    ensures forall j :: 0 <= j < |xs| ==> r[i + j] == xs[j]
    ensures forall j :: i <= j < |ls| ==> r[j + |xs|] == ls[j]
  {
    ls[..i] + xs + ls[i..]
  }

  // ---------------------------------------------------------------------
  // Join
  // ---------------------------------------------------------------------

  lemma JoinCons(x: string, rest: seq<string>, sep: string)
    requires |rest| >= 1
    ensures Join([x] + rest, sep) == x + sep + Join(rest, sep)
  {
  }

  /** Joining two non-empty lists puts one separator between their joins. */
  lemma {:induction false} JoinConcat(a: seq<string>, b: seq<string>, sep: string)
    requires |a| >= 1 && |b| >= 1
    ensures Join(a + b, sep) == Join(a, sep) + sep + Join(b, sep)
    decreases |a|
  {
    if |a| == 1 {
      assert a + b == [a[0]] + b;
      JoinCons(a[0], b, sep);
    } else {
      calc {
        Join(a + b, sep);
        { assert a + b == [a[0]] + (a[1..] + b); JoinCons(a[0], a[1..] + b, sep); }
        a[0] + sep + Join(a[1..] + b, sep);
        { JoinConcat(a[1..], b, sep); }
        a[0] + sep + (Join(a[1..], sep) + sep + Join(b, sep));
        { assert a == [a[0]] + a[1..]; JoinCons(a[0], a[1..], sep); }
        Join(a, sep) + sep + Join(b, sep);
      }
    }
  }

  /** The join starts with the first element. */
  lemma JoinStartsWithFirst(ls: seq<string>, sep: string)
    requires |ls| >= 1
    ensures var r := Join(ls, sep); |ls[0]| <= |r| && r[..|ls[0]|] == ls[0]
  {
    if |ls| > 1 {
      assert Join(ls, sep) == ls[0] + (sep + Join(ls[1..], sep));
    }
  }

  /** The join ends with the last element. */
  lemma {:induction false} JoinEndsWithLast(ls: seq<string>, sep: string)
    requires |ls| >= 1
    ensures var r, l := Join(ls, sep), ls[|ls| - 1]; |l| <= |r| && r[|r| - |l|..] == l
    decreases |ls|
  {
    if |ls| > 1 {
      var j := Join(ls[1..], sep);
      JoinEndsWithLast(ls[1..], sep);
      assert ls[1..][|ls| - 2] == ls[|ls| - 1];
      assert Join(ls, sep) == (ls[0] + sep) + j;
    }
  }

  /** Prefixing the first element prefixes the join. */
  lemma JoinPrefixFirst(ls: seq<string>, pre: string, sep: string)
    requires |ls| >= 1
    ensures Join(ls[0 := pre + ls[0]], sep) == pre + Join(ls, sep)
  {
  }

  /** Suffixing the last element suffixes the join. */
  lemma {:induction false} JoinSuffixLast(ls: seq<string>, suf: string, sep: string)
    requires |ls| >= 1
    ensures Join(ls[|ls| - 1 := ls[|ls| - 1] + suf], sep) == Join(ls, sep) + suf
    decreases |ls|
  {
    if |ls| > 1 {
      var t := ls[1..];
      var u := ls[|ls| - 1 := ls[|ls| - 1] + suf];
      assert u[0] == ls[0];
      assert u[1..] == t[|t| - 1 := t[|t| - 1] + suf];
      JoinSuffixLast(t, suf, sep);
    }
  }

  /** Cutting a break-free string gives break-free pieces. */
  lemma NoBreakPieces(s: string, i: nat)
    requires HasNoBreak(s) && i <= |s|
    ensures HasNoBreak(s[..i]) && HasNoBreak(s[i..])
  {
    assert s == s[..i] + s[i..];
  }

  // ---------------------------------------------------------------------
  // Lines and Join are inverse to each other
  // ---------------------------------------------------------------------

  /** Every line that `Lines` produces is free of line breaks. */
  lemma {:induction false} LinesHaveNoBreaks(s: string)
    ensures AllWithoutBreaks(Lines(s))
    decreases |s|
  {
    if s == [] {
    } else if s[0] == '\n' {
      LinesHaveNoBreaks(s[1..]);
    } else if s[0] == '\r' {
      if |s| >= 2 && s[1] == '\n' { LinesHaveNoBreaks(s[2..]); } else { LinesHaveNoBreaks(s[1..]); }
    } else {
      LinesHaveNoBreaks(s[1..]);
      var rest := Lines(s[1..]);
      assert HasNoBreak(rest[0]);
      assert HasNoBreak([s[0]] + rest[0]);
      assert Lines(s) == [[s[0]] + rest[0]] + rest[1..];
      forall i | 1 <= i < |Lines(s)|
        ensures HasNoBreak(Lines(s)[i])
      {
        assert Lines(s)[i] == rest[i];
      }
    }
  }

  /** Re-joining the lines of `s` with "\n" gives `s` back, with "\r\n" and
      "\r" turned into "\n". */
  lemma {:induction false} JoinLines(s: string)
    ensures Join(Lines(s), "\n") == NormalizeBreaks(s)
    decreases |s|
  {
    if s == [] {
    } else if s[0] == '\n' {
      JoinLines(s[1..]);
      JoinCons("", Lines(s[1..]), "\n");
    } else if s[0] == '\r' {
      var t := if |s| >= 2 && s[1] == '\n' then s[2..] else s[1..];
      JoinLines(t);
      JoinCons("", Lines(t), "\n");
    } else {
      JoinLines(s[1..]);
      var rest := Lines(s[1..]);
      assert rest == [rest[0]] + rest[1..];
      assert Lines(s) == rest[0 := [s[0]] + rest[0]];
      JoinPrefixFirst(rest, [s[0]], "\n");
    }
  }

  /** For text without "\r", splitting and re-joining with "\n" is the
      identity: `setText(t)` followed by `getText("\n")` gives `t`. */
  lemma JoinLinesWithoutCR(s: string)
    requires '\r' !in s
    ensures Join(Lines(s), "\n") == s
  {
    JoinLines(s);
  }

  /** Splitting `x + rest`, when `x` has no break, glues `x` onto the first
      line of `rest`. */
  lemma {:induction false} LinesOfPrefix(x: string, rest: string)
    requires HasNoBreak(x)
    ensures Lines(x + rest) == [x + Lines(rest)[0]] + Lines(rest)[1..]
    decreases |x|
  {
    if x == [] {
      var l := Lines(rest);
      assert x + rest == rest && x + l[0] == l[0];
      assert [l[0]] + l[1..] == l;
    } else {
      var s := x + rest;
      assert s[0] == x[0] && s[1..] == x[1..] + rest;
      assert HasNoBreak(x[1..]) by {
        assert forall c :: c in x[1..] ==> c in x;
      }
      LinesOfPrefix(x[1..], rest);
      assert [x[0]] + (x[1..] + Lines(rest)[0]) == x + Lines(rest)[0];
    }
  }

  /** Splitting the "\n"-join of break-free lines gives the lines back. */
  lemma {:induction false} LinesJoin(ls: seq<string>)
    requires |ls| >= 1 && AllWithoutBreaks(ls)
    ensures Lines(Join(ls, "\n")) == ls
    decreases |ls|
  {
    assert HasNoBreak(ls[0]);
    if |ls| == 1 {
      LinesOfPrefix(ls[0], "");
      assert ls[0] + "" == ls[0];
    } else {
      var j := Join(ls[1..], "\n");
      assert AllWithoutBreaks(ls[1..]) by {
        forall i | 0 <= i < |ls[1..]| ensures HasNoBreak(ls[1..][i]) { assert ls[1..][i] == ls[i + 1]; }
      }
      LinesJoin(ls[1..]);
      assert Join(ls, "\n") == ls[0] + ("\n" + j);
      LinesOfPrefix(ls[0], "\n" + j);
      assert ("\n" + j)[0] == '\n' && ("\n" + j)[1..] == j;
      assert Lines("\n" + j) == [""] + ls[1..];
      assert ls[0] + "" == ls[0];
      assert [ls[0]] + ls[1..] == ls;
    }
  }
}
