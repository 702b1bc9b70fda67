/**
 * The column layout of `_pretty_print` (stagpy/commands.py): from a text width
 * and a minimal column width it chooses a number of columns and their width,
 * wraps every `key<sep>value` entry to that width, cuts the wrapped lines into
 * one chunk per column without cutting an entry in two, and builds the
 * `str.format` template of a printed row.
 *
 * `textwrap.TextWrapper.wrap` is foreign code: it is the `Wrapper` parameter,
 * called with the wrapper's width, its subsequent indent and the text.
 */
module PrettyPrint {
  import opened Wrappers
  import opened Arith
  import opened Text

  /** What `_pretty_print` raises before it prints anything. */
  datatype Failure =
    | ZeroDivision                // `//` by zero when computing the column count or width
    | InvalidWidth(width: int)    // `TextWrapper.wrap` refuses a width that is not positive
    | IndexError                  // `lines[isep][0]` on an empty wrapped line

  /**
   * The column arithmetic: `fit` columns fit the width, `ncols` of them are used
   * (no more than there are entries), each `colw` characters wide.
   */
  datatype Layout = Layout(fit: int, ncols: int, colw: int)

  /** What one call produces before printing: the layout, the wrapped lines, the column chunks, the row template. */
  datatype Printout = Printout(layout: Layout, lines: seq<string>, chunks: seq<seq<string>>, format: string)

  /** `TextWrapper(width).wrap(text)` with the given `subsequent_indent`. */
  type Wrapper = (int, string, string) -> seq<string>

  /** An explicit `text_width`, or else the terminal's column count. */
  function ResolveWidth(textWidth: Option<int>, terminalColumns: int): (width: int)
    ensures textWidth == Some(width) || (textWidth == None && width == terminalColumns)
  {
    if textWidth.Some? then textWidth.value else terminalColumns
  }

  /**
   * The width arithmetic: clamp the minimal width to the text width, count how many
   * columns of that width (plus one separator each) fit, share the width between them,
   * and use no more columns than entries. Division by zero happens exactly for the
   * inputs named in the first ensures.
   */
  function Columns(textWidth: int, minColWidth: int, entries: nat): (r: Result<Layout, Failure>)
    ensures r.Err? <==> (0 <= textWidth && minColWidth == -1) || (textWidth < 0 && (textWidth == -1 || minColWidth < textWidth))
    ensures r.Err? ==> r.error == ZeroDivision
    ensures r.Ok? ==> r.value.fit != 0
    ensures r.Ok? ==> r.value.ncols <= entries && r.value.ncols <= r.value.fit
    ensures r.Ok? ==> r.value.ncols == entries || r.value.ncols == r.value.fit
  {
    var m := if textWidth < minColWidth then textWidth else minColWidth;
    if m + 1 == 0 then Err(ZeroDivision)
    else
      FloorDivIsZero(textWidth + 1, m + 1);
      var fit := FloorDiv(textWidth + 1, m + 1);
      if fit == 0 then Err(ZeroDivision)
      else Ok(Layout(fit, Min(fit, entries), FloorDiv(textWidth + 1, fit) - 1))
  }

  /**
   * For a non-negative text width and minimal width: no division by zero, at least
   * one column fits, the width is not negative, and the columns with their `|`
   * separators fit the text width, both before and after the clamp to the entries.
   */
  lemma ColumnsFit(textWidth: int, minColWidth: int, entries: nat)
    requires 0 <= textWidth && 0 <= minColWidth
    ensures Columns(textWidth, minColWidth, entries).Ok?
    ensures var l := Columns(textWidth, minColWidth, entries).value;
      l.fit >= 1 && l.colw >= 0 && 0 <= l.ncols <= entries &&
      l.fit * l.colw + (l.fit - 1) <= textWidth &&
      l.ncols * l.colw + (l.ncols - 1) <= textWidth
  {
    var m := Min(textWidth, minColWidth);
    var a := textWidth + 1;
    var fit := FloorDiv(a, m + 1);
    QuotientPositive(a, m + 1, fit);
    var q := FloorDiv(a, fit);
    MulMono(1, m + 1, fit);
    QuotientPositive(a, fit, q);
    var l := Columns(textWidth, minColWidth, entries).value;
    assert l == Layout(fit, Min(fit, entries), q - 1);
    MulMono(l.ncols, fit, q);
    Distribute(fit, q);
    Distribute(l.ncols, q);
  }

  /** A floor quotient of `a` by a divisor `1 <= d <= a` is positive. */
  lemma QuotientPositive(a: int, d: int, q: int)
    requires 1 <= d <= a && q * d <= a < q * d + d
    ensures q >= 1
  {
    if q <= 0 {
      MulMono(q + 1, 1, d);
    }
  }

  lemma Successor(x: int, d: int)
    ensures (x + 1) * d == x * d + d
  {
  }

  lemma Distribute(x: int, q: int)
    ensures x * (q - 1) + (x - 1) == x * q - 1
  {
  }

  /** With room for the minimal width, every column is at least that wide. */
  lemma ColumnsRespectMinimum(textWidth: int, minColWidth: int, entries: nat)
    requires 0 <= minColWidth <= textWidth
    ensures Columns(textWidth, minColWidth, entries).Ok?
    ensures Columns(textWidth, minColWidth, entries).value.colw >= minColWidth
  {
    ColumnsFit(textWidth, minColWidth, entries);
    var a := textWidth + 1;
    var fit := FloorDiv(a, minColWidth + 1);
    var q := FloorDiv(a, fit);
    if q < minColWidth + 1 {
      MulMono(q + 1, minColWidth + 1, fit);
    }
  }

  /** A text narrower than the minimal width gets one column as wide as the text. */
  lemma ColumnsNarrowText(textWidth: int, minColWidth: int, entries: nat)
    requires 0 <= textWidth < minColWidth
    ensures Columns(textWidth, minColWidth, entries).Ok?
    ensures var l := Columns(textWidth, minColWidth, entries).value;
      l.fit == 1 && l.colw == textWidth && l.ncols == Min(1, entries)
  {
  }

  /**
   * The arithmetic wastes no room: one more column of the (clamped) minimal width
   * would not fit, and neither would columns one character wider.
   */
  lemma ColumnsMaximal(textWidth: int, minColWidth: int, entries: nat)
    requires 0 <= textWidth && 0 <= minColWidth
    ensures Columns(textWidth, minColWidth, entries).Ok?
    ensures var l := Columns(textWidth, minColWidth, entries).value;
      (l.fit + 1) * (Min(textWidth, minColWidth) + 1) > textWidth + 1 &&
      l.fit * (l.colw + 2) > textWidth + 1
  {
    ColumnsFit(textWidth, minColWidth, entries);
    var m := Min(textWidth, minColWidth);
    var fit := FloorDiv(textWidth + 1, m + 1);
    var q := FloorDiv(textWidth + 1, fit);
    assert Columns(textWidth, minColWidth, entries).value == Layout(fit, Min(fit, entries), q - 1);
    Successor(fit, m + 1);
    Successor(q, fit);
    assert fit * ((q - 1) + 2) == (q + 1) * fit;
  }

  /**
   * The `subsequent_indent` of the wrapper for one entry: all spaces; continuation
   * lines are aligned under the value when key and separator take less than half a
   * column, and are indented by a single space otherwise, so the indent never
   * reaches half the column width unless it is that one space.
   */
  function SubsequentIndent(keyLen: nat, sepLen: nat, colw: int): (indent: string)
    ensures forall i :: 0 <= i < |indent| ==> indent[i] == ' '
    ensures |indent| == 1 || |indent| < FloorDiv(colw, 2)
    ensures keyLen + sepLen < FloorDiv(colw, 2) ==> |indent| == keyLen + sepLen
    ensures keyLen + sepLen >= FloorDiv(colw, 2) ==> |indent| == 1
    ensures indent == [] <==> keyLen + sepLen == 0 && FloorDiv(colw, 2) > 0
  {
    if keyLen + sepLen >= FloorDiv(colw, 2) then " " else Spaces(keyLen + sepLen)
  }

  /** The wrapped lines of one `(key, value)` entry. */
  function WrapEntry(entry: (string, string), sep: string, colw: int, wrap: Wrapper): seq<string>
  {
    wrap(colw, SubsequentIndent(|entry.0|, |sep|, colw), entry.0 + sep + entry.1)
  }

  /** The wrapped lines of every entry, entry by entry. */
  function EntryLines(keyVal: seq<(string, string)>, sep: string, colw: int, wrap: Wrapper): (groups: seq<seq<string>>)
    ensures |groups| == |keyVal|
  {
    seq(|keyVal|, i requires 0 <= i < |keyVal| => WrapEntry(keyVal[i], sep, colw, wrap))
  }

  /** A wrapped line that continues the entry above it: it starts with a space. */
  predicate IsContinuation(line: string) { |line| > 0 && line[0] == ' ' }

  /** A wrapped line that begins an entry: it is not empty and does not start with a space. */
  predicate StartsEntry(line: string) { |line| > 0 && line[0] != ' ' }

  /**
   * `chunk` is the column `_pretty_print` cuts off the front of `rest` when `remCol`
   * columns remain: the first `ceil(|rest| / remCol)` lines, then every continuation
   * line after them, stopping at the first line that begins an entry.
   */
  ghost predicate ProperCut(chunk: seq<string>, rest: seq<string>, remCol: int)
  {
    remCol >= 1 &&
    chunk <= rest &&
    CeilDiv(|rest|, remCol) <= |chunk| &&
    (forall j :: CeilDiv(|rest|, remCol) <= j < |chunk| ==> IsContinuation(chunk[j])) &&
    (|chunk| < |rest| ==> StartsEntry(rest[|chunk|]))
  }

  /** Some prefix of `rest` is a proper cut for `remCol` remaining columns. */
  ghost predicate HasCut(rest: seq<string>, remCol: int)
  {
    exists k :: 0 <= k <= |rest| && ProperCut(rest[..k], rest, remCol)
  }

  /**
   * `chunks` is the column split of `lines` into `ncols` columns: together they are
   * `lines` in order, there are `ncols` of them (one when `ncols < 2`), and each but
   * the last is the proper cut of what remained.
   */
  ghost predicate ColumnSplit(lines: seq<string>, ncols: int, chunks: seq<seq<string>>)
  {
    Concat(chunks) == lines &&
    |chunks| == (if ncols >= 2 then ncols else 1) &&
    forall k :: 0 <= k < |chunks| - 1 ==> ProperCut(chunks[k], Concat(chunks[k..]), ncols - k)
  }

  lemma ConcatSnoc<T>(ss: seq<seq<T>>, x: seq<T>)
    ensures Concat(ss + [x]) == Concat(ss) + x
  {
    assert (ss + [x])[..|ss|] == ss;
  }

  /** Where the inner `while` stops, the lines before it form a proper cut. */
  lemma CutAt(rest: seq<string>, remCol: int, isep: nat)
    requires remCol >= 1 && CeilDiv(|rest|, remCol) <= isep <= |rest|
    requires forall j :: CeilDiv(|rest|, remCol) <= j < isep ==> IsContinuation(rest[j])
    requires isep < |rest| ==> StartsEntry(rest[isep])
    ensures ProperCut(rest[..isep], rest, remCol)
  {
    forall j | CeilDiv(|rest|, remCol) <= j < isep
      ensures IsContinuation(rest[..isep][j])
    {
      assert rest[..isep][j] == rest[j];
    }
  }

  /** The cuts made so far, each proper for what remained when it was made. */
  ghost predicate CutsProper(chunks: seq<seq<string>>, rest: seq<string>, ncols: int)
  {
    forall k :: 0 <= k < |chunks| ==> ProperCut(chunks[k], Concat(chunks[k..]) + rest, ncols - k)
  }

  /** One earlier cut, seen after `chunk` is cut off the front of `rest`. */
  lemma CutExtendsOne(chunks: seq<seq<string>>, chunk: seq<string>, rest': seq<string>, k: nat)
    requires k <= |chunks|
    ensures (chunks + [chunk])[k] == if k < |chunks| then chunks[k] else chunk
    ensures Concat((chunks + [chunk])[k..]) + rest' ==
      (if k < |chunks| then Concat(chunks[k..]) else []) + (chunk + rest')
  {
    var chunks' := chunks + [chunk];
    assert chunks'[k..] == chunks'[k..|chunks|] + [chunk];
    ConcatSnoc(chunks'[k..|chunks|], chunk);
    if k < |chunks| {
      assert chunks'[k..|chunks|] == chunks[k..];
    } else {
      assert chunks'[k..|chunks|] == [];
    }
  }

  /** Cutting the first `isep` lines off the remaining lines keeps every earlier cut proper. */
  lemma CutsExtend(chunks: seq<seq<string>>, rest: seq<string>, isep: nat, ncols: int)
    requires isep <= |rest|
    requires CutsProper(chunks, rest, ncols)
    requires ProperCut(rest[..isep], rest, ncols - |chunks|)
    ensures CutsProper(chunks + [rest[..isep]], rest[isep..], ncols)
  {
    var chunks' := chunks + [rest[..isep]];
    TakeDrop(rest, isep);
    forall k | 0 <= k < |chunks'|
      ensures ProperCut(chunks'[k], Concat(chunks'[k..]) + rest[isep..], ncols - k)
    {
      CutExtendsOne(chunks, rest[..isep], rest[isep..], k);
    }
  }

  /**
   * The inner `while` of the `for rem_col` loop: start at `ceil(|rest| / remCol)` and
   * move past continuation lines. Reading the first character of an empty line fails.
   */
  method NextCut(rest: seq<string>, remCol: int) returns (r: Result<nat, Failure>)
    requires remCol >= 1
    ensures r.Ok? ==> r.value <= |rest| && ProperCut(rest[..r.value], rest, remCol)
    ensures r.Err? ==> r.error == IndexError && exists i :: 0 <= i < |rest| && rest[i] == []
    ensures (forall i :: 0 <= i < |rest| ==> rest[i] != []) ==> r.Ok?
    ensures r.Ok? <==> HasCut(rest, remCol)
  {
    var isep := CeilDiv(|rest|, remCol);
    while isep < |rest| && IsContinuation(rest[isep])
      invariant CeilDiv(|rest|, remCol) <= isep <= |rest|
      invariant forall j :: CeilDiv(|rest|, remCol) <= j < isep ==> IsContinuation(rest[j])
      decreases |rest| - isep
    {
      isep := isep + 1;
    }
    if isep < |rest| && rest[isep] == [] {
      NoCutPastEmpty(rest, remCol, isep);
      return Err(IndexError);
    }
    CutAt(rest, remCol, isep);
    r := Ok(isep);
  }

  /**
   * When the scan from `ceil(|rest| / remCol)` over continuation lines reaches an empty
   * line, no prefix of `rest` is a proper cut: the source has no column to cut there.
   */
  lemma NoCutPastEmpty(rest: seq<string>, remCol: int, isep: nat)
    requires remCol >= 1 && CeilDiv(|rest|, remCol) <= isep < |rest|
    requires forall j :: CeilDiv(|rest|, remCol) <= j < isep ==> IsContinuation(rest[j])
    requires rest[isep] == []
    ensures !HasCut(rest, remCol)
  {
    forall k | 0 <= k <= |rest|
      ensures !ProperCut(rest[..k], rest, remCol)
    {
      if CeilDiv(|rest|, remCol) <= k < isep {
        assert !StartsEntry(rest[k]);
      } else if isep < k {
        assert rest[..k][isep] == rest[isep];
      }
    }
  }

  /** A cut made while chunks were still being cut off stays proper once the rest is appended. */
  lemma CutStaysProper(chunks: seq<seq<string>>, rest: seq<string>, ncols: int, k: nat)
    requires k < |chunks|
    requires ProperCut(chunks[k], Concat(chunks[k..]) + rest, ncols - k)
    ensures ProperCut((chunks + [rest])[k], Concat((chunks + [rest])[k..]), ncols - k)
  {
    assert (chunks + [rest])[k..] == chunks[k..] + [rest];
    ConcatSnoc(chunks[k..], rest);
    assert (chunks + [rest])[k] == chunks[k];
  }

  /** Appending the remaining lines as the last column closes a proper split. */
  lemma CutsClose(lines: seq<string>, ncols: int, chunks: seq<seq<string>>, rest: seq<string>)
    requires |chunks| == (if ncols >= 2 then ncols - 1 else 0)
    requires Concat(chunks) + rest == lines
    requires CutsProper(chunks, rest, ncols)
    ensures ColumnSplit(lines, ncols, chunks + [rest])
  {
    var last := chunks + [rest];
    forall k | 0 <= k < |last| - 1
      ensures ProperCut(last[k], Concat(last[k..]), ncols - k)
    {
      CutStaysProper(chunks, rest, ncols, k);
    }
    ConcatSnoc(chunks, rest);
  }

  /** An empty line among the remaining lines is an empty line of the input. */
  lemma EmptyLineOfRest(lines: seq<string>, done: seq<string>, rest: seq<string>)
    requires done + rest == lines
    requires exists i :: 0 <= i < |rest| && rest[i] == []
    ensures exists i :: 0 <= i < |lines| && lines[i] == []
  {
    var i :| 0 <= i < |rest| && rest[i] == [];
    assert lines[|done| + i] == rest[i];
  }

  /** A sequence is its prefix followed by its suffix, stated apart from any other facts. */
  lemma TakeDrop<T>(s: seq<T>, i: nat)
    requires i <= |s|
    ensures s[..i] + s[i..] == s
  {
  }

  /** Cutting the first `isep` remaining lines into a new chunk keeps the lines in order. */
  lemma CutKeepsOrder(lines: seq<string>, chunks: seq<seq<string>>, rest: seq<string>, isep: nat)
    requires Concat(chunks) + rest == lines
    requires isep <= |rest|
    ensures Concat(chunks + [rest[..isep]]) + rest[isep..] == lines
  {
    TakeDrop(rest, isep);
    ConcatSnoc(chunks, rest[..isep]);
  }

  /** Dropping the first cut leaves the later cuts proper for one column fewer. */
  lemma CutsProperTail(chunks: seq<seq<string>>, rest: seq<string>, ncols: int)
    requires |chunks| >= 1 && CutsProper(chunks, rest, ncols)
    ensures CutsProper(chunks[1..], rest, ncols - 1)
  {
    forall k | 0 <= k < |chunks| - 1
      ensures ProperCut(chunks[1..][k], Concat(chunks[1..][k..]) + rest, ncols - 1 - k)
    {
      assert chunks[1..][k..] == chunks[k + 1..];
      assert ProperCut(chunks[k + 1], Concat(chunks[k + 1..]) + rest, ncols - (k + 1));
    }
  }

  /**
   * A column split of `lines` agrees with the proper cuts made so far, so when at
   * least two columns remain, what remains has a proper cut too.
   */
  lemma {:induction false} SplitNeedsCut(lines: seq<string>, ncols: int, c: seq<seq<string>>,
                                         chunks: seq<seq<string>>, rest: seq<string>, remCol: int)
    requires ColumnSplit(lines, ncols, c)
    requires Concat(chunks) + rest == lines
    requires CutsProper(chunks, rest, ncols)
    requires remCol == ncols - |chunks| && remCol >= 2
    ensures HasCut(rest, remCol)
    decreases |chunks|
  {
    if chunks == [] {
      assert rest == lines;
      FirstChunkIsCut(lines, ncols, c);
    } else {
      CutsProperHead(chunks, rest, ncols);
      SplitAgrees(lines, ncols, c, chunks, rest);
      CutsProperTail(chunks, rest, ncols);
      SplitNeedsCut(Concat(c[1..]), ncols - 1, c[1..], chunks[1..], rest, remCol);
    }
  }

  /** The first cut made is a proper cut of all the lines. */
  lemma CutsProperHead(chunks: seq<seq<string>>, rest: seq<string>, ncols: int)
    requires |chunks| >= 1 && CutsProper(chunks, rest, ncols)
    ensures ProperCut(chunks[0], Concat(chunks) + rest, ncols)
  {
    assert chunks[0..] == chunks;
  }

  /** The first column of a split into at least two columns is a proper cut of the lines. */
  lemma FirstChunkIsCut(lines: seq<string>, ncols: int, c: seq<seq<string>>)
    requires ColumnSplit(lines, ncols, c) && ncols >= 2
    ensures HasCut(lines, ncols)
  {
    assert c[0..] == c;
    assert ProperCut(c[0], lines, ncols);
    assert lines[..|c[0]|] == c[0];
  }

  /** A split and the first cut made agree on the first column, and so on what follows it. */
  lemma SplitAgrees(lines: seq<string>, ncols: int, c: seq<seq<string>>, chunks: seq<seq<string>>, rest: seq<string>)
    requires ColumnSplit(lines, ncols, c) && ncols >= 2
    requires Concat(chunks) + rest == lines
    requires |chunks| >= 1 && ProperCut(chunks[0], lines, ncols)
    ensures Concat(c[1..]) == Concat(chunks[1..]) + rest
    ensures ColumnSplit(Concat(c[1..]), ncols - 1, c[1..])
  {
    SplitTail(lines, ncols, c);
    ProperCutUnique(c[0], chunks[0], lines, ncols);
    ConcatFront(chunks);
    CancelPrefix(chunks[0], Concat(chunks[1..]), rest, Concat(c[1..]));
  }

  /** Equal sequences with the same prefix agree after it. */
  lemma CancelPrefix<T>(p: seq<T>, a: seq<T>, b: seq<T>, c: seq<T>)
    requires (p + a) + b == p + c
    ensures c == a + b
  {
    assert c == (p + c)[|p|..];
    assert (p + a + b)[|p|..] == a + b;
  }

  /** Where the remaining lines have no proper cut, the lines have no column split at all. */
  lemma NoSplitWithoutCut(lines: seq<string>, ncols: int, chunks: seq<seq<string>>, rest: seq<string>, remCol: int)
    requires Concat(chunks) + rest == lines
    requires CutsProper(chunks, rest, ncols)
    requires remCol == ncols - |chunks| && remCol >= 2
    requires !HasCut(rest, remCol)
    ensures forall c :: !ColumnSplit(lines, ncols, c)
  {
    forall c | ColumnSplit(lines, ncols, c)
      ensures false
    {
      SplitNeedsCut(lines, ncols, c, chunks, rest, remCol);
    }
  }

  /**
   * The `for rem_col` loop of `_pretty_print`: cut the wrapped lines into `ncols`
   * columns, pushing each cut past continuation lines. It fails only on an empty
   * line, and never when all lines are non-empty.
   */
  method SplitColumns(lines: seq<string>, ncols: int) returns (r: Result<seq<seq<string>>, Failure>)
    ensures r.Ok? ==> ColumnSplit(lines, ncols, r.value)
    ensures r.Err? ==> r.error == IndexError && exists i :: 0 <= i < |lines| && lines[i] == []
    ensures (forall i :: 0 <= i < |lines| ==> lines[i] != []) ==> r.Ok?
    ensures r.Ok? <==> exists c :: ColumnSplit(lines, ncols, c)
  {
    var chunks: seq<seq<string>> := [];
    var rest := lines;
    var remCol := ncols;
    while remCol > 1
      invariant if ncols >= 2 then 1 <= remCol <= ncols else remCol == ncols
      invariant |chunks| == if ncols >= 2 then ncols - remCol else 0
      invariant Concat(chunks) + rest == lines
      invariant CutsProper(chunks, rest, ncols)
      decreases remCol
    {
      var cut := NextCut(rest, remCol);
      if cut.Err? {
        EmptyLineOfRest(lines, Concat(chunks), rest);
        NoSplitWithoutCut(lines, ncols, chunks, rest, remCol);
        return Err(IndexError);
      }
      var isep := cut.value;
      CutKeepsOrder(lines, chunks, rest, isep);
      CutsExtend(chunks, rest, isep, ncols);
      chunks := chunks + [rest[..isep]];
      rest := rest[isep..];
      remCol := remCol - 1;
    }
    CutsClose(lines, ncols, chunks, rest);
    r := Ok(chunks + [rest]);
  }

  /** Every column after the first is empty or starts with the first line of an entry. */
  lemma ChunksStartAtEntries(lines: seq<string>, ncols: int, chunks: seq<seq<string>>)
    requires ColumnSplit(lines, ncols, chunks)
    ensures forall k :: 1 <= k < |chunks| && chunks[k] != [] ==> StartsEntry(chunks[k][0])
  {
    forall k | 1 <= k < |chunks| && chunks[k] != []
      ensures StartsEntry(chunks[k][0])
    {
      var prev := chunks[k - 1];
      ConcatFront(chunks[k - 1..]);
      assert chunks[k - 1..][1..] == chunks[k..];
      ConcatFront(chunks[k..]);
      var rest := Concat(chunks[k - 1..]);
      assert rest == prev + chunks[k] + Concat(chunks[k + 1..]) by {
        assert chunks[k..][1..] == chunks[k + 1..];
      }
      assert rest[|prev|] == chunks[k][0];
    }
  }

  /** Two proper cuts of the same lines are the same chunk. */
  lemma ProperCutUnique(a: seq<string>, b: seq<string>, rest: seq<string>, remCol: int)
    requires ProperCut(a, rest, remCol) && ProperCut(b, rest, remCol)
    ensures a == b
  {
  }

  /** Behind the first column, a split into `ncols` columns is a split of the rest into `ncols - 1`. */
  lemma SplitTail(lines: seq<string>, ncols: int, chunks: seq<seq<string>>)
    requires ColumnSplit(lines, ncols, chunks) && |chunks| >= 2
    ensures lines == chunks[0] + Concat(chunks[1..])
    ensures ProperCut(chunks[0], lines, ncols)
    ensures ColumnSplit(Concat(chunks[1..]), ncols - 1, chunks[1..])
  {
    ConcatFront(chunks);
    assert chunks[0..] == chunks;
    var tail := chunks[1..];
    forall k | 0 <= k < |tail| - 1
      ensures ProperCut(tail[k], Concat(tail[k..]), ncols - 1 - k)
    {
      assert tail[k..] == chunks[k + 1..];
      assert ProperCut(chunks[k + 1], Concat(chunks[k + 1..]), ncols - (k + 1));
    }
  }

  /** The column split is determined by the lines and the column count. */
  lemma {:induction false} ColumnSplitUnique(lines: seq<string>, ncols: int, c1: seq<seq<string>>, c2: seq<seq<string>>)
    requires ColumnSplit(lines, ncols, c1) && ColumnSplit(lines, ncols, c2)
    ensures c1 == c2
    decreases |c1|
  {
    if |c1| == 1 {
      assert |c2| == 1;
      ConcatFront(c1);
      ConcatFront(c2);
      assert c1[1..] == [] && c2[1..] == [];
      assert Concat(c1[1..]) == [] && Concat(c2[1..]) == [];
      assert c1[0] == lines == c2[0];
      assert c1 == [c1[0]] && c2 == [c2[0]];
    } else {
      SplitTail(lines, ncols, c1);
      SplitTail(lines, ncols, c2);
      ProperCutUnique(c1[0], c2[0], lines, ncols);
      assert Concat(c1[1..]) == lines[|c1[0]|..] == Concat(c2[1..]);
      ColumnSplitUnique(Concat(c1[1..]), ncols - 1, c1[1..], c2[1..]);
      assert c1 == [c1[0]] + c1[1..] && c2 == [c2[0]] + c2[1..];
    }
  }

  /**
   * The lines TextWrapper produces for one entry: a first line that does not start
   * with a space and continuation lines that do (they start with a non-empty indent).
   */
  ghost predicate WellFormedEntry(group: seq<string>)
  {
    |group| >= 1 && StartsEntry(group[0]) &&
    forall j :: 1 <= j < |group| ==> IsContinuation(group[j])
  }

  /** In well-formed wrapped entries, a line that begins an entry sits at an entry boundary. */
  lemma {:induction false} EntryStartIsBoundary(groups: seq<seq<string>>, j: nat)
    requires forall g :: 0 <= g < |groups| ==> WellFormedEntry(groups[g])
    requires j < |Concat(groups)| && StartsEntry(Concat(groups)[j])
    ensures exists m :: 0 <= m < |groups| && j == |Concat(groups[..m])|
  {
    var init := groups[..|groups| - 1];
    var last := groups[|groups| - 1];
    assert Concat(groups) == Concat(init) + last;
    if j < |Concat(init)| {
      EntryStartIsBoundary(init, j);
      var m :| 0 <= m < |init| && j == |Concat(init[..m])|;
      assert init[..m] == groups[..m];
    } else {
      assert last[j - |Concat(init)|] == Concat(groups)[j];
      assert j == |Concat(init)|;
    }
  }

  /** Well-formed wrapped entries have no empty line, so the column split cannot fail on them. */
  lemma {:induction false} WellFormedLinesNonEmpty(groups: seq<seq<string>>)
    requires forall g :: 0 <= g < |groups| ==> WellFormedEntry(groups[g])
    ensures forall i :: 0 <= i < |Concat(groups)| ==> Concat(groups)[i] != []
  {
    if groups != [] {
      var init := groups[..|groups| - 1];
      WellFormedLinesNonEmpty(init);
      var last := groups[|groups| - 1];
      forall i | 0 <= i < |Concat(groups)|
        ensures Concat(groups)[i] != []
      {
        if i >= |Concat(init)| {
          assert Concat(groups)[i] == last[i - |Concat(init)|];
        } else {
          assert Concat(groups)[i] == Concat(init)[i];
        }
      }
    }
  }

  /** Where a proper cut of the remaining lines ends, the lines end or an entry begins. */
  lemma CutEndsAtEntry(lines: seq<string>, before: seq<string>, chunk: seq<string>, rest: seq<string>, remCol: int)
    requires before + rest == lines
    requires ProperCut(chunk, rest, remCol)
    ensures |before + chunk| == |lines| || (|before + chunk| < |lines| && StartsEntry(lines[|before + chunk|]))
  {
    if |chunk| < |rest| {
      assert lines[|before + chunk|] == rest[|chunk|];
    }
  }

  /** Each column boundary is the end of the lines or a line that begins an entry. */
  lemma BoundaryStartsEntry(lines: seq<string>, ncols: int, chunks: seq<seq<string>>, k: nat)
    requires ColumnSplit(lines, ncols, chunks)
    requires 0 < k < |chunks|
    ensures |Concat(chunks[..k])| == |lines| || (|Concat(chunks[..k])| < |lines| && StartsEntry(lines[|Concat(chunks[..k])|]))
  {
    ConcatSplit(chunks, k - 1);
    assert chunks[..k] == chunks[..k - 1] + [chunks[k - 1]];
    ConcatSnoc(chunks[..k - 1], chunks[k - 1]);
    CutEndsAtEntry(lines, Concat(chunks[..k - 1]), chunks[k - 1], Concat(chunks[k - 1..]), ncols - (k - 1));
  }

  /** One column boundary of the split of well-formed wrapped entries lies between two entries. */
  lemma BoundaryBetweenEntries(groups: seq<seq<string>>, ncols: int, chunks: seq<seq<string>>, k: nat)
    requires forall g :: 0 <= g < |groups| ==> WellFormedEntry(groups[g])
    requires ColumnSplit(Concat(groups), ncols, chunks)
    requires 0 < k < |chunks|
    ensures exists m :: 0 <= m <= |groups| && |Concat(chunks[..k])| == |Concat(groups[..m])|
  {
    BoundaryStartsEntry(Concat(groups), ncols, chunks, k);
    var o := |Concat(chunks[..k])|;
    if o < |Concat(groups)| {
      EntryStartIsBoundary(groups, o);
    } else {
      assert groups[..|groups|] == groups;
    }
  }

  /**
   * No entry is split across columns: when the wrapped entries are well formed, every
   * column boundary of the split lies between two entries.
   */
  lemma EntriesKeptWhole(groups: seq<seq<string>>, ncols: int, chunks: seq<seq<string>>)
    requires forall g :: 0 <= g < |groups| ==> WellFormedEntry(groups[g])
    requires ColumnSplit(Concat(groups), ncols, chunks)
    ensures forall k :: 0 <= k <= |chunks| ==>
      exists m :: 0 <= m <= |groups| && |Concat(chunks[..k])| == |Concat(groups[..m])|
  {
    forall k | 0 <= k <= |chunks|
      ensures exists m :: 0 <= m <= |groups| && |Concat(chunks[..k])| == |Concat(groups[..m])|
    {
      if k == 0 {
        assert chunks[..0] == [] && groups[..0] == [];
      } else if k == |chunks| {
        assert chunks[..k] == chunks && groups[..|groups|] == groups;
      } else {
        BoundaryBetweenEntries(groups, ncols, chunks, k);
      }
    }
  }

  function Repeat(s: string, n: int): (r: seq<string>)
    ensures |r| == Max(n, 0) && forall i :: 0 <= i < |r| ==> r[i] == s
  {
    if n <= 0 then [] else [s] + Repeat(s, n - 1)
  }

  /** A fixed-width placeholder `{:colw}`. */
  function FixedField(colw: int): string
  {
    "{:" + DecimalString(colw) + "}"
  }

  /**
   * The row template: split on `|` it gives `max(ncols, 1)` placeholders, all of them
   * the fixed-width `{:colw}` except the last, which is the free `{}`.
   */
  function RowFormat(ncols: int, colw: int): (format: string)
    ensures var fields := Split('|', format);
      |fields| == Max(ncols, 1) &&
      fields[|fields| - 1] == "{}" &&
      forall i :: 0 <= i < |fields| - 1 ==> fields[i] == FixedField(colw)
  {
    var fixed := Repeat(FixedField(colw), ncols - 1);
    var format := Join("|", fixed) + (if ncols > 1 then "|{}" else "{}");
    DecimalChars(colw);
    assert '|' !in FixedField(colw);
    if ncols > 1 then
      JoinAppend("|", fixed, "{}");
      assert format == Join(['|'], fixed + ["{}"]);
      SplitJoin('|', fixed + ["{}"]);
      format
    else
      assert fixed == [] && format == "{}";
      SplitWithout('|', "{}");
      format
  }

  /**
   * The wrapping loop of `_pretty_print`: each entry `key + sep + val` wrapped to `colw`
   * with its `SubsequentIndent`, the lines of all entries one after the other.
   * `TextWrapper.wrap` refuses a width that is not positive on its first call.
   */
  method WrapLines(keyVal: seq<(string, string)>, sep: string, colw: int, wrap: Wrapper)
    returns (r: Result<seq<string>, Failure>)
    ensures colw <= 0 && keyVal != [] ==> r == Err(InvalidWidth(colw))
    ensures colw > 0 || keyVal == [] ==> r == Ok(Concat(EntryLines(keyVal, sep, colw, wrap)))
  {
    var lines: seq<string> := [];
    var i := 0;
    while i < |keyVal|
      invariant 0 <= i <= |keyVal|
      invariant colw <= 0 ==> i == 0
      invariant lines == Concat(EntryLines(keyVal[..i], sep, colw, wrap))
    {
      var (key, val) := keyVal[i];
      var indent := SubsequentIndent(|key|, |sep|, colw);
      if colw <= 0 {
        return Err(InvalidWidth(colw));
      }
      assert EntryLines(keyVal[..i + 1], sep, colw, wrap)
          == EntryLines(keyVal[..i], sep, colw, wrap) + [WrapEntry(keyVal[i], sep, colw, wrap)];
      ConcatSnoc(EntryLines(keyVal[..i], sep, colw, wrap), WrapEntry(keyVal[i], sep, colw, wrap));
      lines := lines + wrap(colw, indent, key + sep + val);
      i := i + 1;
    }
    assert keyVal[..i] == keyVal;
    return Ok(lines);
  }

  /**
   * `_pretty_print` up to the print: resolve the width, lay out the columns, wrap every
   * entry with its indent, split the lines into columns and build the row template;
   * with the errors the source raises on the way.
   */
  method PrettyPrint(keyVal: seq<(string, string)>, sep: string, minColWidth: int,
                     textWidth: Option<int>, terminalColumns: int, wrap: Wrapper)
    returns (r: Result<Printout, Failure>)
    ensures match Columns(ResolveWidth(textWidth, terminalColumns), minColWidth, |keyVal|)
      case Err(e) => r == Err(e)
      case Ok(layout) =>
        var lines := Concat(EntryLines(keyVal, sep, layout.colw, wrap));
        if layout.colw <= 0 && keyVal != [] then r == Err(InvalidWidth(layout.colw))
        else if r.Ok? then
          r.value.layout == layout && r.value.lines == lines &&
          ColumnSplit(lines, layout.ncols, r.value.chunks) &&
          r.value.format == RowFormat(layout.ncols, layout.colw)
        else
          r == Err(IndexError) && (exists i :: 0 <= i < |lines| && lines[i] == []) &&
          !exists c :: ColumnSplit(lines, layout.ncols, c)
    ensures match Columns(ResolveWidth(textWidth, terminalColumns), minColWidth, |keyVal|)
      case Err(_) => true
      case Ok(layout) =>
        var lines := Concat(EntryLines(keyVal, sep, layout.colw, wrap));
        (layout.colw > 0 || keyVal == []) && (forall i :: 0 <= i < |lines| ==> lines[i] != []) ==> r.Ok?
  {
    var width := if textWidth.Some? then textWidth.value else terminalColumns;
    var minWidth := minColWidth;
    if width < minWidth {
      minWidth := width;
    }
    if minWidth + 1 == 0 {
      return Err(ZeroDivision);
    }
    var ncols := FloorDiv(width + 1, minWidth + 1);
    if ncols == 0 {
      return Err(ZeroDivision);
    }
    var fit := ncols;
    var colw := FloorDiv(width + 1, ncols) - 1;
    ncols := Min(ncols, |keyVal|);
    assert Columns(width, minColWidth, |keyVal|) == Ok(Layout(fit, ncols, colw));

    var wrapped := WrapLines(keyVal, sep, colw, wrap);
    if wrapped.Err? {
      return Err(wrapped.error);
    }
    var lines := wrapped.value;

    var split := SplitColumns(lines, ncols);
    if split.Err? {
      return Err(split.error);
    }
    r := Ok(Printout(Layout(fit, ncols, colw), lines, split.value, RowFormat(ncols, colw)));
  }
}
