/**
 * The decision rules of the subcommands in `stagpy/commands.py`: how `info_cmd`
 * describes the grid and labels units, how `config_pp` tags and lays out the
 * options of a configuration section, and which variable tables `var_cmd` prints.
 * The archive (`stagyydata`), the unit scaler and the variable catalogue are not
 * part of this model: their values arrive as parameters.
 */
module Commands {
  import opened Wrappers
  import opened Arith
  import opened Text
  import PP = PrettyPrint

  // ---------------------------------------------------------------- info_cmd

  /** The grid of the last snapshot, as `info_cmd` reads it: total extents and geometry flags. */
  datatype Geometry = Geometry(
    nxtot: nat, nytot: nat, nztot: nat,
    threed: bool, twodXz: bool,
    cartesian: bool, cylindrical: bool)

  datatype CoordinateSystem = Cartesian | Cylindrical | Spherical

  /** The decimal strings of a list of extents. */
  function ExtentStrings(extents: seq<nat>): (words: seq<string>)
    ensures |words| == |extents|
  {
    if extents == [] then [] else [Digits(extents[0])] + ExtentStrings(extents[1..])
  }

  /** Reads a list of extents written as words `a`, `x`, `b`, `x`, ... */
  function ParseExtentWords(words: seq<string>): (r: Option<seq<nat>>)
    ensures r.Some? ==> |r.value| >= 1
  {
    if words == [] then None
    else match ParseNat(words[0])
      case None => None
      case Some(n) =>
        if |words| == 1 then Some([n])
        else if |words| >= 3 && words[1] == "x" then
          match ParseExtentWords(words[2..])
          case None => None
          case Some(rest) => Some([n] + rest)
        else None
  }

  /** Reads a dimension label such as `64 x 48 x 32` back into its extents. */
  function ParseExtents(s: string): Option<seq<nat>>
  {
    ParseExtentWords(Split(' ', s))
  }

  /** Extents joined by ` x ` read back as the same extents. */
  lemma {:induction false} ExtentsRoundTrip(extents: seq<nat>)
    requires |extents| >= 1
    ensures ParseExtents(Join(" x ", ExtentStrings(extents))) == Some(extents)
  {
    var words := ExtentStrings(extents);
    var d := Digits(extents[0]);
    DigitsOnly(extents[0]);
    ParseDigits(extents[0]);
    assert ' ' !in d;
    if |extents| == 1 {
      SplitWithout(' ', d);
      assert Join(" x ", words) == d;
      assert extents == [extents[0]];
    } else {
      var tail := Join(" x ", words[1..]);
      assert words[1..] == ExtentStrings(extents[1..]);
      ExtentsRoundTrip(extents[1..]);
      var split := Split(' ', Join(" x ", words));
      SplitTimes(d, tail);
      assert split[2..] == Split(' ', tail);
      assert [extents[0]] + extents[1..] == extents;
    }
  }

  /**
   * The parser accepts only the text the label is printed as: a string that reads
   * back as some extents is those extents in decimal joined by ` x `.
   */
  lemma ParseExtentsExact(s: string, extents: seq<nat>)
    requires ParseExtents(s) == Some(extents)
    ensures s == Join(" x ", ExtentStrings(extents))
  {
    JoinSplit(' ', s);
    ParseExtentWordsExact(Split(' ', s), extents);
  }

  lemma {:induction false} ParseExtentWordsExact(words: seq<string>, extents: seq<nat>)
    requires ParseExtentWords(words) == Some(extents)
    ensures Join(" ", words) == Join(" x ", ExtentStrings(extents))
  {
    var n :| ParseNat(words[0]) == Some(n);
    ParseNatExact(words[0], n);
    if |words| == 1 {
      assert extents == [n];
      assert ExtentStrings(extents) == [Digits(n)] + ExtentStrings([]);
    } else {
      var rest :| ParseExtentWords(words[2..]) == Some(rest);
      ParseExtentWordsExact(words[2..], rest);
      assert extents == [n] + rest;
      assert extents[1..] == rest;
      var tail := Join(" x ", ExtentStrings(rest));
      assert words[1..][1..] == words[2..];
      assert Join(" ", words[1..]) == "x" + " " + tail;
      assert Join(" ", words) == Digits(n) + " " + ("x" + " " + tail);
      assert ExtentStrings(extents)[1..] == ExtentStrings(rest);
      assert Join(" x ", ExtentStrings(extents)) == Digits(n) + " x " + tail;
    }
  }

  /** A word without spaces, then ` x `, splits into the word, `x` and the split of what follows. */
  lemma SplitTimes(d: string, tail: string)
    requires ' ' !in d
    ensures Split(' ', d + " x " + tail) == [d, "x"] + Split(' ', tail)
  {
    assert d + " x " + tail == d + [' '] + ("x" + [' '] + tail);
    SplitAfter(' ', d, "x" + [' '] + tail);
    SplitAfter(' ', "x", tail);
  }

  /**
   * The dimension label of `info_cmd`: all three extents for a 3-D grid, `nxtot` and
   * `nztot` for a 2-D grid in the XZ plane, `nytot` and `nztot` otherwise; written as
   * decimal numbers separated by ` x `, so that it reads back as those extents.
   */
  function DimensionLabel(g: Geometry): (text: string)
    ensures g.threed ==> ParseExtents(text) == Some([g.nxtot, g.nytot, g.nztot])
    ensures !g.threed && g.twodXz ==> ParseExtents(text) == Some([g.nxtot, g.nztot])
    ensures !g.threed && !g.twodXz ==> ParseExtents(text) == Some([g.nytot, g.nztot])
  {
    var extents := if g.threed then [g.nxtot, g.nytot, g.nztot]
                   else if g.twodXz then [g.nxtot, g.nztot]
                   else [g.nytot, g.nztot];
    ExtentsRoundTrip(extents);
    Join(" x ", ExtentStrings(extents))
  }

  /** The word `info_cmd` prints for a coordinate system: one word, no space in it. */
  function SystemName(c: CoordinateSystem): (name: string)
    ensures name != [] && ' ' !in name
  {
    match c
    case Cartesian => "Cartesian"
    case Cylindrical => "Cylindrical"
    case Spherical => "Spherical"
  }

  /** Reads the geometry line back: the coordinate system named by its first word and the label after it. */
  function ParseGeometryLine(line: string): Option<(CoordinateSystem, string)>
  {
    if "Cartesian " <= line then Some((Cartesian, line[10..]))
    else if "Cylindrical " <= line then Some((Cylindrical, line[12..]))
    else if "Spherical " <= line then Some((Spherical, line[10..]))
    else None
  }

  /** Each system's word, a space and any text read back as that system and that text. */
  lemma SystemNameRoundTrip(c: CoordinateSystem, rest: string)
    ensures ParseGeometryLine(SystemName(c) + " " + rest) == Some((c, rest))
  {
    var line := SystemName(c) + " " + rest;
    assert line[1] == SystemName(c)[1];
    assert line[|SystemName(c)| + 1..] == rest;
  }

  /**
   * The grid line of `info_cmd`: the coordinate system (Cartesian before cylindrical,
   * spherical when neither flag is set) followed by the dimension label; both read back.
   */
  function GeometryLine(g: Geometry): (line: string)
    ensures g.cartesian ==> ParseGeometryLine(line) == Some((Cartesian, DimensionLabel(g)))
    ensures !g.cartesian && g.cylindrical ==> ParseGeometryLine(line) == Some((Cylindrical, DimensionLabel(g)))
    ensures !g.cartesian && !g.cylindrical ==> ParseGeometryLine(line) == Some((Spherical, DimensionLabel(g)))
  {
    var system := if g.cartesian then Cartesian else if g.cylindrical then Cylindrical else Spherical;
    SystemNameRoundTrip(system, DimensionLabel(g));
    SystemName(system) + " " + DimensionLabel(g)
  }

  /** `meta.dim if meta is not None else "1"`: the catalogue's unit dimension, dimensionless when absent. */
  function DimensionOf(name: string, timeDims: map<string, string>): (dim: string)
    ensures name in timeDims ==> dim == timeDims[name]
    ensures name !in timeDims ==> dim == "1"
  {
    if name in timeDims then timeDims[name] else "1"
  }

  /**
   * The loop of `info_cmd` over the selected time-series values. Without dimensional
   * output nothing changes and there is no unit column. With it, every name keeps its
   * place; a dimensionless value (no catalogue entry, or dimension "1") is kept as it
   * is with an empty unit, and is never passed to the scaler; any other value is
   * replaced by the value `scale` (the archive's `sdat.scale`) returns, and its unit
   * label is the one `scale` returns.
   */
  method DimensionalSeries<V>(series: seq<(string, V)>, dimensional: bool,
                              timeDims: map<string, string>, scale: (V, string) -> (V, string))
    returns (values: seq<(string, V)>, units: Option<seq<string>>)
    ensures !dimensional ==> values == series && units.None?
    ensures dimensional ==> units.Some? && |units.value| == |series|
    ensures |values| == |series|
    ensures forall i :: 0 <= i < |series| ==> values[i].0 == series[i].0
    ensures dimensional ==> forall i :: 0 <= i < |series| && DimensionOf(series[i].0, timeDims) == "1" ==>
      values[i] == series[i] && units.value[i] == ""
    ensures dimensional ==> forall i :: 0 <= i < |series| && DimensionOf(series[i].0, timeDims) != "1" ==>
      (values[i].1, units.value[i]) == scale(series[i].1, DimensionOf(series[i].0, timeDims))
  {
    if !dimensional {
      return series, None;
    }
    values := series;
    var dims: seq<string> := [];
    var i := 0;
    while i < |series|
      invariant 0 <= i <= |series|
      invariant |values| == |series| && |dims| == i
      invariant forall j :: 0 <= j < |series| ==> values[j].0 == series[j].0
      invariant forall j :: i <= j < |series| ==> values[j] == series[j]
      invariant forall j :: 0 <= j < i && DimensionOf(series[j].0, timeDims) == "1" ==>
        values[j] == series[j] && dims[j] == ""
      invariant forall j :: 0 <= j < i && DimensionOf(series[j].0, timeDims) != "1" ==>
        (values[j].1, dims[j]) == scale(series[j].1, DimensionOf(series[j].0, timeDims))
    {
      var (name, value) := series[i];
      var dim := DimensionOf(name, timeDims);
      if dim == "1" {
        dims := dims + [""];
      } else {
        var (scaled, unit) := scale(value, dim);
        values := values[i := (name, scaled)];
        dims := dims + [unit];
      }
      i := i + 1;
    }
    units := Some(dims);
  }

  // --------------------------------------------------------------- config_pp

  /** One option of a configuration section: its name, where it may be set, its help text. */
  datatype OptionMeta = OptionMeta(name: string, inCli: bool, inFile: bool, doc: string)

  /**
   * The tag after an option's name: ` (c)` exactly for an option available only as a
   * command-line argument, ` (f)` exactly for one available only in the config file,
   * and nothing for an option available in both or in neither.
   */
  function OptionTag(inCli: bool, inFile: bool): (tag: string)
    ensures tag == " (c)" <==> inCli && !inFile
    ensures tag == " (f)" <==> inFile && !inCli
    ensures tag == "" <==> inCli == inFile
  {
    if inCli != inFile then (if inCli then " (c)" else " (f)") else ""
  }

  /** The `(label, help)` entry of one option. */
  function HelpEntry(o: OptionMeta): (entry: (string, string))
    ensures o.name <= entry.0 && entry.0[|o.name|..] == OptionTag(o.inCli, o.inFile)
    ensures entry.1 == o.doc
  {
    (o.name + OptionTag(o.inCli, o.inFile), o.doc)
  }

  /**
   * The loop of `config_pp` over the fields of a section: one entry per option, in
   * order; each label is the option's name followed by its tag, and the help text is
   * the option's.
   */
  method HelpList(options: seq<OptionMeta>) returns (hlp: seq<(string, string)>)
    ensures |hlp| == |options|
    ensures forall i :: 0 <= i < |options| ==> hlp[i] == HelpEntry(options[i])
    ensures forall i :: 0 <= i < |options| ==>
      options[i].name <= hlp[i].0 && hlp[i].0[|options[i].name|..] == OptionTag(options[i].inCli, options[i].inFile)
  {
    hlp := [];
    for i := 0 to |options|
      invariant |hlp| == i
      invariant forall j :: 0 <= j < i ==> hlp[j] == HelpEntry(options[j])
    {
      var opt := options[i].name;
      var entry := options[i];
      if entry.inCli != entry.inFile {
        opt := opt + (if entry.inCli then " (c)" else " (f)");
      } else {
        assert opt + OptionTag(entry.inCli, entry.inFile) == opt;
      }
      hlp := hlp + [(opt, entry.doc)];
    }
    forall i | 0 <= i < |options|
      ensures options[i].name <= hlp[i].0 && hlp[i].0[|options[i].name|..] == OptionTag(options[i].inCli, options[i].inFile)
    {
      var o := options[i];
      assert hlp[i].0 == o.name + OptionTag(o.inCli, o.inFile);
    }
  }

  /** The help entries of a section, as `HelpList` builds them. */
  function HelpEntries(options: seq<OptionMeta>): (hlp: seq<(string, string)>)
    ensures |hlp| == |options|
  {
    seq(|options|, i requires 0 <= i < |options| => HelpEntry(options[i]))
  }

  /**
   * One section of `config_pp`: nothing for a section without options; otherwise its
   * help entries laid out with ` -- ` and the default minimal column width 39 on at
   * most 100 columns of the terminal. On a terminal of any non-negative width the
   * columns then fit in `min(columns, 100)` characters and are at least
   * `min(39, columns, 100)` wide. A terminal of no columns leaves a column width of 0,
   * which `TextWrapper` refuses.
   */
  method ConfigSection(options: seq<OptionMeta>, terminalColumns: int, wrap: PP.Wrapper)
    returns (r: Option<Result<PP.Printout, PP.Failure>>)
    ensures r.None? <==> options == []
    ensures r.Some? && r.value.Ok? ==>
      PP.Columns(Min(terminalColumns, 100), 39, |options|) == Ok(r.value.value.layout) &&
      r.value.value.lines == Concat(PP.EntryLines(HelpEntries(options), " -- ", r.value.value.layout.colw, wrap))
    ensures r.Some? && r.value.Ok? && terminalColumns >= 0 ==>
      var l := r.value.value.layout;
      l.ncols * l.colw + (l.ncols - 1) <= Min(terminalColumns, 100) &&
      l.colw >= Min(39, Min(terminalColumns, 100))
    ensures r.Some? && terminalColumns >= 0 && r.value.Err? ==> r.value.error != PP.ZeroDivision
    ensures r.Some? && terminalColumns == 0 ==> r.value == Err(PP.InvalidWidth(0))
    ensures r.Some? && r.value.Ok? ==>
      var p := r.value.value;
      PP.ColumnSplit(p.lines, p.layout.ncols, p.chunks) && p.format == PP.RowFormat(p.layout.ncols, p.layout.colw)
    ensures r.Some? && terminalColumns >= 1 ==>
      PP.Columns(Min(terminalColumns, 100), 39, |options|).Ok? &&
      var l := PP.Columns(Min(terminalColumns, 100), 39, |options|).value;
      var lines := Concat(PP.EntryLines(HelpEntries(options), " -- ", l.colw, wrap));
      l.colw >= 1 &&
      (r.value.Ok? <==> exists c :: PP.ColumnSplit(lines, l.ncols, c)) &&
      (r.value.Err? ==> r.value.error == PP.IndexError) &&
      ((forall i :: 0 <= i < |lines| ==> lines[i] != []) ==> r.value.Ok?)
  {
    var hlp := HelpList(options);
    if hlp == [] {
      return None;
    }
    assert hlp == HelpEntries(options);
    var width := Min(terminalColumns, 100);
    var printed := PP.PrettyPrint(hlp, " -- ", 39, Some(width), terminalColumns, wrap);
    if width >= 0 {
      PP.ColumnsFit(width, 39, |hlp|);
      if width >= 39 {
        PP.ColumnsRespectMinimum(width, 39, |hlp|);
      } else {
        PP.ColumnsNarrowText(width, 39, |hlp|);
      }
    }
    r := Some(printed);
  }

  // ----------------------------------------------------------------- var_cmd

  /** `any(flags)`: some flag is set. */
  function AnySet(flags: seq<bool>): (any: bool)
    ensures any <==> exists i :: 0 <= i < |flags| && flags[i]
  {
    if flags == [] then false
    else AnySet(flags[..|flags| - 1]) || flags[|flags| - 1]
  }

  /** `print_all` of `var_cmd`: true exactly when no flag is set. */
  function PrintAll(flags: seq<bool>): (all: bool)
    ensures all <==> forall i :: 0 <= i < |flags| ==> !flags[i]
  {
    !AnySet(flags)
  }

  /** The options of `var_cmd`, one per variable table. */
  datatype VarFlags = VarFlags(field: bool, sfield: bool, rprof: bool, time: bool, refstate: bool)

  function Flags(f: VarFlags): seq<bool>
  {
    [f.field, f.sfield, f.rprof, f.time, f.refstate]
  }

  /** The titles of the tables `var_cmd` can print, in the order it prints them. */
  const Titles: seq<string> := ["field", "surface field", "rprof", "time", "refstate"]

  /** No two tables share a title. */
  lemma TitlesDistinct()
    ensures forall i, j :: 0 <= i < j < |Titles| ==> Titles[i] != Titles[j]
  {
    assert |Titles[0]| == 5 && |Titles[1]| == 13 && |Titles[2]| == 5 && |Titles[3]| == 4 && |Titles[4]| == 8;
    assert Titles[0][0] != Titles[2][0];
  }

  /** The titles whose flag is kept, in order. */
  function Keep(titles: seq<string>, keep: seq<bool>): (kept: seq<string>)
    requires |titles| == |keep|
    ensures |kept| <= |titles|
  {
    if titles == [] then []
    else (if keep[0] then [titles[0]] else []) + Keep(titles[1..], keep[1..])
  }

  /** Keeping every title keeps them all. */
  lemma {:induction false} KeepAll(titles: seq<string>, keep: seq<bool>)
    requires |titles| == |keep| && forall i :: 0 <= i < |keep| ==> keep[i]
    ensures Keep(titles, keep) == titles
  {
    if titles != [] {
      KeepAll(titles[1..], keep[1..]);
    }
  }

  /** A title whose flag is set is kept. */
  lemma {:induction false} KeptIfSet(titles: seq<string>, keep: seq<bool>, j: int)
    requires |titles| == |keep| && 0 <= j < |titles| && keep[j]
    ensures titles[j] in Keep(titles, keep)
  {
    if j > 0 {
      KeptIfSet(titles[1..], keep[1..], j - 1);
      assert titles[1..][j - 1] == titles[j];
    }
  }

  /** Two kept titles appear in the order of their flags. */
  lemma KeepInOrder(titles: seq<string>, keep: seq<bool>)
    requires |titles| == |keep|
    ensures forall i, j :: 0 <= i < j < |titles| && keep[i] && keep[j] ==>
      exists a, b :: 0 <= a < b < |Keep(titles, keep)| && Keep(titles, keep)[a] == titles[i] && Keep(titles, keep)[b] == titles[j]
  {
    var kept := Keep(titles, keep);
    forall i, j | 0 <= i < j < |titles| && keep[i] && keep[j]
      ensures exists a, b :: 0 <= a < b < |kept| && kept[a] == titles[i] && kept[b] == titles[j]
    {
      KeepPairInOrder(titles, keep, i, j);
    }
    assert kept == Keep(titles, keep);
  }

  lemma {:induction false} KeepPairInOrder(titles: seq<string>, keep: seq<bool>, i: int, j: int)
    requires |titles| == |keep| && 0 <= i < j < |titles| && keep[i] && keep[j]
    ensures exists a, b :: 0 <= a < b < |Keep(titles, keep)| && Keep(titles, keep)[a] == titles[i] && Keep(titles, keep)[b] == titles[j]
    decreases i
  {
    var head := if keep[0] then [titles[0]] else [];
    var tail := Keep(titles[1..], keep[1..]);
    var kept := Keep(titles, keep);
    assert kept == head + tail;
    assert titles[1..][j - 1] == titles[j];
    if i == 0 {
      KeptIfSet(titles[1..], keep[1..], j - 1);
      var b :| 0 <= b < |tail| && tail[b] == titles[j];
      assert kept[0] == titles[0] && kept[b + 1] == titles[j];
    } else {
      KeepPairInOrder(titles[1..], keep[1..], i - 1, j - 1);
      assert titles[1..][i - 1] == titles[i];
      var a, b :| 0 <= a < b < |tail| && tail[a] == titles[i] && tail[b] == titles[j];
      assert kept[a + |head|] == titles[i] && kept[b + |head|] == titles[j];
    }
  }

  /**
   * Of distinct titles, a title is kept exactly when its flag says so, nothing else is
   * kept, none is kept twice, and the kept titles keep their order.
   */
  lemma {:induction false} KeepExactly(titles: seq<string>, keep: seq<bool>)
    requires |titles| == |keep|
    requires forall i, j :: 0 <= i < j < |titles| ==> titles[i] != titles[j]
    ensures forall i :: 0 <= i < |titles| ==> (titles[i] in Keep(titles, keep) <==> keep[i])
    ensures forall x :: x in Keep(titles, keep) ==> x in titles
    ensures forall i, j :: 0 <= i < j < |Keep(titles, keep)| ==> Keep(titles, keep)[i] != Keep(titles, keep)[j]
    ensures forall i, j :: 0 <= i < j < |titles| && keep[i] && keep[j] ==>
      exists a, b :: 0 <= a < b < |Keep(titles, keep)| && Keep(titles, keep)[a] == titles[i] && Keep(titles, keep)[b] == titles[j]
  {
    KeepInOrder(titles, keep);
    if titles != [] {
      KeepExactly(titles[1..], keep[1..]);
      var rest := Keep(titles[1..], keep[1..]);
      assert titles[0] !in rest;
      forall i | 1 <= i < |titles|
        ensures titles[i] in Keep(titles, keep) <==> keep[i]
      {
        assert titles[1..][i - 1] == titles[i];
        assert keep[1..][i - 1] == keep[i];
      }
    }
  }

  /** Which tables `var_cmd` prints: all of them under `print_all`, otherwise those whose option is set. */
  function Shown(f: VarFlags): (shown: seq<bool>)
    ensures |shown| == |Titles|
    ensures forall i :: 0 <= i < |Titles| ==> shown[i] == (PrintAll(Flags(f)) || Flags(f)[i])
  {
    var all := PrintAll(Flags(f));
    [all || f.field, all || f.sfield, all || f.rprof, all || f.time, all || f.refstate]
  }

  /** The tables shown are those `print_all` or their option selects, once each and nothing else. */
  lemma ShownTables(f: VarFlags)
    ensures forall i :: 0 <= i < |Titles| ==> (Titles[i] in Keep(Titles, Shown(f)) <==> PrintAll(Flags(f)) || Flags(f)[i])
    ensures forall i, j :: 0 <= i < j < |Keep(Titles, Shown(f))| ==> Keep(Titles, Shown(f))[i] != Keep(Titles, Shown(f))[j]
    ensures forall x :: x in Keep(Titles, Shown(f)) ==> x in Titles
  {
    TitlesDistinct();
    KeepExactly(Titles, Shown(f));
  }

  /** Under `print_all` every table is shown. */
  lemma ShownAll(f: VarFlags)
    requires PrintAll(Flags(f))
    ensures Keep(Titles, Shown(f)) == Titles
  {
    KeepAll(Titles, Shown(f));
  }

  /**
   * The tables `var_cmd` prints, in order: every table when no option is set, and
   * otherwise exactly the tables whose option is set, each at most once, in the fixed
   * order of the titles.
   */
  function PrintedTables(f: VarFlags): (printed: seq<string>)
    ensures PrintAll(Flags(f)) ==> printed == Titles
    ensures forall i :: 0 <= i < |Titles| ==> (Titles[i] in printed <==> PrintAll(Flags(f)) || Flags(f)[i])
    ensures forall i, j :: 0 <= i < j < |printed| ==> printed[i] != printed[j]
    ensures forall x :: x in printed ==> x in Titles
    ensures forall i, j :: 0 <= i < j < |Titles| && Shown(f)[i] && Shown(f)[j] ==>
      exists a, b :: 0 <= a < b < |printed| && printed[a] == Titles[i] && printed[b] == Titles[j]
  {
    ShownTables(f);
    KeepInOrder(Titles, Shown(f));
    if PrintAll(Flags(f)) then
      ShownAll(f);
      Keep(Titles, Shown(f))
    else
      Keep(Titles, Shown(f))
  }
}
