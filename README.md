# StagPy subcommands: column layout and decision rules

This project is a Dafny model of the non-processing subcommands of StagPy, a
post-processing tool for the output of the StagYY geodynamics code. Everything
modelled lives in `stagpy/commands.py`:

- `_pretty_print` prints `(key, value)` entries in columns. It first takes the text
  width (given, or else the terminal's). It works out how many columns fit, each of
  at least the minimal width, or of the whole text width when that is smaller, and
  how wide they are. It wraps each `key<sep>value` entry
  to that width with a hanging indent. It then cuts the wrapped lines into one chunk
  per column, and never cuts inside an entry. Finally it builds the `str.format`
  template of a row.
- `info_cmd` prints how the grid is described: the coordinate system and the
  dimension label. It also sets the default unit of a time-series variable.
- `config_pp` tags a configuration option with `(c)` or `(f)`, and lays out one
  section of options.
- `var_cmd` picks which variable tables to print.

The files:

- `wrappers.dfy`: `Option` and `Result`.
- `arith.dfy`: the integer arithmetic of the core: floor division `//`, the integer
  ceiling behind `math.ceil(n / d)`, `min` and `max`.
- `text.dfy`: the string and list operations of the core: `str.join`, `str(int)` and
  list concatenation. `Split` and `ParseNat` are not used by the source; they are
  the partners of `Join` and `Digits` in round-trip lemmas. `ParseNat` reads only
  canonical decimal text, so no leading zeros.
- `pretty_print.dfy`: `_pretty_print`. The method `PrettyPrint` follows the source
  step by step. It updates local variables and calls the loop methods `WrapLines`
  and `SplitColumns`. Its contract ties the result
  to the width arithmetic `Columns`, to the wrapped lines and to the predicate
  `ColumnSplit`. `WrapLines` is the wrapping loop. `SplitColumns` and `NextCut` are the `for rem_col`
  loop and its inner `while`. Lemmas state what the layout promises.
- `commands.dfy`: the rules of `info_cmd`, `config_pp` and `var_cmd`.

Foreign code becomes parameters:

- `TextWrapper.wrap` is the function parameter `Wrapper`. It is called with the
  width, the subsequent indent and the text.
- `get_terminal_size().columns` is the integer `terminalColumns`.
- The archive's `sdat.scale` is the function parameter `scale`.
- The catalogue `phyvars.TIME` is a map from variable name to unit dimension.
- The geometry of the last snapshot is a `Geometry` value.

Python raises on some inputs. These errors become `Err` results instead of
preconditions:

- `ZeroDivision` is a `//` by zero when the column count or width is computed.
- `InvalidWidth` is the `ValueError` that `TextWrapper.wrap` raises for a width that
  is not positive.
- `IndexError` comes from `lines[isep][0]` on an empty wrapped line.

## Model

| member | source | states |
|---|---|---|
| `Arith.FloorDiv` | stagpy/commands.py:98-99 | Python's `//`: the quotient rounded towards negative infinity, stated as bounds for positive and for negative divisors |
| `Arith.FloorDivIsZero` | stagpy/commands.py:98-99 | the floor quotient is zero exactly when the dividend lies between zero and the divisor, which is when the second division by zero happens |
| `Arith.CeilDivIsCeiling` | stagpy/commands.py:113 | `ceil(n / d)` is the least `q` with `n <= q*d` |
| `Arith.CeilDiv` | stagpy/commands.py:113 | the ceiling of `n / d` is never more than `n`, so the first cut never starts past the end of the lines |
| `Text.SplitJoin` | stagpy/commands.py:121 | splitting a `sep.join(parts)` on `sep` gives back the parts when no part contains `sep` |
| `Text.JoinSplit` | stagpy/commands.py:121 | joining the pieces of a split with the separator gives back the text, so `Split` loses nothing |
| `Text.ParseDigits` | stagpy/commands.py:38-42 | the decimal text of a natural number reads back as that number |
| `Text.ParseNatExact` | stagpy/commands.py:38-42 | the parser accepts only the decimal text of the number it returns, with no leading zeros |
| `PrettyPrint.ResolveWidth` | stagpy/commands.py:94-95 | the width is the given text width when there is one, and the terminal's width otherwise |
| `PrettyPrint.Columns` | stagpy/commands.py:96-100 | division by zero happens exactly for the inputs named (minimal width -1 with a non-negative text width; or a negative text width that is -1 or above the minimal width); otherwise the column count is at most the count that fits and at most the number of entries, and equals one of them |
| `PrettyPrint.ColumnsFit` | stagpy/commands.py:96-100 | for non-negative widths: at least one column fits, the width of a column is not negative, and `ncols*colw + (ncols-1) <= text_width` both before and after the clamp to the number of entries |
| `PrettyPrint.ColumnsRespectMinimum` | stagpy/commands.py:96-99 | when `0 <= min_col_width <= text_width`, each column is at least `min_col_width` wide |
| `PrettyPrint.ColumnsNarrowText` | stagpy/commands.py:96-99 | when the text is narrower than the minimal width, one column fits and it is exactly as wide as the text |
| `PrettyPrint.ColumnsMaximal` | stagpy/commands.py:98-99 | no room is wasted: one more column of the minimal width would not fit, and columns one character wider would not fit either |
| `PrettyPrint.SubsequentIndent` | stagpy/commands.py:105-108 | the indent is all spaces. It lines up under the value, at `len(key)+len(sep)`, when that is below `colw//2`; otherwise it is one space. So it never reaches half a column unless it is that one space, and it is empty only when key and separator are both empty |
| `PrettyPrint.WrapLines` | stagpy/commands.py:102-109 | `TextWrapper` refuses a width that is not positive as soon as there is an entry to wrap. Otherwise the lines are the wrapped entries one after the other, in order, each wrapped to `colw` with its `SubsequentIndent` |
| `PrettyPrint.NextCut` | stagpy/commands.py:113-115 | the inner `while` stops at a proper cut: at least `ceil(remaining/rem_col)` lines; every line after that point starts with a space; the next line starts an entry or there is none. It succeeds exactly when some proper cut of the remaining lines exists; otherwise it fails with `IndexError` |
| `PrettyPrint.NoCutPastEmpty` | stagpy/commands.py:113-115 | once the scan reaches an empty line, no proper cut of the remaining lines exists, so the `IndexError` is raised exactly when no cut exists |
| `PrettyPrint.SplitNeedsCut` | stagpy/commands.py:111-118 | if a column split of the lines exists at all, each loop step can find a proper cut of what remains |
| `PrettyPrint.SplitColumns` | stagpy/commands.py:111-118 | the chunks put together are the wrapped lines, in order, with nothing lost or repeated. There are `ncols` chunks when `ncols >= 2` and one chunk otherwise; every chunk but the last is a proper cut of what remained. The result is `Ok` exactly when a split with that contract exists; otherwise it is `IndexError`, which needs an empty line |
| `PrettyPrint.ChunksStartAtEntries` | stagpy/commands.py:113-117 | every chunk after the first is empty or starts with a line that is not a continuation line |
| `PrettyPrint.ColumnSplitUnique` | stagpy/commands.py:111-118 | the split contract determines the chunks completely: two splits of the same lines into the same column count are equal |
| `PrettyPrint.WellFormedLinesNonEmpty` | stagpy/commands.py:114 | when each entry's lines have the shape TextWrapper gives them, no line is empty, so `lines[isep][0]` cannot fail |
| `PrettyPrint.EntriesKeptWhole` | stagpy/commands.py:111-118 | with entries wrapped in that shape, every column boundary falls between two entries, so no entry is split across columns |
| `PrettyPrint.RowFormat` | stagpy/commands.py:121-122 | split on `\|`, the row template has `max(ncols, 1)` placeholders: `ncols-1` copies of the fixed-width `{:colw}`, then a free `{}` |
| `PrettyPrint.PrettyPrint` | stagpy/commands.py:94-122 | the layout is `Columns` of the resolved width. The lines are the wrapped entries in order, each wrapped with its `SubsequentIndent`. The chunks are the `ColumnSplit` of those lines into `ncols` columns, and the template is `RowFormat(ncols, colw)`. Division by zero and a non-positive wrap width with at least one entry each give the matching error. `IndexError` is returned exactly when the wrapped lines admit no column split, which needs an empty line. The result is `Ok` when none of them applies |
| `Commands.ExtentsRoundTrip` | stagpy/commands.py:38-42 | extents written in decimal and joined with ` x ` read back as the same extents |
| `Commands.ParseExtentsExact` | stagpy/commands.py:38-42 | the extent parser accepts only decimal extents joined by ` x `, so a text it reads is exactly the printed label of what it returns |
| `Commands.DimensionLabel` | stagpy/commands.py:37-42 | the label reads back as `[nxtot, nytot, nztot]` for a 3-D grid, as `[nxtot, nztot]` for a 2-D XZ grid, and as `[nytot, nztot]` otherwise |
| `Commands.SystemName` | stagpy/commands.py:43-48 | the name of a coordinate system is a single non-empty word without spaces |
| `Commands.SystemNameRoundTrip` | stagpy/commands.py:43-48 | a line made of a system name, a space and any text reads back as that system and that text |
| `Commands.GeometryLine` | stagpy/commands.py:43-48 | the grid line reads back as the coordinate system followed by the dimension label. Cartesian wins over cylindrical, and spherical is used when neither flag is set |
| `Commands.DimensionOf` | stagpy/commands.py:61-62 | a variable in the catalogue has the catalogue's dimension; any other variable has dimension `"1"` |
| `Commands.DimensionalSeries` | stagpy/commands.py:57-67 | without dimensional output nothing changes and there is no unit column. With it, names keep their places. A variable with no catalogue entry counts as dimension "1". A dimension "1" value is kept with an empty unit and is never scaled. Any other value and its unit come from `scale` |
| `Commands.OptionTag` | stagpy/commands.py:186-187 | the tag is ` (c)` iff the option is available only on the command line, ` (f)` iff only in the file, and empty iff both or neither |
| `Commands.HelpEntry` | stagpy/commands.py:184-188 | the label is the option's name followed by its tag, and the help text is the option's doc string |
| `Commands.HelpList` | stagpy/commands.py:183-188 | one `(label, help)` entry per option, in order; each label starts with the option's name, and what follows the name is exactly its tag |
| `Commands.ConfigSection` | stagpy/commands.py:189-193 | nothing is printed for a section without options. Otherwise the entries are laid out with ` -- ` and minimal width 39 on `min(columns, 100)`. For any non-negative terminal width there is no division by zero, the columns fit that width, and each is at least `min(39, columns, 100)` wide. On a terminal of 0 columns the column width is 0 and the result is `TextWrapper`'s `ValueError` (`InvalidWidth(0)`). A layout it returns has chunks that are the `ColumnSplit` of the wrapped entries and the `RowFormat` template. When the terminal is at least one column wide, the column width is positive, the result is `Ok` exactly when a column split exists and is `Ok` whenever no wrapped line is empty, and the only error is `IndexError` |
| `Commands.AnySet` | stagpy/commands.py:142 | `any(flags)` holds iff some flag is set |
| `Commands.PrintAll` | stagpy/commands.py:142 | `print_all` holds iff no flag is set |
| `Commands.KeepInOrder` | stagpy/commands.py:143-162 | two kept titles appear in the result in the same order as in the input |
| `Commands.KeepExactly` | stagpy/commands.py:143-162 | of distinct titles, a title is kept iff its flag is set, none is kept twice, and kept titles keep their order |
| `Commands.PrintedTables` | stagpy/commands.py:142-162 | all five tables, in order, when no flag is set. In every case a table is printed iff `print_all` holds or its flag is set, only the five tables are printed, none twice, and in the order of the source |

## Left out

- The archive indexer and lazy cache (`stagyydata`: steps, snapshots, `walk`, `scale`). Their code lives in `stagyydata`, which is not part of this model; only the calls at stagpy/commands.py:33-66 appear in `commands.py`, so their results are parameters here (`Geometry`, the scaler, the series).
- `stagpy/__init__.py`: it reads environment variables, creates the config file, installs a signal handler, loads matplotlib styles and looks up the version. All of that is I/O or foreign calls.
- `tests/test_phyvars.py`: it checks the `phyvars` catalogue and the `SCALES` table, and neither is part of this model.
- `TextWrapper.wrap`: this is library code, so it is the `Wrapper` parameter. The shape of its output (`WellFormedEntry`: a first line that does not start with a space, then lines that do) is an assumption stated in `EntriesKeptWhole` and `WellFormedLinesNonEmpty`. The model does not derive it from TextWrapper.
- The printing itself: `zip_longest` over the chunks, `str.format` of each row, `print`, and every other `print` call of the commands.
- `Arith.CeilDiv`: the source computes `ceil(len(lines) / rem_col)` with floating-point division. The model uses the exact integer ceiling, which is what that expression gives for any list shorter than 2^52 lines.
- `Commands.DimensionalSeries`: the values are modelled position by position. Pandas assigns `series[var]` by label, so a variable selected twice would be treated differently. The `pandas.concat` that adds the unit column is not modelled.
- The step and snapshot lines of `info_cmd` (stagpy/commands.py:50-55, 75-76): they only print values read from the archive.
- `_layout` (stagpy/commands.py:126-133): it collects descriptions from `phyvars` and `baredoc`, which are not part of this model. It then calls `_pretty_print` with minimal width 26, which `PrettyPrint.PrettyPrint` covers for any minimal width.
- `version_cmd`: it only prints the version.
- `config_cmd` (stagpy/commands.py:197-209): when none of `common.config`, `config.create`, `config.update` and `config.edit` is set, it calls `config_pp` over every section, then hands over to `loam.tools.config_cmd_handler`. That guard, the loop over sections, the section header and the hand-over are not modelled; the layout of one section is `Commands.ConfigSection`.
- The `dataclasses.fields` walk over `conf` and `section.meta_` become the sequences of flags and options passed in. The configuration module is not part of this model. `Commands.PrintedTables` assumes that `fields(conf.var)` (stagpy/commands.py:142) is exactly the five table flags `field`, `sfield`, `rprof`, `time` and `refstate`, in that order. `Commands.Flags` lists them in that order.
