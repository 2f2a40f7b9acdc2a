# Batch CSV/WKT importer: column sniffing, in Dafny

This project models the data-handling core of the QGIS plugin
`BatchCSVWKTImporter`. Its `csv_importer` command runs over each CSV file the
user selects and does the following:

- It reads the header line, strips it, and rewrites only the **first** `)",`
  (the end of a quoted WKT value followed by a comma) to `)|`.
- It splits the result on `|` and appends `)` to every header name but the
  last.
- It collects each data row's values into a column table, with the rows
  prepared the same way. A row whose piece count differs from the header's
  is skipped.
- It guesses a coarse type for every column: `geometry`, `integer` or
  `string`.
- It builds a delimited-text URI and a layer name, but only for the **last**
  selected file.

The model keeps the source's quirks as they are:

- Only the first `)",` is rewritten.
- A `|` already in the line also splits it.
- When the header's first `)",` comes before any `|`, the first header name
  ends in `))`. A header with neither `)",` nor `|` stays one piece and gets no `)`.
- An empty column not named `WKT` is an `integer`; a `WKT` column is
  `geometry` whatever it holds.
- `.replace('.csv', '')` removes every `.csv`, not only the extension.
- The URI and layer use the last selection only.

There are two modules:

- `PyStr` (`pystr.dfy`) gives the Python string operations the code relies
  on: `strip` with Python's whitespace set, `isalpha`, `replace(old, new, 1)`,
  `replace(old, '')`, `split` on one character, and `os.path.basename`. Each
  comes with the lemmas the importer needs. `Find` and `Join` are not called
  by the importer; they only help state the contracts: `Find` says which
  occurrence `replace(old, new, 1)` rewrites, and `Join` states the round
  trip of `split`.
- `Importer` (`importer.dfy`) has the line fix-up and split, the header fix,
  the column table, type inference, the layer name, the URI, and the
  per-selection driver.

The column table and the type map are filled in place by loops in the
source. Here they are methods with loop invariants: `Accumulate` builds a
`map<string, seq<string>>` and is proved equal, column by column, to the
recursive specification function `Column`; `InferTypes` builds a
`map<string, FieldType>` and is proved equal, entry by entry, to the
non-recursive function `InferType`. The properties are proved about `Column`
and `InferType`. `FieldType`'s three values stand for the tags `"geometry"`,
`"integer"` and `"string"` that the source stores.

## Model

| member | source | states |
|---|---|---|
| PyStr.Strip | batch_csv_wkt_importer_US.py:62 | `strip()` is never longer than the line, and a non-empty result neither starts nor ends with white space; `StripBounds` and `StripBlank` characterise it fully. |
| PyStr.StripBounds | batch_csv_wkt_importer_US.py:62 | `strip()` keeps a window of the line. Everything cut off is whitespace, and a non-empty result starts and ends with a non-whitespace character. |
| PyStr.StripBlank | batch_csv_wkt_importer_US.py:91 | A value strips to `""` exactly when every character in it is whitespace. |
| PyStr.Find | batch_csv_wkt_importer_US.py:66 | Returns the first position where the pattern occurs, or none when it occurs nowhere (the occurrence that `replace(…, 1)` rewrites). |
| PyStr.ReplaceFirst | batch_csv_wkt_importer_US.py:66 | `replace(old, new, 1)` changes the length by `len(new) - len(old)` when `old` occurs and not at all otherwise; the rewritten occurrence is the one `Find` returns. |
| PyStr.Split | batch_csv_wkt_importer_US.py:68 | `split('|')` gives at least one piece, and a single piece is the whole string; `SplitCount`, `SplitPieces`, `SplitJoinBack` and `SplitJoin` characterise it fully. |
| PyStr.SplitCount | batch_csv_wkt_importer_US.py:68 | `split('|')` gives one more piece than there are `|` in the string. |
| PyStr.SplitPieces | batch_csv_wkt_importer_US.py:68 | No piece of `split('|')` contains `|`. |
| PyStr.SplitJoinBack | batch_csv_wkt_importer_US.py:68 | Joining the pieces of `split('|')` with `|` gives back the string. |
| PyStr.SplitJoin | batch_csv_wkt_importer_US.py:77 | Splitting a `|`-join of a non-empty list of pieces that hold no `|` gives back those pieces. |
| PyStr.SplitAround | batch_csv_wkt_importer_US.py:68 | A string `a + "|" + b` with no `|` in `a` splits into `a` followed by the pieces of `b`. |
| PyStr.RemoveAll | batch_csv_wkt_importer_US.py:102 | `replace(pat, '')` never lengthens a string; for a pattern such as `.csv`, whose first character does not recur, `RemoveAllAbsent` and `RemoveAllAround` determine its result. |
| PyStr.RemoveAllShrinks | batch_csv_wkt_importer_US.py:102 | `replace(pat, '')` never lengthens a string and keeps only characters of the input. |
| PyStr.RemoveAllAbsent | batch_csv_wkt_importer_US.py:102 | `replace(pat, '')` leaves a string without `pat` unchanged. |
| PyStr.RemoveAllAround | batch_csv_wkt_importer_US.py:102 | For a pattern whose first character does not recur in it, removing from `x + pat + y` removes that occurrence and works on `x` and `y` independently. |
| PyStr.Basename | batch_csv_wkt_importer_US.py:102 | `os.path.basename` is the part of the path after its last `/`. It holds no `/` and is a suffix of the path. |
| Importer.FixAndSplit | batch_csv_wkt_importer_US.py:66-77 | A line always yields at least one piece, and no piece holds `|`; `FixAndSplitJoin` and `FixAndSplitPieces` give its join and its count. |
| Importer.FixAndSplitJoin | batch_csv_wkt_importer_US.py:66-68 | Joining the pieces of a line with `|` gives the stripped line with only its first `)",` replaced by `)|`. Later `)",` are kept. A line without `)",` comes back stripped and otherwise unchanged. |
| Importer.FixAndSplitPieces | batch_csv_wkt_importer_US.py:66-77 | A line splits into one piece per `|` it already holds, plus two if it holds `)",` and one otherwise. With no `|`, that is 2 pieces when `)",` is present and 1 when absent. |
| Importer.FixHeader | batch_csv_wkt_importer_US.py:70 | The header has the same length as the split pieces. Every name but the last is its piece followed by `)`, and the last is unchanged. |
| Importer.Header | batch_csv_wkt_importer_US.py:62-70 | The header has one name per piece of its first line, and no name holds `|`; `FixHeader` gives each name from its piece. |
| Importer.HeaderFirstColumn | batch_csv_wkt_importer_US.py:66-70 | When the first `)",` comes before any `|`, the first header name is the text before it followed by `))`. |
| Importer.WktOnlyLastColumn | batch_csv_wkt_importer_US.py:70-90 | Every header name but the last ends in `)`, so no column but the last can be named `WKT` and typed as geometry. |
| Importer.CellsDistinct | batch_csv_wkt_importer_US.py:80-82 | With distinct header names, an accepted row adds exactly its value `j` to the column `header[j]`. |
| Importer.ColumnNextRow | batch_csv_wkt_importer_US.py:79-84 | With distinct header names, reading one more row appends its value `j` to column `header[j]` when the row has as many pieces as the header. Otherwise it leaves the column as it was. |
| Importer.Column | batch_csv_wkt_importer_US.py:73-84 | A name that is not in the header collects no values; `ColumnNextRow` and `ColumnLength` say what each row adds. |
| Importer.ColumnLength | batch_csv_wkt_importer_US.py:73-82 | With distinct header names, every column holds one value per accepted row. |
| Importer.AppendRow | batch_csv_wkt_importer_US.py:80-82 | Appending an accepted row keeps the table's keys and appends to each column exactly the row's values whose header name is that column. |
| Importer.AddRow | batch_csv_wkt_importer_US.py:76-84 | A row is accepted exactly when its piece count equals the header length. A rejected row leaves the table unchanged, and an accepted one is appended as by `AppendRow`. |
| Importer.Accumulate | batch_csv_wkt_importer_US.py:73-84 | The table has one key per header name, and each column holds the values of the accepted rows in file order. |
| Importer.InferType | batch_csv_wkt_importer_US.py:89-96 | The result is geometry exactly when the name is `WKT`. It is string exactly when the name is not `WKT` and some value holds a letter. In every other case it is integer, including for an empty or all-blank column. |
| Importer.LetterIsNotBlank | batch_csv_wkt_importer_US.py:91-93 | A column whose values all strip to `""` holds no letter, so the integer default at line 92 agrees with line 96. |
| Importer.InferTypeGrows | batch_csv_wkt_importer_US.py:93-94 | A column typed string stays string whatever rows follow. |
| Importer.InferTypes | batch_csv_wkt_importer_US.py:88-96 | The type map has exactly the keys of the column table, and each entry is the type inferred from that column's values. |
| Importer.ScanFile | batch_csv_wkt_importer_US.py:58-96 | The types found for one file are one per header name, each inferred from that name's column of accepted rows. |
| Importer.LayerName | batch_csv_wkt_importer_US.py:102 | The layer name holds no `/` and is no longer than the file's base name. |
| Importer.LayerNameAround | batch_csv_wkt_importer_US.py:102 | For any `/`-free base name `x + ".csv" + y` after a directory, the layer name is the remove-every-`.csv` result of `x` followed by that of `y`, so each `.csv` goes wherever it stands. |
| Importer.LayerNameRemovesEveryCsv | batch_csv_wkt_importer_US.py:102 | Every `.csv` in the base name is removed, not only the extension: `dir/a.csv.b.csv` becomes the layer `a.b`. |
| Importer.BuildUri | batch_csv_wkt_importer_US.py:101 | For a path without `?`, `ParseUri` reads the path and the CRS back out of the URI unchanged, so the fixed query between them is recognised and neither slot is altered. |
| Importer.ParseTemplate | batch_csv_wkt_importer_US.py:101 | The template is injective on `?`-free paths: `ParseUri` recovers the path and the CRS it was filled with. |
| Importer.Import | batch_csv_wkt_importer_US.py:56-102 | An empty selection fails, and a non-empty one yields the URI, layer name and detected types of the last selected file only. |

## Left out

- Plugin lifecycle (`__init__`, `initGui`, `unload`, `classFactory`, the action and icon wiring) at lines 8-24 and 110-111. These are host GUI hooks with no logic.
- The project-path and target-folder checks and their early returns (lines 28-41). The project CRS lookup (line 54) is not modelled; the CRS is a parameter of `Import`.
- The file dialog (lines 44-51). The selection is an input sequence, and cancelling the dialog, which imports nothing, is not modelled.
- Opening the file and reading lines as UTF-8 (lines 60, 75). A file is a `CsvFile` record holding its path, its first line and its remaining lines. Line terminators are part of each row string and are removed by the strip.
- Building the `QgsVectorLayer`, the validity check and adding it to the project (lines 103-108). CSV quoting and WKT parsing happen inside the host library. The model stops at the `LayerRequest` (URI, layer name and detected types) handed to it.
- The `print` diagnostics (lines 30, 40, 84, 98, 108). The types printed at line 98 are returned in `LayerRequest.detected` instead.
- Line 98 on an empty selection reads the unbound `fname` and raises `NameError`. The model returns `Failed(NoFileSelected)`.
- The iteration order of the Python dicts. Tables and type maps are Dafny maps, which are unordered.
- InferType: `str.isalpha` is approximated by the ASCII letters, so a column whose only letters are non-ASCII is classed `integer` here and `string` in the source.
- LayerName: `os.path.basename` is modelled for POSIX paths (`/` separator only); a Windows `\` separator is not recognised.
- RemoveAll: requires a non-empty pattern, since Python's `replace('', '')` case never arises (the only pattern used is `.csv`).
