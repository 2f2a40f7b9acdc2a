/**
 * The column sniffing and layer-request construction that
 * `BatchCSVWKTImporter.csv_importer` performs on each selected CSV file:
 * the header and row split on the first `)",`, the column table, the coarse
 * type guess per column, and the layer name and data-source URI built for the
 * last selected file.
 */
module Importer {
  import opened PyStr

  // ---------------------------------------------------------------------------
  // Splitting a line
  // ---------------------------------------------------------------------------

  /** The closing of a quoted WKT value followed by the next field. */
  const Marker := ")\","
  /** What the first `Marker` of a line is rewritten to. */
  const Rewrite := ")|"
  /** The separator the rewritten line is split on. */
  const Bar := '|'

  /** A stripped line with its first `Marker` rewritten to `Rewrite`. */
  function FixLine(line: string): string {
    FixLineOf(Strip(line))
  }

  function FixLineOf(s: string): string {
    ReplaceFirst(s, Marker, Rewrite)
  }

  /**
   * The pieces of a header or data line: `line.strip().replace(')",', ')|', 1).split('|')`.
   * There is always at least one, and none holds `|`.
   */
  function FixAndSplit(line: string): (pieces: seq<string>)
    ensures pieces != []
    ensures forall i :: 0 <= i < |pieces| ==> Bar !in pieces[i]
  {
    SplitPieces(FixLine(line), Bar);
    Split(FixLine(line), Bar)
  }

  /**
   * Joining the pieces with `|` gives back the stripped line with its first
   * `)",` replaced by `)|`; everything after that occurrence, later `)",`
   * included, is left as it was.
   */
  lemma FixAndSplitJoin(line: string)
    ensures var s := Strip(line);
            (forall j :: !OccursAt(s, Marker, j)) ==> Join(FixAndSplit(line), [Bar]) == s
    ensures var s := Strip(line);
            forall i :: OccursAt(s, Marker, i) && (forall j :: 0 <= j < i ==> !OccursAt(s, Marker, j))
                        ==> Join(FixAndSplit(line), [Bar]) == s[..i] + Rewrite + s[i + |Marker|..]
  {
    SplitJoinBack(FixLine(line), Bar);
  }

  /**
   * Every `|` already in the stripped line splits it, and so does the one
   * that replaces the first `)",`; commas never do. On a line without `|`
   * that makes two pieces when the line holds `)",` and one when it does not.
   */
  lemma FixAndSplitPieces(line: string)
    ensures |FixAndSplit(line)|
            == multiset(Strip(line))[Bar] + if exists j :: OccursAt(Strip(line), Marker, j) then 2 else 1
    ensures Bar !in Strip(line) ==>
            |FixAndSplit(line)| == if exists j :: OccursAt(Strip(line), Marker, j) then 2 else 1
  {
    var s := Strip(line);
    SplitCount(FixLineOf(s), Bar);
    if Bar !in s {
      assert multiset(s)[Bar] == 0;
    }
    match Find(s, Marker)
    case None =>
    case Some(i) =>
      RewriteAddsBar(s, i);
  }

  /** Rewriting a marker adds exactly one `|`. */
  lemma RewriteAddsBar(s: string, i: nat)
    requires Find(s, Marker) == Some(i)
    ensures multiset(FixLineOf(s))[Bar] == multiset(s)[Bar] + 1
  {
    var head, rest := s[..i], s[i + |Marker|..];
    assert s == head + Marker + rest;
    assert multiset(s) == multiset(head) + multiset(Marker) + multiset(rest);
    assert multiset(FixLineOf(s)) == multiset(head) + multiset(Rewrite) + multiset(rest);
    MarkerCounts();
  }

  lemma MarkerCounts()
    ensures multiset(Marker)[Bar] == 0 && multiset(Rewrite)[Bar] == 1
  {
    assert Marker == [')', '"', ','] && Rewrite == [')', '|'];
    assert multiset(Rewrite) == multiset{')', '|'};
  }

  /** Appends `)` to every piece but the last, as the header's list comprehension does. */
  function FixHeader(pieces: seq<string>): (h: seq<string>)
    ensures |h| == |pieces|
    ensures forall i :: 0 <= i < |pieces| - 1 ==> h[i] == pieces[i] + ")"
    ensures pieces != [] ==> h[|h| - 1] == pieces[|pieces| - 1]
  {
    if |pieces| <= 1 then pieces
    else [pieces[0] + ")"] + FixHeader(pieces[1..])
  }

  /**
   * The column names read from the first line of a file: its pieces, each
   * but the last closed with `)`. There is one name per piece, and none holds `|`.
   */
  function Header(line: string): (h: seq<string>)
    ensures |h| == |FixAndSplit(line)|
    ensures forall i :: 0 <= i < |h| ==> Bar !in h[i]
  {
    FixHeader(FixAndSplit(line))
  }

  /**
   * When the first `)",` of the header comes before any `|`, the first piece
   * already ends in the `)` kept by the rewrite, and the header's list
   * comprehension appends a second.
   */
  lemma HeaderFirstColumn(line: string, i: nat)
    requires OccursAt(Strip(line), Marker, i)
    requires forall j :: 0 <= j < i ==> !OccursAt(Strip(line), Marker, j)
    requires Bar !in Strip(line)[..i]
    ensures Header(line)[0] == Strip(line)[..i] + "))"
  {
    FirstPiece(Strip(line), i);
  }

  lemma FirstPiece(s: string, i: nat)
    requires OccursAt(s, Marker, i)
    requires forall j :: 0 <= j < i ==> !OccursAt(s, Marker, j)
    requires Bar !in s[..i]
    ensures var pieces := Split(FixLineOf(s), Bar);
            |pieces| >= 2 && pieces[0] == s[..i] + ")"
  {
    FirstMarker(s, i);
    var first, rest := s[..i] + ")", s[i + |Marker|..];
    assert FixLineOf(s) == first + [Bar] + rest;
    SplitAround(first, rest, Bar);
  }

  /** `Find` reports the first occurrence of the marker. */
  lemma FirstMarker(s: string, i: nat)
    requires OccursAt(s, Marker, i)
    requires forall j :: 0 <= j < i ==> !OccursAt(s, Marker, j)
    ensures Find(s, Marker) == Some(i)
    ensures FixLineOf(s) == s[..i] + Rewrite + s[i + |Marker|..]
  {
  }

  // ---------------------------------------------------------------------------
  // The column table
  // ---------------------------------------------------------------------------

  /** Column name to the values read for it so far (`column_data`). */
  type Table = map<string, seq<string>>

  function Names(header: seq<string>): set<string> {
    set k | k in header
  }

  predicate Distinct(header: seq<string>) {
    forall i, j :: 0 <= i < j < |header| ==> header[i] != header[j]
  }

  /** The initial `column_data`: one empty list per header name; repeated names share one entry. */
  function EmptyTable(header: seq<string>): Table {
    map k | k in header :: []
  }

  /** What an accepted row adds to column `k`: each value whose header name is `k`, in order. */
  function Cells(header: seq<string>, values: seq<string>, k: string): seq<string>
    requires |values| == |header|
  {
    if header == [] then []
    else
      var n := |header| - 1;
      Cells(header[..n], values[..n], k) + (if header[n] == k then [values[n]] else [])
  }

  /** Taking one more position of the row into account. */
  lemma CellsNext(header: seq<string>, values: seq<string>, i: nat)
    requires |values| == |header| && i < |header|
    ensures forall k :: Cells(header[..i + 1], values[..i + 1], k)
                        == Cells(header[..i], values[..i], k) + (if header[i] == k then [values[i]] else [])
  {
    assert header[..i + 1][..i] == header[..i] && values[..i + 1][..i] == values[..i];
  }

  lemma {:induction false} CellsAbsent(header: seq<string>, values: seq<string>, k: string)
    requires |values| == |header|
    requires k !in header
    ensures Cells(header, values, k) == []
  {
    if header != [] {
      var n := |header| - 1;
      CellsAbsent(header[..n], values[..n], k);
    }
  }

  /** With distinct names, an accepted row adds exactly its own value to each column. */
  lemma {:induction false} CellsDistinct(header: seq<string>, values: seq<string>, j: nat)
    requires |values| == |header|
    requires Distinct(header)
    requires j < |header|
    ensures Cells(header, values, header[j]) == [values[j]]
  {
    var n := |header| - 1;
    if j == n {
      CellsAbsent(header[..n], values[..n], header[j]);
    } else {
      CellsDistinct(header[..n], values[..n], j);
    }
  }

  /** A row is accepted when it splits into as many pieces as the header (`len(values) == len(header)`). */
  predicate Fits(header: seq<string>, line: string) {
    |FixAndSplit(line)| == |header|
  }

  /** The values that reading `rows` in order collects for column `k`. */
  function Column(header: seq<string>, rows: seq<string>, k: string): (c: seq<string>)
    ensures k !in header ==> c == []
  {
    if rows == [] then []
    else
      var n := |rows| - 1;
      var added := if Fits(header, rows[n]) then Cells(header, FixAndSplit(rows[n]), k) else [];
      assert k !in header ==> added == [] by {
        if k !in header && Fits(header, rows[n]) {
          CellsAbsent(header, FixAndSplit(rows[n]), k);
        }
      }
      Column(header, rows[..n], k) + added
  }

  /** How many of `rows` are accepted. */
  function Accepted(header: seq<string>, rows: seq<string>): nat {
    if rows == [] then 0
    else
      var n := |rows| - 1;
      Accepted(header, rows[..n]) + (if Fits(header, rows[n]) then 1 else 0)
  }

  /**
   * Reading one more row: an accepted row appends its value `j` to column
   * `header[j]`; a rejected row changes no column.
   */
  lemma ColumnNextRow(header: seq<string>, rows: seq<string>, line: string, j: nat)
    requires Distinct(header)
    requires j < |header|
    ensures Column(header, rows + [line], header[j])
            == Column(header, rows, header[j]) + (if Fits(header, line) then [FixAndSplit(line)[j]] else [])
  {
    assert (rows + [line])[..|rows|] == rows;
    if Fits(header, line) {
      CellsDistinct(header, FixAndSplit(line), j);
    }
  }

  /** With distinct names, every column holds one value per accepted row. */
  lemma {:induction false} ColumnLength(header: seq<string>, rows: seq<string>, k: string)
    requires Distinct(header)
    requires k in header
    ensures |Column(header, rows, k)| == Accepted(header, rows)
  {
    if rows != [] {
      var n := |rows| - 1;
      ColumnLength(header, rows[..n], k);
      var j :| 0 <= j < |header| && header[j] == k;
      if Fits(header, rows[n]) {
        CellsDistinct(header, FixAndSplit(rows[n]), j);
      }
    }
  }

  /** The `column_data[column_name].append(value)` loop: appends value `i` of an accepted row to the list of `header[i]`. */
  method AppendRow(table: Table, header: seq<string>, values: seq<string>) returns (t: Table)
    requires |values| == |header|
    requires forall i :: 0 <= i < |header| ==> header[i] in table
    ensures t.Keys == table.Keys
    ensures forall k :: k in table ==> t[k] == table[k] + Cells(header, values, k)
  {
    t := table;
    for i := 0 to |header|
      invariant t.Keys == table.Keys
      invariant forall k :: k in table ==> t[k] == table[k] + Cells(header[..i], values[..i], k)
    {
      CellsNext(header, values, i);
      t := t[header[i] := t[header[i]] + [values[i]]];
    }
    assert header[..|header|] == header && values[..|values|] == values;
  }

  /**
   * One iteration of the `for line in file` loop: the row is accepted exactly when it
   * has as many pieces as the header, and a rejected row leaves the table as
   * it was.
   */
  method AddRow(table: Table, header: seq<string>, line: string) returns (t: Table, accepted: bool)
    requires forall i :: 0 <= i < |header| ==> header[i] in table
    ensures accepted <==> Fits(header, line)
    ensures t.Keys == table.Keys
    ensures !accepted ==> t == table
    ensures accepted ==> forall k :: k in table ==> t[k] == table[k] + Cells(header, FixAndSplit(line), k)
  {
    var values := FixAndSplit(line);
    accepted := |values| == |header|;
    if accepted {
      t := AppendRow(table, header, values);
    } else {
      t := table;
    }
  }

  /** `column_data` after the `for line in file` loop has read every row of the file. */
  method Accumulate(header: seq<string>, rows: seq<string>) returns (table: Table)
    ensures table.Keys == Names(header)
    ensures forall k :: k in table ==> table[k] == Column(header, rows, k)
  {
    table := EmptyTable(header);
    for n := 0 to |rows|
      invariant table.Keys == Names(header)
      invariant forall k :: k in table ==> table[k] == Column(header, rows[..n], k)
    {
      assert rows[..n + 1][..n] == rows[..n];
      var accepted;
      table, accepted := AddRow(table, header, rows[n]);
    }
    assert rows[..|rows|] == rows;
  }

  // ---------------------------------------------------------------------------
  // Type inference
  // ---------------------------------------------------------------------------

  /** The coarse type guessed for a column: `"geometry"`, `"integer"` or `"string"`. */
  datatype FieldType = Geometry | Integer | String

  /** Every value of the column strips to the empty string (`all(value.strip() == "" ...)`). */
  predicate Blank(values: seq<string>) {
    forall v :: v in values ==> Strip(v) == []
  }

  /** Some character of some value is a letter (`any(char.isalpha() ...)`). */
  predicate HasLetter(values: seq<string>) {
    exists v, c :: v in values && c in v && IsAlpha(c)
  }

  /**
   * The `field_types` entry for one column. The column named `WKT` is geometry whatever it holds; any
   * other column is a string exactly when one of its values holds a letter,
   * and an integer otherwise (an empty or all-blank column included).
   */
  function InferType(name: string, values: seq<string>): (t: FieldType)
    ensures t == Geometry <==> name == "WKT"
    ensures t == String <==> name != "WKT" && HasLetter(values)
  {
    if name == "WKT" then Geometry
    else if Blank(values) then LetterIsNotBlank(values); Integer
    else if HasLetter(values) then String
    else Integer
  }

  /** A value holding a letter does not strip to nothing. */
  lemma LetterIsNotBlank(values: seq<string>)
    requires Blank(values)
    ensures !HasLetter(values)
  {
    forall v, c | v in values && c in v
      ensures !IsAlpha(c)
    {
      StripBlank(v);
    }
  }

  /** A column guessed to be a string stays one however many rows follow. */
  lemma InferTypeGrows(name: string, values: seq<string>, more: seq<string>)
    requires InferType(name, values) == String
    ensures InferType(name, values + more) == String
  {
    var v, c :| v in values && c in v && IsAlpha(c);
    assert v in values + more;
  }

  /**
   * The header's list comprehension closes every name but the last with `)`, so only the
   * last column can be named `WKT` and be taken for geometry.
   */
  lemma WktOnlyLastColumn(line: string, i: nat, values: seq<string>)
    requires i + 1 < |Header(line)|
    ensures InferType(Header(line)[i], values) != Geometry
  {
    var p := FixAndSplit(line)[i];
    assert Header(line)[i] == p + ")";
    assert (p + ")")[|p|] == ')';
  }

  /** The `for column_name, data in column_data.items()` loop: one tag per column of the table, none added or dropped. */
  method InferTypes(table: Table) returns (types: map<string, FieldType>)
    ensures types.Keys == table.Keys
    ensures forall k :: k in types ==> types[k] == InferType(k, table[k])
  {
    types := map[];
    var todo := table.Keys;
    while todo != {}
      invariant todo <= table.Keys
      invariant types.Keys == table.Keys - todo
      invariant forall k :: k in types ==> types[k] == InferType(k, table[k])
      decreases todo
    {
      var k :| k in todo;
      types := types[k := InferType(k, table[k])];
      todo := todo - {k};
    }
  }

  // ---------------------------------------------------------------------------
  // One file, and the selection
  // ---------------------------------------------------------------------------

  /** A selected file: its path, its first line and its remaining lines. */
  datatype CsvFile = CsvFile(path: string, headerLine: string, rows: seq<string>)

  /** The type guessed for each column of `f`. */
  function DetectedTypes(f: CsvFile): map<string, FieldType> {
    var header := Header(f.headerLine);
    map k | k in header :: InferType(k, Column(header, f.rows, k))
  }

  /** The body of the `for fname in selected_files` loop for one file: the types it detects. */
  method ScanFile(f: CsvFile) returns (types: map<string, FieldType>)
    ensures types == DetectedTypes(f)
  {
    var header := Header(f.headerLine);
    var table := Accumulate(header, f.rows);
    types := InferTypes(table);
    var expected := DetectedTypes(f);
    assert types.Keys == expected.Keys;
    forall k | k in types
      ensures types[k] == expected[k]
    {
      assert types[k] == InferType(k, table[k]);
    }
  }

  const Csv := ".csv"

  /** The name of the layer, `os.path.basename(fname).replace('.csv', '')`. */
  function LayerName(path: string): (r: string)
    ensures '/' !in r
    ensures |r| <= |Basename(path)|
  {
    RemoveAllShrinks(Basename(path), Csv);
    RemoveAll(Basename(path), Csv)
  }

  /** Every occurrence of `.csv` goes on its own, since `.` does not recur in it. */
  lemma RemoveCsvAround(x: string, y: string)
    ensures RemoveAll(x + Csv + y, Csv) == RemoveAll(x, Csv) + RemoveAll(y, Csv)
  {
    assert Unbordered(Csv);
    RemoveAllAround(x, Csv, y);
  }

  lemma {:induction false} BasenameAfterSlash(dir: string, name: string)
    requires '/' !in name
    ensures Basename(dir + "/" + name) == name
  {
    if name != [] {
      var n := |name| - 1;
      assert (dir + "/" + name)[..|dir| + 1 + n] == dir + "/" + name[..n];
      BasenameAfterSlash(dir, name[..n]);
      assert name[..n] + [name[n]] == name;
    }
  }

  /**
   * Around any one `.csv` of a `/`-free base name, the layer name is what
   * removing every `.csv` leaves of the text before it followed by what it
   * leaves of the text after it.
   */
  lemma LayerNameAround(dir: string, x: string, y: string)
    requires '/' !in x + y
    ensures LayerName(dir + "/" + x + Csv + y) == RemoveAll(x, Csv) + RemoveAll(y, Csv)
  {
    var name := x + Csv + y;
    assert dir + "/" + x + Csv + y == dir + "/" + name;
    assert forall c :: c in name ==> c in x + y || c in Csv;
    BasenameAfterSlash(dir, name);
    RemoveCsvAround(x, y);
  }

  /**
   * Every `.csv` in the base name goes, not only the extension:
   * `roads.csv.bak.csv` becomes the layer `roads.bak`.
   */
  lemma LayerNameRemovesEveryCsv(dir: string, stem: string, middle: string)
    requires '/' !in stem && '/' !in middle
    requires forall j :: !OccursAt(stem, Csv, j)
    requires forall j :: !OccursAt(middle, Csv, j)
    ensures LayerName(dir + "/" + stem + Csv + middle + Csv) == stem + middle
  {
    var tail := middle + Csv;
    var name := stem + Csv + tail;
    assert dir + "/" + stem + Csv + middle + Csv == dir + "/" + name;
    assert '/' !in name;
    BasenameAfterSlash(dir, name);
    RemoveCsvAround(stem, tail);
    RemoveAllAbsent(stem, Csv);
    assert RemoveAll(name, Csv) == stem + RemoveAll(tail, Csv);
    assert tail == middle + Csv + [];
    RemoveCsvAround(middle, []);
    RemoveAllAbsent(middle, Csv);
    assert RemoveAll(tail, Csv) == middle;
  }

  /** The query the provider is given: comma-delimited, `"`-quoted, geometry in `WKT`. */
  const UriQuery := "?delimiter=,&quote=\"&wktField=WKT&crs="

  /**
   * The data-source URI handed to the delimited-text provider. A path without
   * `?` and the CRS can be read back out of it.
   */
  function BuildUri(path: string, crs: string): (uri: string)
    ensures '?' !in path ==> ParseUri(uri) == Some((path, crs))
  {
    var uri := "file:///" + path + UriQuery + crs;
    if '?' in path then uri
    else ParseTemplate(path, crs); uri
  }

  /** Reads the path and the CRS back out of a URI shaped like `BuildUri`'s. */
  function ParseUri(uri: string): Option<(string, string)> {
    if |uri| < 8 || uri[..8] != "file:///" then None
    else
      var rest := uri[8..];
      match Find(rest, "?")
      case None => None
      case Some(i) =>
        var query := rest[i..];
        if |query| < |UriQuery| || query[..|UriQuery|] != UriQuery then None
        else Some((rest[..i], query[|UriQuery|..]))
  }

  /** A path without `?` and any CRS are recovered intact from the URI template. */
  lemma ParseTemplate(path: string, crs: string)
    requires '?' !in path
    ensures ParseUri("file:///" + path + UriQuery + crs) == Some((path, crs))
  {
    var uri := "file:///" + path + UriQuery + crs;
    var query := UriQuery + crs;
    var rest := path + query;
    assert uri[..8] == "file:///" && uri[8..] == rest;
    assert UriQuery == "?" + UriQuery[1..];
    assert rest == path + "?" + (UriQuery[1..] + crs);
    FindAfter(path, '?', UriQuery[1..] + crs);
    assert rest[..|path|] == path && rest[|path|..] == query;
    assert query[..|UriQuery|] == UriQuery && query[|UriQuery|..] == crs;
  }

  /** What is handed to the layer provider, with the field types the importer prints. */
  datatype LayerRequest = LayerRequest(uri: string, name: string, detected: map<string, FieldType>)

  /** The final report reads `fname`, which an empty selection never binds. */
  datatype ImportError = NoFileSelected

  datatype Outcome = Loaded(request: LayerRequest) | Failed(error: ImportError)

  /**
   * The `for fname in selected_files` loop and what follows it: every file is scanned, but the
   * name, URI and reported types are those of the last file only.
   */
  method Import(selected: seq<CsvFile>, crs: string) returns (r: Outcome)
    ensures selected == [] <==> r.Failed?
    ensures selected != [] ==>
              var last := selected[|selected| - 1];
              r == Loaded(LayerRequest(BuildUri(last.path, crs), LayerName(last.path), DetectedTypes(last)))
  {
    var last: Option<CsvFile> := None;
    var types: map<string, FieldType> := map[];
    for i := 0 to |selected|
      invariant i == 0 ==> last.None?
      invariant i > 0 ==> last == Some(selected[i - 1]) && types == DetectedTypes(selected[i - 1])
    {
      types := ScanFile(selected[i]);
      last := Some(selected[i]);
    }
    match last
    case None =>
      r := Failed(NoFileSelected);
    case Some(f) =>
      r := Loaded(LayerRequest(BuildUri(f.path, crs), LayerName(f.path), types));
  }
}
