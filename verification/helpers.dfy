/** The worksheet helpers of utils/helpers.py over an abstract worksheet: a finite map
    from (row, column) to cell values, both counted from 1, plus the sheet's extent. */
module Helpers {
  import opened Wrappers
  import opened Text
  import opened Seqs
  import opened Dict

  /** A cell value: empty (`None`), text, an integer or a boolean. */
  datatype Value = Blank | Text(s: string) | Int(i: int) | Bool(b: bool)

  /** Python truthiness of a cell value. */
  predicate Truthy(v: Value) {
    match v
    case Blank => false
    case Text(s) => s != ""
    case Int(i) => i != 0
    case Bool(b) => b
  }

  /** `str(v)`. */
  function Str(v: Value): string {
    match v
    case Blank => "None"
    case Text(s) => s
    case Int(i) => IntToString(i)
    case Bool(b) => if b then "True" else "False"
  }

  /** `v in (None, "")`: only an empty cell and the empty string; `0` and `False` are
      values. */
  predicate IsEmptyCell(v: Value) {
    v == Blank || v == Text("")
  }

  /** `str(v).strip() if v else ""`, the text the header passes compare; only text can
      carry outer whitespace (see HeaderTextStrips). */
  function HeaderText(v: Value): string {
    match v
    case Text(s) => Strip(s)
    case _ => if Truthy(v) then Str(v) else ""
  }

  /** The header text is the stripped rendering of a truthy value, and "" otherwise. */
  lemma HeaderTextStrips(v: Value)
    ensures HeaderText(v) == if Truthy(v) then Strip(Str(v)) else ""
  {
    match v
    case Int(i) =>
      IntToStringEdges(i);
      StripUnchanged(IntToString(i));
    case Bool(b) =>
      StripUnchanged(if b then "True" else "False");
    case _ =>
  }

  /** `str(i)` starts with a minus sign or a digit and ends with a digit. */
  lemma IntToStringEdges(i: int)
    ensures var r := IntToString(i);
            (r[0] == '-' || IsDigit(r[0])) && IsDigit(r[|r| - 1])
  {
    var r := IntToString(i);
    if i < 0 {
      var d := NatToDecimal(-i);
      NatToDecimalSpec(-i);
      assert r == "-" + d;
      assert r[|r| - 1] == d[|d| - 1];
    } else {
      NatToDecimalSpec(i);
    }
  }

  /** A header text neither starts nor ends with whitespace. */
  lemma HeaderTextEdges(v: Value)
    ensures var t := HeaderText(v);
            |t| > 0 ==> !IsSpace(t[0]) && !IsSpace(t[|t| - 1])
  {
    match v
    case Text(s) => StripSpec(s);
    case Int(i) => IntToStringEdges(i);
    case _ =>
  }

  /** `normalize(text)`: the header text lower-cased. */
  function Normalize(v: Value): string {
    Lower(HeaderText(v))
  }

  /** A falsy value normalises to "", anything else to its text stripped and
      lower-cased. */
  lemma NormalizeMeaning(v: Value)
    ensures Normalize(v) == if Truthy(v) then Lower(Strip(Str(v))) else ""
  {
    HeaderTextStrips(v);
  }

  /** A normalised name has no outer whitespace and no upper-case ASCII letter. */
  lemma NormalizeShape(v: Value)
    ensures |Normalize(v)| > 0 ==> !IsSpace(Normalize(v)[0]) && !IsSpace(Normalize(v)[|Normalize(v)| - 1])
    ensures forall i :: 0 <= i < |Normalize(v)| ==> !('A' <= Normalize(v)[i] <= 'Z')
  {
    HeaderTextEdges(v);
    LowerStripped(HeaderText(v));
  }

  lemma LowerStripped(t: string)
    requires |t| > 0 ==> !IsSpace(t[0]) && !IsSpace(t[|t| - 1])
    ensures |Lower(t)| > 0 ==> !IsSpace(Lower(t)[0]) && !IsSpace(Lower(t)[|t| - 1])
    ensures forall i :: 0 <= i < |t| ==> !('A' <= Lower(t)[i] <= 'Z')
  {
  }

  /** Normalising is idempotent: a normalised name normalises to itself. */
  lemma NormalizeIdempotent(v: Value)
    ensures Normalize(Text(Normalize(v))) == Normalize(v)
  {
    var n := Normalize(v);
    NormalizeShape(v);
    StripUnchanged(n);
    assert HeaderText(Text(n)) == n;
    LowerIdempotent(HeaderText(v));
  }

  // ---------------------------------------------------------------------------
  // Worksheets
  // ---------------------------------------------------------------------------

  /** A worksheet: its cells and `max_row` / `max_column`. */
  datatype Sheet = Sheet(cells: map<(int, int), Value>, maxRow: nat, maxCol: nat)

  /** `ws.cell(row, column).value`; a cell never written is empty. */
  function Cell(cells: map<(int, int), Value>, row: int, col: int): Value {
    if (row, col) in cells then cells[(row, col)] else Blank
  }

  /** `ws[row]`: the values of columns 1 to `max_column` of a row. */
  function RowValues(ws: Sheet, row: int): (r: seq<Value>)
    ensures |r| == ws.maxCol
    ensures forall i :: 0 <= i < |r| ==> r[i] == Cell(ws.cells, row, i + 1)
  {
    seq(ws.maxCol, i requires 0 <= i < ws.maxCol => Cell(ws.cells, row, i + 1))
  }

  /** The last row `get_header_row` inspects. */
  const HeaderScanRows: nat := 100

  /** Row `row` has a first cell that normalises like `header`. */
  predicate HeaderAt(cells: map<(int, int), Value>, row: int, header: Value) {
    Normalize(Cell(cells, row, 1)) == Normalize(header)
  }

  /** `get_header_row(ws, match_value)`: the smallest row in 1..100 whose column-A value
      normalises to the normalised header text; `None` where the source raises. */
  function GetHeaderRow(ws: Sheet, header: Value): (r: Option<nat>)
    ensures r.Some? ==> (1 <= r.value <= HeaderScanRows && HeaderAt(ws.cells, r.value, header)
                         && forall row :: 1 <= row < r.value ==> !HeaderAt(ws.cells, row, header))
    ensures r.None? ==> forall row :: 1 <= row <= HeaderScanRows ==> !HeaderAt(ws.cells, row, header)
  {
    HeaderSearch(ws.cells, header, 1)
  }

  /** The scan from `row` on. */
  function HeaderSearch(cells: map<(int, int), Value>, header: Value, row: nat): (r: Option<nat>)
    ensures r.Some? ==> (row <= r.value <= HeaderScanRows && HeaderAt(cells, r.value, header)
                         && forall j :: row <= j < r.value ==> !HeaderAt(cells, j, header))
    ensures r.None? ==> forall j :: row <= j <= HeaderScanRows ==> !HeaderAt(cells, j, header)
    decreases HeaderScanRows + 1 - row
  {
    if row > HeaderScanRows then None
    else if HeaderAt(cells, row, header) then Some(row)
    else HeaderSearch(cells, header, row + 1)
  }

  // ---------------------------------------------------------------------------
  // Collision-free column names
  // ---------------------------------------------------------------------------

  /** `f"{base} ({k})"`. */
  function Numbered(base: string, k: nat): string {
    base + " (" + NatToDecimal(k) + ")"
  }

  /** The `count`-th name the renaming loop tries: the plain name first. */
  function NameFor(base: string, count: nat): string {
    if count <= 1 then base else Numbered(base, count)
  }

  lemma NameForLength(base: string, k: nat)
    ensures |NameFor(base, k)| >= |base|
  {
  }

  /** Different counts give different names. */
  lemma NameForInjective(base: string, j: nat, k: nat)
    requires 1 <= j && 1 <= k && NameFor(base, j) == NameFor(base, k)
    ensures j == k
  {
    if j > 1 && k > 1 {
      var a := NameFor(base, j);
      var dj := NatToDecimal(j);
      var dk := NatToDecimal(k);
      assert |dj| == |dk|;
      assert a[|base| + 2..|a| - 1] == dj;
      assert NameFor(base, k)[|base| + 2..|a| - 1] == dk;
      NatToDecimalInjective(j, k);
    }
  }

  /** The first `c - 1` candidate names are pairwise different. */
  lemma {:induction false} CandidatesCard(base: string, c: nat)
    requires c >= 1
    ensures |Candidates(base, c)| == c - 1
    decreases c
  {
    if c > 1 {
      CandidatesCard(base, c - 1);
      var before := Candidates(base, c - 1);
      CandidatesSnoc(base, c);
      if NameFor(base, c - 1) in before {
        var j :| 1 <= j < c - 1 && NameFor(base, j) == NameFor(base, c - 1);
        NameForInjective(base, j, c - 1);
      }
    }
  }

  /** The names the loop tries below count `c`. */
  function Candidates(base: string, c: nat): set<string> {
    set j | 1 <= j < c :: NameFor(base, j)
  }

  lemma CandidatesSnoc(base: string, c: nat)
    requires c > 1
    ensures Candidates(base, c) == Candidates(base, c - 1) + {NameFor(base, c - 1)}
  {
    forall x | x in Candidates(base, c) ensures x in Candidates(base, c - 1) + {NameFor(base, c - 1)} {
      var j :| 1 <= j < c && NameFor(base, j) == x;
      if j < c - 1 {
        assert x in Candidates(base, c - 1);
      }
    }
    forall x | x in Candidates(base, c - 1) ensures x in Candidates(base, c) {
      var j :| 1 <= j < c - 1 && NameFor(base, j) == x;
    }
  }

  /** A sequence has at most as many distinct elements as positions. */
  lemma {:induction false} ElementsCard(s: seq<string>)
    ensures |set i | 0 <= i < |s| :: s[i]| <= |s|
    decreases |s|
  {
    if |s| > 0 {
      var init := s[..|s| - 1];
      ElementsCard(init);
      assert (set i | 0 <= i < |s| :: s[i]) == (set i | 0 <= i < |init| :: init[i]) + {s[|s| - 1]};
    }
  }

  lemma SubsetCard(a: set<string>, b: set<string>)
    requires a <= b
    ensures |a| <= |b|
  {
    assert b == a + (b - a);
  }

  /** All candidates below `c` being taken bounds `c` by the number of names taken: the
      renaming loop terminates. */
  lemma CandidatesBound(keys: seq<string>, base: string, c: nat)
    requires c >= 1
    requires forall j :: 1 <= j < c ==> NameFor(base, j) in keys
    ensures c - 1 <= |keys|
  {
    var cands := Candidates(base, c);
    var elems := set i | 0 <= i < |keys| :: keys[i];
    forall x | x in cands ensures x in elems {
      var i :| 0 <= i < |keys| && keys[i] == x;
    }
    CandidatesCard(base, c);
    ElementsCard(keys);
    SubsetCard(cands, elems);
  }

  /** The `while name in col_map` loop: the first count from `count` on whose name is
      free, every count before it being taken. */
  function FreeCount(keys: seq<string>, base: string, count: nat): (k: nat)
    requires count >= 1
    requires forall j :: 1 <= j < count ==> NameFor(base, j) in keys
    ensures k >= count && NameFor(base, k) !in keys
    ensures forall j :: 1 <= j < k ==> NameFor(base, j) in keys
    decreases |keys| + 1 - count
  {
    if NameFor(base, count) !in keys then count
    else
      CandidatesBound(keys, base, count + 1);
      FreeCount(keys, base, count + 1)
  }

  /** The number of cells of a row whose value normalises to a non-empty name. */
  function NamedCount(row: seq<Value>): nat
    decreases |row|
  {
    if |row| == 0 then 0
    else NamedCount(row[..|row| - 1]) + (if Normalize(row[|row| - 1]) != "" then 1 else 0)
  }

  /** `get_column_map` over the values of the header row (column = position + 1). */
  function ColumnMap(row: seq<Value>): (m: seq<(string, int)>)
    ensures Distinct(Keys(m))
    decreases |row|
  {
    if |row| == 0 then []
    else
      var m := ColumnMap(row[..|row| - 1]);
      var name := Normalize(row[|row| - 1]);
      if name == "" then m
      else Put(m, NameFor(name, FreeCount(Keys(m), name, 1)), |row|)
  }

  /** Column `c` (1-based) of `row` holds a value that normalises to a non-empty name. */
  predicate NamedAt(row: seq<Value>, c: int) {
    1 <= c <= |row| && Normalize(row[c - 1]) != ""
  }

  lemma NamedAtSnoc(row: seq<Value>, c: int)
    requires |row| > 0 && NamedAt(row[..|row| - 1], c)
    ensures NamedAt(row, c)
  {
    assert row[c - 1] == row[..|row| - 1][c - 1];
  }

  /** The entry a non-blank last cell adds to the map of the cells before it. */
  lemma ColumnMapSnoc(row: seq<Value>)
    requires |row| > 0 && Normalize(row[|row| - 1]) != ""
    ensures var m := ColumnMap(row[..|row| - 1]);
            var name := Normalize(row[|row| - 1]);
            ColumnMap(row) == m + [(NameFor(name, FreeCount(Keys(m), name, 1)), |row|)]
  {
    var m := ColumnMap(row[..|row| - 1]);
    var name := Normalize(row[|row| - 1]);
    PutFresh(m, NameFor(name, FreeCount(Keys(m), name, 1)), |row|);
  }

  /** No entry is made under the empty name. */
  lemma {:induction false} ColumnMapNoBlankKey(row: seq<Value>)
    ensures "" !in Keys(ColumnMap(row))
    decreases |row|
  {
    if |row| > 0 {
      var init := row[..|row| - 1];
      ColumnMapNoBlankKey(init);
      var m := ColumnMap(init);
      var name := Normalize(row[|row| - 1]);
      if name != "" {
        ColumnMapSnoc(row);
        var k := FreeCount(Keys(m), name, 1);
        NameForLength(name, k);
        assert Keys(ColumnMap(row)) == Keys(m) + [NameFor(name, k)];
      }
    }
  }

  /** One entry per non-blank header cell. */
  lemma {:induction false} ColumnMapSize(row: seq<Value>)
    ensures |ColumnMap(row)| == NamedCount(row)
    decreases |row|
  {
    if |row| > 0 {
      ColumnMapSize(row[..|row| - 1]);
      if Normalize(row[|row| - 1]) != "" {
        ColumnMapSnoc(row);
      }
    }
  }

  /** Every entry holds the column of a non-blank header cell. */
  lemma {:induction false} ColumnMapColumns(row: seq<Value>)
    ensures forall i :: 0 <= i < |ColumnMap(row)| ==> NamedAt(row, ColumnMap(row)[i].1)
    decreases |row|
  {
    if |row| > 0 {
      var init := row[..|row| - 1];
      ColumnMapColumns(init);
      var m := ColumnMap(init);
      forall i | 0 <= i < |m| ensures NamedAt(row, m[i].1) {
        NamedAtSnoc(row, m[i].1);
      }
      if Normalize(row[|row| - 1]) != "" {
        ColumnMapSnoc(row);
      }
    }
  }

  /** A non-blank header cell is entered under its plain name if that is free, and
      otherwise under `"name (k)"` for the smallest k >= 2 whose name is free; blank
      cells are skipped. */
  lemma ColumnMapStep(row: seq<Value>, v: Value)
    ensures var m := ColumnMap(row);
            var name := Normalize(v);
            name == "" ==> ColumnMap(row + [v]) == m
    ensures var m := ColumnMap(row);
            var name := Normalize(v);
            name != "" ==> exists k :: (1 <= k
              && ColumnMap(row + [v]) == m + [(NameFor(name, k), |row| + 1)]
              && NameFor(name, k) !in Keys(m)
              && (forall j :: 1 <= j < k ==> NameFor(name, j) in Keys(m)))
  {
    assert (row + [v])[..|row|] == row;
    var m := ColumnMap(row);
    var name := Normalize(v);
    if name != "" {
      var k := FreeCount(Keys(m), name, 1);
      ColumnMapSnoc(row + [v]);
      assert ColumnMap(row + [v]) == m + [(NameFor(name, k), |row| + 1)];
    }
  }

  /** `get_column_map(ws, header_row)`. */
  function GetColumnMap(ws: Sheet, headerRow: int): (m: seq<(string, int)>)
    ensures Distinct(Keys(m))
    ensures forall i :: 0 <= i < |m| ==> 1 <= m[i].1 <= ws.maxCol
  {
    ColumnMapColumns(RowValues(ws, headerRow));
    ColumnMap(RowValues(ws, headerRow))
  }

  // ---------------------------------------------------------------------------
  // Copying
  // ---------------------------------------------------------------------------

  /** Writes `v` to (row, col) of `cells` unless `v` is None or "". */
  function CopyIfValue(cells: map<(int, int), Value>, row: int, col: int, v: Value): map<(int, int), Value> {
    if IsEmptyCell(v) then cells else cells[(row, col) := v]
  }

  /** Rows `start`..5 of `copy_metadata`'s loop. */
  function CopyMetadataFrom(src: map<(int, int), Value>, tgt: map<(int, int), Value>, start: int): (r: map<(int, int), Value>)
    requires 2 <= start <= 6
    ensures forall row, col :: Cell(r, row, col) ==
              if col == 2 && start <= row <= 5 && !IsEmptyCell(Cell(src, row, 2)) then Cell(src, row, 2)
              else Cell(tgt, row, col)
    decreases 6 - start
  {
    if start == 6 then tgt
    else CopyMetadataFrom(src, CopyIfValue(tgt, start, 2, Cell(src, start, 2)), start + 1)
  }

  /** `copy_metadata(ws_src, ws_tgt)`: column B of rows 2 to 5 is copied where the source
      holds neither None nor ""; every other target cell keeps its value. */
  function CopyMetadata(src: map<(int, int), Value>, tgt: map<(int, int), Value>): (r: map<(int, int), Value>)
    ensures forall row, col :: Cell(r, row, col) ==
              if col == 2 && 2 <= row <= 5 && !IsEmptyCell(Cell(src, row, 2)) then Cell(src, row, 2)
              else Cell(tgt, row, col)
  {
    CopyMetadataFrom(src, tgt, 2)
  }

  /** `COLUMN_NAME_MAPPING`: two source headers renamed to the target's header. */
  function ColumnNameMapping(name: string): Option<string> {
    if name == "stagehist table name" || name == "staging table name / static dataset name"
    then Some("staging table name / static dataset name (xref tab)")
    else None
  }

  /** The target header a source header is looked up under: renamed, then normalised. */
  function MappedName(name: string): string {
    Normalize(Text(ColumnNameMapping(name).GetOr(name)))
  }

  /** Source column `i` is written to target column `t`: the target has its mapped name
      as `t`'s header. */
  predicate RoutedTo(srcCols: seq<(string, int)>, tgtCols: seq<(string, int)>, i: int, t: int) {
    0 <= i < |srcCols| && Get(tgtCols, MappedName(srcCols[i].0)) == Some(t)
  }

  /** For each source column, in source-map order, the target column it is written to:
      the one under the normalised (renamed) name, if the target has it. */
  function Routes(srcCols: seq<(string, int)>, tgtCols: seq<(string, int)>): (rs: seq<(int, int)>)
    ensures forall i :: 0 <= i < |rs| ==> rs[i].1 in Keys(Swap(tgtCols))
    decreases |srcCols|
  {
    if |srcCols| == 0 then []
    else
      var (name, col) := srcCols[|srcCols| - 1];
      var mapped := MappedName(name);
      var rest := Routes(srcCols[..|srcCols| - 1], tgtCols);
      match Get(tgtCols, mapped)
      case None => rest
      case Some(t) =>
        assert t in Keys(Swap(tgtCols)) by {
          var i := FirstIndex(Keys(tgtCols), mapped);
          assert Swap(tgtCols)[i].0 == t;
        }
        rest + [(col, t)]
  }

  /** The last source column adds its route, if any, after those of the others. */
  lemma RoutesStep(srcCols: seq<(string, int)>, tgtCols: seq<(string, int)>)
    requires |srcCols| > 0
    ensures var n := |srcCols| - 1;
            Routes(srcCols, tgtCols) ==
              match Get(tgtCols, MappedName(srcCols[n].0))
              case None => Routes(srcCols[..n], tgtCols)
              case Some(t) => Routes(srcCols[..n], tgtCols) + [(srcCols[n].1, t)]
  {
  }

  /** The columns of a column map, each with its name. */
  function Swap(m: seq<(string, int)>): (r: seq<(int, string)>)
    ensures |r| == |m|
    ensures forall i :: 0 <= i < |m| ==> r[i] == (m[i].1, m[i].0)
  {
    seq(|m|, i requires 0 <= i < |m| => (m[i].1, m[i].0))
  }

  /** Copies one row along the routes, in order; a later route to the same target column
      overwrites an earlier one. */
  function CopyRow(cells: map<(int, int), Value>, src: map<(int, int), Value>, srcRow: int, tgtRow: int,
                   routes: seq<(int, int)>): (r: map<(int, int), Value>)
    decreases |routes|
  {
    if |routes| == 0 then cells
    else
      var c := CopyRow(cells, src, srcRow, tgtRow, routes[..|routes| - 1]);
      var (s, t) := routes[|routes| - 1];
      c[(tgtRow, t) := Cell(src, srcRow, s)]
  }

  /** The source column whose value ends up in target column `t`: the last route to it. */
  function LastRoute(routes: seq<(int, int)>, t: int): Option<int>
    decreases |routes|
  {
    if |routes| == 0 then None
    else if routes[|routes| - 1].1 == t then Some(routes[|routes| - 1].0)
    else LastRoute(routes[..|routes| - 1], t)
  }

  /** The target column each source column's header is looked up to, in source-map order. */
  function Lookups(srcCols: seq<(string, int)>, tgtCols: seq<(string, int)>): (ls: seq<Option<int>>)
    ensures |ls| == |srcCols|
  {
    seq(|srcCols|, i requires 0 <= i < |srcCols| => Get(tgtCols, MappedName(srcCols[i].0)))
  }

  /** Each lookup is that of its column's mapped header. */
  lemma LookupsAt(srcCols: seq<(string, int)>, tgtCols: seq<(string, int)>, i: int)
    requires 0 <= i < |srcCols|
    ensures Lookups(srcCols, tgtCols)[i] == Get(tgtCols, MappedName(srcCols[i].0))
  {
  }

  /** The lookups of a prefix of the columns are a prefix of the lookups. */
  lemma LookupsPrefix(srcCols: seq<(string, int)>, tgtCols: seq<(string, int)>, n: int)
    requires 0 <= n <= |srcCols|
    ensures Lookups(srcCols, tgtCols)[..n] == Lookups(srcCols[..n], tgtCols)
  {
    forall j | 0 <= j < n ensures Lookups(srcCols, tgtCols)[j] == Lookups(srcCols[..n], tgtCols)[j] {
      LookupsAt(srcCols, tgtCols, j);
      LookupsAt(srcCols[..n], tgtCols, j);
      assert srcCols[..n][j] == srcCols[j];
    }
  }

  /** The routes of the source columns whose lookups are `ls`. */
  function RoutesOf(srcCols: seq<(string, int)>, ls: seq<Option<int>>): seq<(int, int)>
    requires |ls| == |srcCols|
    decreases |srcCols|
  {
    if |srcCols| == 0 then []
    else
      var n := |srcCols| - 1;
      var rest := RoutesOf(srcCols[..n], ls[..n]);
      match ls[n]
      case None => rest
      case Some(t) => rest + [(srcCols[n].1, t)]
  }

  /** `Routes` routes each column along its lookup. */
  lemma {:induction false} RoutesAreOf(srcCols: seq<(string, int)>, tgtCols: seq<(string, int)>)
    ensures Routes(srcCols, tgtCols) == RoutesOf(srcCols, Lookups(srcCols, tgtCols))
    decreases |srcCols|
  {
    if |srcCols| > 0 {
      var n := |srcCols| - 1;
      var ls := Lookups(srcCols, tgtCols);
      RoutesAreOf(srcCols[..n], tgtCols);
      RoutesStep(srcCols, tgtCols);
      LookupsPrefix(srcCols, tgtCols, n);
      LookupsAt(srcCols, tgtCols, n);
    }
  }

  /** Target column `t` receives the value of the last source column whose lookup is `t`,
      and of none when there is no such column. */
  lemma {:induction false} LastRouteOf(srcCols: seq<(string, int)>, ls: seq<Option<int>>, t: int)
    requires |ls| == |srcCols|
    ensures LastRoute(RoutesOf(srcCols, ls), t).None? <==>
              forall i :: 0 <= i < |srcCols| ==> ls[i] != Some(t)
    ensures forall i :: 0 <= i < |srcCols| && ls[i] == Some(t) &&
                        (forall j :: i < j < |srcCols| ==> ls[j] != Some(t)) ==>
              LastRoute(RoutesOf(srcCols, ls), t) == Some(srcCols[i].1)
    decreases |srcCols|
  {
    if |srcCols| > 0 {
      var n := |srcCols| - 1;
      var pre := srcCols[..n];
      var lp := ls[..n];
      LastRouteOf(pre, lp, t);
      LastRouteOfStep(srcCols, ls, t);
      forall i | 0 <= i < n ensures lp[i] == ls[i] && pre[i] == srcCols[i] {
      }
      if ls[n] == Some(t) {
        forall i | 0 <= i < |srcCols| && ls[i] == Some(t) &&
                   (forall j :: i < j < |srcCols| ==> ls[j] != Some(t))
          ensures LastRoute(RoutesOf(srcCols, ls), t) == Some(srcCols[i].1)
        {
          assert i == n;
        }
      }
    }
  }

  /** The last column's route, if it goes to `t`, is the last to `t`. */
  lemma LastRouteOfStep(srcCols: seq<(string, int)>, ls: seq<Option<int>>, t: int)
    requires |ls| == |srcCols| > 0
    ensures LastRoute(RoutesOf(srcCols, ls), t) ==
              if ls[|srcCols| - 1] == Some(t) then Some(srcCols[|srcCols| - 1].1)
              else LastRoute(RoutesOf(srcCols[..|srcCols| - 1], ls[..|srcCols| - 1]), t)
  {
    var n := |srcCols| - 1;
    var rest := RoutesOf(srcCols[..n], ls[..n]);
    match ls[n]
    case None =>
    case Some(t') =>
      LastRouteAppend(rest, (srcCols[n].1, t'), t);
  }

  /** Target column `t` receives the value of the last source column, in source-map
      order, whose renamed, normalised header the target has as `t`'s header, and of
      none when there is no such column. */
  lemma LastRouteSpec(srcCols: seq<(string, int)>, tgtCols: seq<(string, int)>, t: int)
    ensures LastRoute(Routes(srcCols, tgtCols), t).None? <==>
              forall i :: 0 <= i < |srcCols| ==> !RoutedTo(srcCols, tgtCols, i, t)
    ensures forall i :: RoutedTo(srcCols, tgtCols, i, t) &&
                        (forall j :: i < j < |srcCols| ==> !RoutedTo(srcCols, tgtCols, j, t)) ==>
              LastRoute(Routes(srcCols, tgtCols), t) == Some(srcCols[i].1)
  {
    var ls := Lookups(srcCols, tgtCols);
    RoutesAreOf(srcCols, tgtCols);
    LastRouteOf(srcCols, ls, t);
    forall i | 0 <= i < |srcCols| ensures RoutedTo(srcCols, tgtCols, i, t) == (ls[i] == Some(t)) {
      LookupsAt(srcCols, tgtCols, i);
    }
  }

  /** A route appended last wins for its target column. */
  lemma LastRouteAppend(routes: seq<(int, int)>, r: (int, int), t: int)
    ensures LastRoute(routes + [r], t) == if r.1 == t then Some(r.0) else LastRoute(routes, t)
  {
    assert (routes + [r])[..|routes|] == routes;
  }

  /** Copying a row writes the target row only, each routed column receiving the value
      of its last route's source column. */
  lemma {:induction false} CopyRowCells(cells: map<(int, int), Value>, src: map<(int, int), Value>,
                                         srcRow: int, tgtRow: int, routes: seq<(int, int)>, row: int, col: int)
    ensures Cell(CopyRow(cells, src, srcRow, tgtRow, routes), row, col) ==
              if row == tgtRow && LastRoute(routes, col).Some?
              then Cell(src, srcRow, LastRoute(routes, col).value)
              else Cell(cells, row, col)
    decreases |routes|
  {
    if |routes| > 0 {
      CopyRowCells(cells, src, srcRow, tgtRow, routes[..|routes| - 1], row, col);
    }
  }

  /** `src_blank`: every mapped source column of the row holds None or "" (vacuously
      true when the source map is empty). */
  predicate RowBlank(src: map<(int, int), Value>, row: int, srcCols: seq<(string, int)>) {
    forall i :: 0 <= i < |srcCols| ==> IsEmptyCell(Cell(src, row, srcCols[i].1))
  }

  /** Data row `j` (counted from 0 below the header) exists and is not blank. */
  predicate Copies(ws: Sheet, headerRow: int, srcCols: seq<(string, int)>, j: int) {
    headerRow + 1 + j <= ws.maxRow && !RowBlank(ws.cells, headerRow + 1 + j, srcCols)
  }

  /** The number of rows copied from offset `k` on: rows continue while they exist and
      are not blank. */
  function RowsFrom(ws: Sheet, headerRow: int, srcCols: seq<(string, int)>, k: nat): (n: nat)
    ensures n >= k
    ensures forall j :: k <= j < n ==> Copies(ws, headerRow, srcCols, j)
    ensures !Copies(ws, headerRow, srcCols, n)
    decreases ws.maxRow - (headerRow + 1 + k)
  {
    if !Copies(ws, headerRow, srcCols, k) then k
    else RowsFrom(ws, headerRow, srcCols, k + 1)
  }

  /** Copies the first `n` data rows. */
  function CopyRows(tgt: map<(int, int), Value>, src: map<(int, int), Value>, srcHeader: int, tgtHeader: int,
                    routes: seq<(int, int)>, n: nat): map<(int, int), Value>
    decreases n
  {
    if n == 0 then tgt
    else CopyRow(CopyRows(tgt, src, srcHeader, tgtHeader, routes, n - 1), src,
                 srcHeader + n, tgtHeader + n, routes)
  }

  /** Rows 1..n after the target header get their routed columns from the matching
      source rows; nothing else changes. */
  lemma {:induction false} CopyRowsCells(tgt: map<(int, int), Value>, src: map<(int, int), Value>, srcHeader: int,
                                          tgtHeader: int, routes: seq<(int, int)>, n: nat, row: int, col: int)
    ensures Cell(CopyRows(tgt, src, srcHeader, tgtHeader, routes, n), row, col) ==
              if tgtHeader + 1 <= row <= tgtHeader + n && LastRoute(routes, col).Some?
              then Cell(src, srcHeader + (row - tgtHeader), LastRoute(routes, col).value)
              else Cell(tgt, row, col)
    decreases n
  {
    if n > 0 {
      CopyRowsCells(tgt, src, srcHeader, tgtHeader, routes, n - 1, row, col);
      CopyRowCells(CopyRows(tgt, src, srcHeader, tgtHeader, routes, n - 1), src,
                   srcHeader + n, tgtHeader + n, routes, row, col);
    }
  }

  /** `copy_table`: the updated target cells and the number of rows copied. */
  function CopyTable(src: Sheet, tgt: Sheet, srcHeader: int, tgtHeader: int): (r: (map<(int, int), Value>, nat))
    ensures forall j :: 0 <= j < r.1 ==> Copies(src, srcHeader, GetColumnMap(src, srcHeader), j)
    ensures !Copies(src, srcHeader, GetColumnMap(src, srcHeader), r.1)
    ensures |GetColumnMap(src, srcHeader)| == 0 ==> r.1 == 0
  {
    var srcCols := GetColumnMap(src, srcHeader);
    var tgtCols := GetColumnMap(tgt, tgtHeader);
    var n := RowsFrom(src, srcHeader, srcCols, 0);
    (CopyRows(tgt.cells, src.cells, srcHeader, tgtHeader, Routes(srcCols, tgtCols), n), n)
  }

  /** Every target cell outside the copied rows, or in a column no source column is
      routed to, keeps its value; a routed cell of a copied row holds the source value
      of the same offset below the source header. */
  lemma CopyTableCells(src: Sheet, tgt: Sheet, srcHeader: int, tgtHeader: int, row: int, col: int)
    ensures var (cells, n) := CopyTable(src, tgt, srcHeader, tgtHeader);
            var route := LastRoute(Routes(GetColumnMap(src, srcHeader), GetColumnMap(tgt, tgtHeader)), col);
            Cell(cells, row, col) ==
              if tgtHeader + 1 <= row <= tgtHeader + n && route.Some?
              then Cell(src.cells, srcHeader + (row - tgtHeader), route.value)
              else Cell(tgt.cells, row, col)
  {
    var srcCols := GetColumnMap(src, srcHeader);
    var tgtCols := GetColumnMap(tgt, tgtHeader);
    var n := RowsFrom(src, srcHeader, srcCols, 0);
    CopyRowsCells(tgt.cells, src.cells, srcHeader, tgtHeader, Routes(srcCols, tgtCols), n, row, col);
  }

  // ---------------------------------------------------------------------------
  // Unwrapping merged header cells
  // ---------------------------------------------------------------------------

  /** A merged cell range, bounds inclusive. */
  datatype Range = Range(minRow: int, maxRow: int, minCol: int, maxCol: int)

  /** The ranges the first pass unmerges: those lying on the header row alone. */
  predicate Unwraps(rng: Range, headerRow: int) {
    rng.minRow == headerRow && rng.maxRow == headerRow
  }

  /** `seen.get(key, 0)`. */
  function SeenCount(seen: map<string, nat>, key: string): nat {
    if key in seen then seen[key] else 0
  }

  /** The inner loop of the first pass over columns `col`..`hi`. */
  function FillRange(cells: map<(int, int), Value>, headerRow: int, base: string, col: int, hi: int,
                     seen: map<string, nat>): (map<(int, int), Value>, map<string, nat>)
    decreases hi - col + 1
  {
    if col > hi then (cells, seen)
    else
      var count := SeenCount(seen, base) + 1;
      FillRange(cells[(headerRow, col) := Text(NameFor(base, count))], headerRow, base, col + 1, hi,
                seen[base := count])
  }

  /** Each header-row column of the range gets the next name of `base` after those
      already handed out; every other cell keeps its value. */
  lemma {:induction false} FillRangeCell(cells: map<(int, int), Value>, headerRow: int, base: string, col: int,
                                          hi: int, seen: map<string, nat>, row: int, c: int)
    ensures Cell(FillRange(cells, headerRow, base, col, hi, seen).0, row, c) ==
              if row == headerRow && col <= c <= hi
              then Text(NameFor(base, SeenCount(seen, base) + (c - col) + 1))
              else Cell(cells, row, c)
    decreases hi - col + 1
  {
    if col <= hi {
      var count := SeenCount(seen, base) + 1;
      var cells' := cells[(headerRow, col) := Text(NameFor(base, count))];
      var seen' := seen[base := count];
      assert FillRange(cells, headerRow, base, col, hi, seen) == FillRange(cells', headerRow, base, col + 1, hi, seen');
      FillRangeCell(cells', headerRow, base, col + 1, hi, seen', row, c);
      if row == headerRow && c == col {
        assert Cell(cells', row, c) == Text(NameFor(base, count));
      } else if row == headerRow && col < c <= hi {
        assert SeenCount(seen', base) == count;
      } else {
        assert Cell(cells', row, c) == Cell(cells, row, c);
      }
    }
  }

  /** The counter of `base` advances by one per column of the range; the other
      counters stay. */
  lemma {:induction false} FillRangeSeen(cells: map<(int, int), Value>, headerRow: int, base: string, col: int,
                                          hi: int, seen: map<string, nat>, key: string)
    ensures SeenCount(FillRange(cells, headerRow, base, col, hi, seen).1, key) ==
              SeenCount(seen, key) + (if key == base && col <= hi then hi - col + 1 else 0)
    decreases hi - col + 1
  {
    if col <= hi {
      var count := SeenCount(seen, base) + 1;
      FillRangeSeen(cells[(headerRow, col) := Text(NameFor(base, count))], headerRow, base, col + 1, hi,
                    seen[base := count], key);
    }
  }

  /** The first pass from the ranges' start on: every range on the header row alone is
      filled from the text of its top-left cell (`str(value).strip()`, so an empty cell
      gives "None"), the counters being shared between ranges. */
  function Pass1(cells: map<(int, int), Value>, headerRow: int, ranges: seq<Range>,
                 seen: map<string, nat>): (r: (map<(int, int), Value>, map<string, nat>))
    decreases |ranges|
  {
    if |ranges| == 0 then (cells, seen)
    else if !Unwraps(ranges[0], headerRow) then Pass1(cells, headerRow, ranges[1..], seen)
    else
      var rng := ranges[0];
      var (c, s) := FillRange(cells, headerRow, Base(cells, headerRow, rng), rng.minCol, rng.maxCol, seen);
      Pass1(c, headerRow, ranges[1..], s)
  }

  /** The name a range is filled from: the text of its top-left cell. */
  function Base(cells: map<(int, int), Value>, headerRow: int, rng: Range): string {
    Strip(Str(Cell(cells, headerRow, rng.minCol)))
  }

  /** Column `c` lies in the range's columns. */
  predicate InRange(rng: Range, c: int) {
    rng.minCol <= c <= rng.maxCol
  }

  /** The number of columns of a range. */
  function Width(rng: Range): nat {
    if rng.minCol <= rng.maxCol then rng.maxCol - rng.minCol + 1 else 0
  }

  /** No column lies in two of the ranges the first pass unmerges, as in a sheet, whose
      merged ranges never overlap. */
  ghost predicate Disjoint(ranges: seq<Range>, headerRow: int) {
    forall i, j, c ::
      0 <= i < j < |ranges| && Unwraps(ranges[i], headerRow) && Unwraps(ranges[j], headerRow) && InRange(ranges[i], c)
      ==> !InRange(ranges[j], c)
  }

  /** How many names of `base` the unmerged ranges among `ranges` hand out. */
  function Handed(cells: map<(int, int), Value>, headerRow: int, ranges: seq<Range>, base: string): nat
    decreases |ranges|
  {
    if |ranges| == 0 then 0
    else
      (if Unwraps(ranges[0], headerRow) && Base(cells, headerRow, ranges[0]) == base then Width(ranges[0]) else 0)
      + Handed(cells, headerRow, ranges[1..], base)
  }

  /** Header-row column `c` lies in a range the first pass unmerges. */
  predicate Covered(ranges: seq<Range>, headerRow: int, c: int) {
    exists i :: 0 <= i < |ranges| && Unwraps(ranges[i], headerRow) && InRange(ranges[i], c)
  }

  /** The first pass changes no cell outside the unmerged ranges, and leaves text in
      every cell inside one. */
  lemma {:induction false} Pass1Cells(cells: map<(int, int), Value>, headerRow: int, ranges: seq<Range>,
                                       seen: map<string, nat>, row: int, c: int)
    ensures row != headerRow || !Covered(ranges, headerRow, c) ==>
              Cell(Pass1(cells, headerRow, ranges, seen).0, row, c) == Cell(cells, row, c)
    ensures row == headerRow && Covered(ranges, headerRow, c) ==>
              Cell(Pass1(cells, headerRow, ranges, seen).0, row, c).Text?
    decreases |ranges|
  {
    if |ranges| > 0 {
      var rest := ranges[1..];
      CoveredCons(ranges, headerRow, c);
      if !Unwraps(ranges[0], headerRow) {
        Pass1Cells(cells, headerRow, rest, seen, row, c);
      } else {
        var rng := ranges[0];
        var base := Base(cells, headerRow, rng);
        var (c1, s1) := FillRange(cells, headerRow, base, rng.minCol, rng.maxCol, seen);
        FillRangeCell(cells, headerRow, base, rng.minCol, rng.maxCol, seen, row, c);
        Pass1Cells(c1, headerRow, rest, s1, row, c);
      }
    }
  }

  /** When the unmerged ranges do not overlap, column `c` of range `k` is named after the
      range's top-left text with the next count of that text: one past those it had
      in `seen`, those the earlier ranges of the same text handed out, and the columns of
      range `k` before `c`. */
  lemma {:induction false} Pass1Names(cells: map<(int, int), Value>, headerRow: int, ranges: seq<Range>,
                                       seen: map<string, nat>, k: int, c: int)
    requires Disjoint(ranges, headerRow)
    requires 0 <= k < |ranges| && Unwraps(ranges[k], headerRow) && InRange(ranges[k], c)
    ensures Cell(Pass1(cells, headerRow, ranges, seen).0, headerRow, c) == NameInRange(cells, headerRow, ranges, seen, k, c)
    decreases |ranges|
  {
    var rest := ranges[1..];
    var r0 := ranges[0];
    if k == 0 {
      Pass1NamesFirst(cells, headerRow, ranges, seen, c);
    } else if !Unwraps(r0, headerRow) {
      assert rest[k - 1] == ranges[k];
      DisjointTail(ranges, headerRow);
      Pass1Names(cells, headerRow, rest, seen, k - 1, c);
      Pass1NamesSkip(cells, headerRow, ranges, seen, k, c);
    } else {
      var (c1, s1) := FillRange(cells, headerRow, Base(cells, headerRow, r0), r0.minCol, r0.maxCol, seen);
      assert rest[k - 1] == ranges[k];
      DisjointTail(ranges, headerRow);
      Pass1Names(c1, headerRow, rest, s1, k - 1, c);
      Pass1NamesStep(cells, headerRow, ranges, seen, c1, s1, k, c);
    }
  }

  /** The name column `c` of range `k` gets from the first pass, as `Pass1Names` states it. */
  function NameInRange(cells: map<(int, int), Value>, headerRow: int, ranges: seq<Range>,
                       seen: map<string, nat>, k: int, c: int): Value
    requires 0 <= k < |ranges| && InRange(ranges[k], c)
  {
    var b := Base(cells, headerRow, ranges[k]);
    Text(NameFor(b, SeenCount(seen, b) + Handed(cells, headerRow, ranges[..k], b) + (c - ranges[k].minCol) + 1))
  }

  /** A first range the first pass skips hands out no names. */
  lemma Pass1NamesSkip(cells: map<(int, int), Value>, headerRow: int, ranges: seq<Range>,
                       seen: map<string, nat>, k: int, c: int)
    requires 0 < k < |ranges| && !Unwraps(ranges[0], headerRow) && InRange(ranges[k], c)
    requires Cell(Pass1(cells, headerRow, ranges[1..], seen).0, headerRow, c) ==
               NameInRange(cells, headerRow, ranges[1..], seen, k - 1, c)
    ensures Cell(Pass1(cells, headerRow, ranges, seen).0, headerRow, c) ==
              NameInRange(cells, headerRow, ranges, seen, k, c)
  {
    var rest := ranges[1..];
    assert ranges[k] == rest[k - 1] && rest[..k - 1] == ranges[..k][1..];
  }

  /** A first range the first pass fills moves its names of the same text into the counter. */
  lemma Pass1NamesStep(cells: map<(int, int), Value>, headerRow: int, ranges: seq<Range>, seen: map<string, nat>,
                       c1: map<(int, int), Value>, s1: map<string, nat>, k: int, c: int)
    requires Disjoint(ranges, headerRow)
    requires 0 < k < |ranges| && Unwraps(ranges[0], headerRow) && Unwraps(ranges[k], headerRow) && InRange(ranges[k], c)
    requires (c1, s1) == FillRange(cells, headerRow, Base(cells, headerRow, ranges[0]), ranges[0].minCol, ranges[0].maxCol, seen)
    requires Cell(Pass1(c1, headerRow, ranges[1..], s1).0, headerRow, c) == NameInRange(c1, headerRow, ranges[1..], s1, k - 1, c)
    ensures Cell(Pass1(cells, headerRow, ranges, seen).0, headerRow, c) ==
              NameInRange(cells, headerRow, ranges, seen, k, c)
  {
    Pass1Fills(cells, headerRow, ranges, seen, c1, s1);
    NameInRangeStep(cells, headerRow, ranges, seen, c1, s1, k, c);
  }

  /** The first pass over an unmerged first range fills it and goes on with the rest. */
  lemma Pass1Fills(cells: map<(int, int), Value>, headerRow: int, ranges: seq<Range>, seen: map<string, nat>,
                   c1: map<(int, int), Value>, s1: map<string, nat>)
    requires |ranges| > 0 && Unwraps(ranges[0], headerRow)
    requires (c1, s1) == FillRange(cells, headerRow, Base(cells, headerRow, ranges[0]), ranges[0].minCol, ranges[0].maxCol, seen)
    ensures Pass1(cells, headerRow, ranges, seen) == Pass1(c1, headerRow, ranges[1..], s1)
  {
  }

  /** The name range `k` gives column `c` is the one range `k - 1` of the rest gives it
      after the first range is filled. */
  lemma NameInRangeStep(cells: map<(int, int), Value>, headerRow: int, ranges: seq<Range>, seen: map<string, nat>,
                        c1: map<(int, int), Value>, s1: map<string, nat>, k: int, c: int)
    requires Disjoint(ranges, headerRow)
    requires 0 < k < |ranges| && Unwraps(ranges[0], headerRow) && Unwraps(ranges[k], headerRow) && InRange(ranges[k], c)
    requires (c1, s1) == FillRange(cells, headerRow, Base(cells, headerRow, ranges[0]), ranges[0].minCol, ranges[0].maxCol, seen)
    ensures NameInRange(c1, headerRow, ranges[1..], s1, k - 1, c) == NameInRange(cells, headerRow, ranges, seen, k, c)
  {
    var rest := ranges[1..];
    assert ranges[k] == rest[k - 1] && rest[..k - 1] == ranges[1..k];
    HandedStep(cells, headerRow, ranges, seen, c1, s1, k);
  }

  /** Column `c` of the first range, when it is unmerged, gets the range's first names. */
  lemma Pass1NamesFirst(cells: map<(int, int), Value>, headerRow: int, ranges: seq<Range>,
                        seen: map<string, nat>, c: int)
    requires Disjoint(ranges, headerRow)
    requires |ranges| > 0 && Unwraps(ranges[0], headerRow) && InRange(ranges[0], c)
    ensures Cell(Pass1(cells, headerRow, ranges, seen).0, headerRow, c) ==
              Text(NameFor(Base(cells, headerRow, ranges[0]),
                           SeenCount(seen, Base(cells, headerRow, ranges[0])) + (c - ranges[0].minCol) + 1))
  {
    var rest := ranges[1..];
    var r0 := ranges[0];
    var b := Base(cells, headerRow, r0);
    var (c1, s1) := FillRange(cells, headerRow, b, r0.minCol, r0.maxCol, seen);
    forall i | 0 <= i < |rest| && Unwraps(rest[i], headerRow) ensures !InRange(rest[i], c) {
      assert ranges[i + 1] == rest[i];
    }
    Pass1Cells(c1, headerRow, rest, s1, headerRow, c);
    FillRangeCell(cells, headerRow, b, r0.minCol, r0.maxCol, seen, headerRow, c);
  }

  /** Filling an unmerged first range keeps the top-left text of a later unmerged range,
      and the names of it the first range hands out move from the later range's earlier
      ones into the counter. */
  lemma HandedStep(cells: map<(int, int), Value>, headerRow: int, ranges: seq<Range>, seen: map<string, nat>,
                   c1: map<(int, int), Value>, s1: map<string, nat>, k: int)
    requires Disjoint(ranges, headerRow)
    requires 0 < k < |ranges| && Unwraps(ranges[0], headerRow) && Unwraps(ranges[k], headerRow)
    requires ranges[k].minCol <= ranges[k].maxCol
    requires (c1, s1) == FillRange(cells, headerRow, Base(cells, headerRow, ranges[0]), ranges[0].minCol, ranges[0].maxCol, seen)
    ensures Base(c1, headerRow, ranges[k]) == Base(cells, headerRow, ranges[k])
    ensures SeenCount(s1, Base(cells, headerRow, ranges[k])) + Handed(c1, headerRow, ranges[1..k], Base(cells, headerRow, ranges[k]))
            == SeenCount(seen, Base(cells, headerRow, ranges[k])) + Handed(cells, headerRow, ranges[..k], Base(cells, headerRow, ranges[k]))
  {
    var r0 := ranges[0];
    var b0 := Base(cells, headerRow, r0);
    var b := Base(cells, headerRow, ranges[k]);
    FillRangeSeen(cells, headerRow, b0, r0.minCol, r0.maxCol, seen, b);
    var rs := ranges[1..k];
    forall i | 0 <= i < |rs| && Unwraps(rs[i], headerRow) && rs[i].minCol <= rs[i].maxCol
      ensures Cell(c1, headerRow, rs[i].minCol) == Cell(cells, headerRow, rs[i].minCol)
    {
      assert ranges[i + 1] == rs[i] && InRange(rs[i], rs[i].minCol);
      FillRangeCell(cells, headerRow, b0, r0.minCol, r0.maxCol, seen, headerRow, rs[i].minCol);
    }
    HandedFrame(c1, cells, headerRow, rs, b);
    assert InRange(ranges[k], ranges[k].minCol);
    FillRangeCell(cells, headerRow, b0, r0.minCol, r0.maxCol, seen, headerRow, ranges[k].minCol);
    assert ranges[..k][0] == r0 && ranges[..k][1..] == rs;
  }

  /** The ranges after the first do not overlap either. */
  lemma DisjointTail(ranges: seq<Range>, headerRow: int)
    requires |ranges| > 0 && Disjoint(ranges, headerRow)
    ensures Disjoint(ranges[1..], headerRow)
  {
    var rest := ranges[1..];
    forall i, j, c | 0 <= i < j < |rest| && Unwraps(rest[i], headerRow) && Unwraps(rest[j], headerRow) &&
                     InRange(rest[i], c)
      ensures !InRange(rest[j], c)
    {
      assert rest[i] == ranges[i + 1] && rest[j] == ranges[j + 1];
    }
  }

  /** The names handed out depend only on the top-left cells of the non-empty unmerged
      ranges. */
  lemma {:induction false} HandedFrame(a: map<(int, int), Value>, b: map<(int, int), Value>, headerRow: int,
                                        ranges: seq<Range>, base: string)
    requires forall i :: 0 <= i < |ranges| && Unwraps(ranges[i], headerRow) && ranges[i].minCol <= ranges[i].maxCol ==>
               Cell(a, headerRow, ranges[i].minCol) == Cell(b, headerRow, ranges[i].minCol)
    ensures Handed(a, headerRow, ranges, base) == Handed(b, headerRow, ranges, base)
    decreases |ranges|
  {
    if |ranges| > 0 {
      var rest := ranges[1..];
      forall i | 0 <= i < |rest| && Unwraps(rest[i], headerRow) && rest[i].minCol <= rest[i].maxCol
        ensures Cell(a, headerRow, rest[i].minCol) == Cell(b, headerRow, rest[i].minCol)
      {
        assert rest[i] == ranges[i + 1];
      }
      HandedFrame(a, b, headerRow, rest, base);
    }
  }

  /** A column is covered by the first range or by one of the others. */
  lemma CoveredCons(ranges: seq<Range>, headerRow: int, c: int)
    requires |ranges| > 0
    ensures Covered(ranges, headerRow, c) <==>
              (Unwraps(ranges[0], headerRow) && InRange(ranges[0], c))
              || Covered(ranges[1..], headerRow, c)
  {
    var rest := ranges[1..];
    if Covered(rest, headerRow, c) {
      var i :| 0 <= i < |rest| && Unwraps(rest[i], headerRow) && InRange(rest[i], c);
      assert ranges[i + 1] == rest[i];
    }
    if Covered(ranges, headerRow, c) {
      var i :| 0 <= i < |ranges| && Unwraps(ranges[i], headerRow) && InRange(ranges[i], c);
      if i > 0 {
        assert rest[i - 1] == ranges[i];
      }
    }
  }

  /** The header texts of a row. */
  function HeaderTexts(vals: seq<Value>): (ts: seq<string>)
    ensures |ts| == |vals|
    ensures forall i :: 0 <= i < |vals| ==> ts[i] == HeaderText(vals[i])
  {
    seq(|vals|, i requires 0 <= i < |vals| => HeaderText(vals[i]))
  }

  /** The number of times `t` occurs in `ts`. */
  function Occurrences(ts: seq<string>, t: string): nat
    decreases |ts|
  {
    if |ts| == 0 then 0
    else Occurrences(ts[..|ts| - 1], t) + (if ts[|ts| - 1] == t then 1 else 0)
  }

  /** One step of the second pass: the cell's new text, if any, and the counters. */
  function RenameStep(seen: map<string, nat>, t: string): (Option<string>, map<string, nat>) {
    if t == "" then (None, seen)
    else
      var count := SeenCount(seen, t) + 1;
      (if count > 1 then Some(Numbered(t, count)) else None, seen[t := count])
  }

  /** The second pass over the header texts of a row: for each cell, the new text
      written to it, or `None` where the cell is left alone; with the final counters. */
  function Renames(ts: seq<string>): (r: (seq<Option<string>>, map<string, nat>))
    ensures |r.0| == |ts|
    decreases |ts|
  {
    if |ts| == 0 then ([], map[])
    else
      var r := Renames(ts[..|ts| - 1]);
      var step := RenameStep(r.1, ts[|ts| - 1]);
      (r.0 + [step.0], step.1)
  }

  /** What the second pass does to cell `i`, stated by counting: the k-th cell (k >= 2)
      with a given non-empty text t becomes "t (k)"; the first keeps its value. */
  function RenameAt(ts: seq<string>, i: int): Option<string>
    requires 0 <= i < |ts|
  {
    var k := Occurrences(ts[..i + 1], ts[i]);
    if ts[i] == "" || k == 1 then None else Some(Numbered(ts[i], k))
  }

  /** The second pass's counters count the occurrences of each non-empty text. */
  lemma {:induction false} RenamesCounts(ts: seq<string>, t: string)
    requires t != ""
    ensures SeenCount(Renames(ts).1, t) == Occurrences(ts, t)
    decreases |ts|
  {
    if |ts| > 0 {
      RenamesCounts(ts[..|ts| - 1], t);
    }
  }

  /** The second pass renames cell `i` exactly as the count says. */
  lemma {:induction false} RenamesAt(ts: seq<string>, i: int)
    requires 0 <= i < |ts|
    ensures Renames(ts).0[i] == RenameAt(ts, i)
    decreases |ts|
  {
    var init := ts[..|ts| - 1];
    if i < |init| {
      RenamesAt(init, i);
      assert ts[..i + 1] == init[..i + 1];
    } else {
      if ts[i] != "" {
        RenamesCounts(init, ts[i]);
      }
      assert ts[..i + 1] == ts;
    }
  }

  /** The second pass renames exactly the repeated texts, each after its rank among the
      cells with that text. */
  lemma RenamesSpec(ts: seq<string>)
    ensures forall i :: 0 <= i < |ts| ==> Renames(ts).0[i] == RenameAt(ts, i)
  {
    forall i | 0 <= i < |ts| ensures Renames(ts).0[i] == RenameAt(ts, i) {
      RenamesAt(ts, i);
    }
  }

  /** Occurrence counts grow along a sequence, strictly at each occurrence. */
  lemma OccurrencesGrow(ts: seq<string>, i: int, j: int)
    requires 0 <= i < j < |ts|
    ensures Occurrences(ts[..i + 1], ts[j]) < Occurrences(ts[..j + 1], ts[j])
  {
    assert ts[..j + 1][..j] == ts[..j];
    OccurrencesMonotone(ts, i + 1, j, ts[j]);
  }

  lemma {:induction false} OccurrencesMonotone(ts: seq<string>, i: int, j: int, t: string)
    requires 0 <= i <= j <= |ts|
    ensures Occurrences(ts[..i], t) <= Occurrences(ts[..j], t)
    decreases j - i
  {
    if i < j {
      assert ts[..j][..j - 1] == ts[..j - 1];
      OccurrencesMonotone(ts, i, j - 1, t);
    }
  }

  /** A text counts itself. */
  lemma OccurrencesSelf(ts: seq<string>, i: int)
    requires 0 <= i < |ts|
    ensures Occurrences(ts[..i + 1], ts[i]) >= 1
  {
    assert ts[..i + 1][..i] == ts[..i];
  }

  /** The value a cell holds after the second pass. */
  function Renamed(vals: seq<Value>, i: int): Value
    requires 0 <= i < |vals|
  {
    match RenameAt(HeaderTexts(vals), i)
    case None => vals[i]
    case Some(name) => Text(name)
  }

  /** A numbered name is its own header text, and never the text it numbers. */
  lemma NumberedText(t: string, k: nat)
    requires |t| > 0 && !IsSpace(t[0])
    ensures HeaderText(Text(Numbered(t, k))) == Numbered(t, k) != t
  {
    var n := Numbered(t, k);
    assert n[0] == t[0];
    assert n[|n| - 1] == ')';
    StripUnchanged(n);
    assert |n| > |t|;
  }

  /** After the second pass, two cells that had the same non-empty text hold different
      values: the first keeps its own, the others get distinct numbers. */
  lemma RenamedSeparates(vals: seq<Value>, i: int, j: int)
    requires 0 <= i < j < |vals|
    requires HeaderText(vals[i]) == HeaderText(vals[j]) != ""
    ensures Renamed(vals, i) != Renamed(vals, j)
  {
    var ts := HeaderTexts(vals);
    var t := ts[j];
    OccurrencesGrow(ts, i, j);
    OccurrencesSelf(ts, i);
    var ki := Occurrences(ts[..i + 1], t);
    var kj := Occurrences(ts[..j + 1], t);
    assert RenameAt(ts, j) == Some(Numbered(t, kj));
    HeaderTextEdges(vals[i]);
    if ki == 1 {
      assert Renamed(vals, i) == vals[i];
      NumberedText(t, kj);
    } else {
      assert RenameAt(ts, i) == Some(Numbered(t, ki));
      if Numbered(t, ki) == Numbered(t, kj) {
        NameForInjective(t, ki, kj);
      }
    }
  }

  /** Writes the second pass's new texts into the header row. */
  function ApplyRenames(cells: map<(int, int), Value>, headerRow: int, renames: seq<Option<string>>)
    : (r: map<(int, int), Value>)
    ensures forall row, c :: Cell(r, row, c) ==
              if row == headerRow && 1 <= c <= |renames| && renames[c - 1].Some?
              then Text(renames[c - 1].value)
              else Cell(cells, row, c)
    decreases |renames|
  {
    if |renames| == 0 then cells
    else
      var n := |renames|;
      var pre := renames[..n - 1];
      var c := ApplyRenames(cells, headerRow, pre);
      var r := if renames[n - 1].Some? then c[(headerRow, n) := Text(renames[n - 1].value)] else c;
      assert forall row, col :: Cell(r, row, col) ==
               if row == headerRow && 1 <= col <= n && renames[col - 1].Some?
               then Text(renames[col - 1].value)
               else Cell(cells, row, col) by {
        forall row, col ensures Cell(r, row, col) ==
                 if row == headerRow && 1 <= col <= n && renames[col - 1].Some?
                 then Text(renames[col - 1].value)
                 else Cell(cells, row, col) {
          var before := Cell(c, row, col);
          if 1 <= col < n {
            assert pre[col - 1] == renames[col - 1];
          }
        }
      }
      r
  }

  /** The ranges still merged afterwards: all but those the first pass unmerged. */
  function StillMerged(ranges: seq<Range>, headerRow: int): (r: seq<Range>)
    ensures forall x :: x in r <==> x in ranges && !Unwraps(x, headerRow)
    decreases |ranges|
  {
    if |ranges| == 0 then []
    else
      var rest := StillMerged(ranges[..|ranges| - 1], headerRow);
      assert ranges == ranges[..|ranges| - 1] + [ranges[|ranges| - 1]];
      if Unwraps(ranges[|ranges| - 1], headerRow) then rest else rest + [ranges[|ranges| - 1]]
  }

  /** `unwrap_merged_headers(ws, header_row)` with the sheet's merged ranges: the
      updated sheet and the ranges left merged. */
  function UnwrapMergedHeaders(ws: Sheet, headerRow: int, ranges: seq<Range>): (r: (Sheet, seq<Range>))
    ensures r.0.maxRow == ws.maxRow && r.0.maxCol == ws.maxCol
  {
    var ws1 := ws.(cells := Pass1(ws.cells, headerRow, ranges, map[]).0);
    var renames := Renames(HeaderTexts(RowValues(ws1, headerRow))).0;
    (ws1.(cells := ApplyRenames(ws1.cells, headerRow, renames)), StillMerged(ranges, headerRow))
  }

  /** Rows other than the header row keep every value; a header cell outside the
      unmerged ranges keeps its value unless it repeats an earlier header text, and then
      holds that text numbered by its rank. */
  lemma UnwrapCells(ws: Sheet, headerRow: int, ranges: seq<Range>, row: int, c: int)
    ensures row != headerRow ==> Cell(UnwrapMergedHeaders(ws, headerRow, ranges).0.cells, row, c) == Cell(ws.cells, row, c)
    ensures var ws1 := ws.(cells := Pass1(ws.cells, headerRow, ranges, map[]).0);
            row == headerRow && 1 <= c <= ws.maxCol ==>
              Cell(UnwrapMergedHeaders(ws, headerRow, ranges).0.cells, row, c) == Renamed(RowValues(ws1, headerRow), c - 1)
    ensures var ws1 := ws.(cells := Pass1(ws.cells, headerRow, ranges, map[]).0);
            row == headerRow && !Covered(ranges, headerRow, c) ==> Cell(ws1.cells, row, c) == Cell(ws.cells, row, c)
  {
    Pass1Cells(ws.cells, headerRow, ranges, map[], row, c);
    var ws1 := ws.(cells := Pass1(ws.cells, headerRow, ranges, map[]).0);
    RenamesSpec(HeaderTexts(RowValues(ws1, headerRow)));
  }
}
