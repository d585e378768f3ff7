/** filter_data.py: keep the CS rows whose catalog number lies in [6000, 7000]
    and write them to `data/filtered_<file>`. Reading and writing the CSV is
    left out; a table is given as its header and its rows of cells. */
module FilterData {
  import opened Wrappers
  import opened Seqs
  import opened Text

  const HomeDir: string := "data"

  /** The files the script filters, in the order it filters them. */
  const FileNames: seq<string> :=
    ["Fall 2022.csv", "Fall 2023.csv", "Fall 2024.csv", "Spring 2022.csv", "Spring 2023.csv", "Spring 2024.csv"]

  /** A table as `pd.read_csv` reads it: column names and, per row, one cell per column. */
  datatype Frame = Frame(columns: seq<string>, rows: seq<seq<string>>)

  /** Every row has a cell per column, and column names are distinct. */
  predicate WellFormed(f: Frame)
  {
    && (forall i :: 0 <= i < |f.rows| ==> |f.rows[i]| == |f.columns|)
    && (forall i, j :: 0 <= i < j < |f.columns| ==> f.columns[i] != f.columns[j])
  }

  /** The catalog column is named differently in one file. */
  function CatalogColumn(file: string): string
  {
    if file != "Spring 2022.csv" then "Catalog Nbr" else "Catalog Number"
  }

  /** `data[name]`: the position of the column called `name`. */
  function ColumnIndex(columns: seq<string>, name: string): (r: Option<nat>)
    ensures r.Some? ==> r.value < |columns| && columns[r.value] == name
    ensures r.None? ==> forall i :: 0 <= i < |columns| ==> columns[i] != name
  {
    if |columns| == 0 then None
    else if columns[0] == name then Some(0)
    else match ColumnIndex(columns[1..], name)
      case None => None
      case Some(k) => Some(k + 1)
  }

  // ---------------------------------------------------------------------------
  // pd.to_numeric(..., errors='coerce') on a catalog cell
  // ---------------------------------------------------------------------------

  /** A non-negative decimal: whole part, and fractional digits without trailing zeros. */
  datatype Number = Number(whole: nat, frac: string)

  predicate Normal(n: Number)
  {
    AllDigits(n.frac) && (n.frac == [] || n.frac[|n.frac| - 1] != '0')
  }

  function TrimZeros(s: string): (r: string)
    ensures |r| <= |s| && r == s[..|r|]
    ensures r == [] || r[|r| - 1] != '0'
    ensures forall k :: |r| <= k < |s| ==> s[k] == '0'
  {
    if |s| > 0 && s[|s| - 1] == '0' then TrimZeros(s[..|s| - 1]) else s
  }

  /** A cell pandas reads as an integer: one or more digits. */
  predicate IsInteger(cell: string)
  {
    cell != [] && AllDigits(cell)
  }

  /** The number a catalog cell holds, or `None` where pandas coerces to NaN. */
  function ParseCatalog(cell: string): (r: Option<Number>)
  {
    match IndexOfChar(cell, '.')
    case None => if IsInteger(cell) then Some(Number(DigitsValue(cell), "")) else None
    case Some(d) =>
      if IsInteger(cell[..d]) && AllDigits(cell[d + 1..])
      then Some(Number(DigitsValue(cell[..d]), TrimZeros(cell[d + 1..])))
      else None
  }

  /** The fractional part's value: 0.d1 d2 d3 ... */
  function FracValue(d: string): real
    requires AllDigits(d)
  {
    if |d| == 0 then 0.0 else (DigitValue(d[0]) as real + FracValue(d[1..])) / 10.0
  }

  function Value(n: Number): real
    requires AllDigits(n.frac)
  {
    n.whole as real + FracValue(n.frac)
  }

  /** `Series.between(6000, 7000)`: both ends included. */
  predicate Between(n: Number)
  {
    AllDigits(n.frac) && 6000.0 <= Value(n) <= 7000.0
  }

  /** The row test of filter_data.py:13-16 and 19-22: Subject is exactly "CS" and
      the catalog cell is a number in [6000, 7000]. NaN compares false. */
  predicate Keep(row: seq<string>, subject: nat, catalog: nat)
  {
    && subject < |row| && catalog < |row|
    && row[subject] == "CS"
    && match ParseCatalog(row[catalog])
       case Some(n) => Between(n)
       case None => false
  }

  // ---------------------------------------------------------------------------
  // Writing the converted column back (`to_csv`)
  // ---------------------------------------------------------------------------

  /** Some cell of the catalog column is not a plain integer (a NaN or a decimal),
      so pandas holds the converted column as floats. */
  predicate FloatColumn(rows: seq<seq<string>>, catalog: nat)
  {
    exists i :: 0 <= i < |rows| && catalog < |rows[i]| && !IsInteger(rows[i][catalog])
  }

  /** How `to_csv` writes a kept catalog value: "6313" in an integer column,
      "6313.0" or "6000.5" in a float column. */
  function Render(n: Number, asFloat: bool): string
  {
    if asFloat then NatToString(n.whole) + "." + (if n.frac == [] then "0" else n.frac)
    else NatToString(n.whole)
  }

  /** A row as written: the catalog cell replaced by its converted value. */
  function Rerender(row: seq<string>, catalog: nat, asFloat: bool): seq<string>
  {
    if catalog < |row| && ParseCatalog(row[catalog]).Some?
    then row[catalog := Render(ParseCatalog(row[catalog]).value, asFloat)]
    else row
  }

  // ---------------------------------------------------------------------------
  // filter_data_from_csv
  // ---------------------------------------------------------------------------

  datatype FilterError = MissingColumn(name: string)

  datatype Output = Output(path: string, frame: Frame)

  function OutputName(file: string): string
  {
    "filtered_" + file
  }

  function OutputPath(file: string): string
  {
    HomeDir + "/" + OutputName(file)
  }

  /** The input rows the mask keeps, in input order. */
  function KeptRows(f: Frame, subject: nat, catalog: nat): seq<seq<string>>
  {
    Filter(f.rows, (row: seq<string>) => Keep(row, subject, catalog))
  }

  /** `filter_data_from_csv(file)` on the table read from `data/<file>`: the table
      to write to `data/filtered_<file>`, or the KeyError of a missing column. */
  function FilterFrame(file: string, f: Frame): Result<Output, FilterError>
  {
    var catalogName := CatalogColumn(file);
    match ColumnIndex(f.columns, catalogName)
    case None => Err(MissingColumn(catalogName))
    case Some(c) =>
      match ColumnIndex(f.columns, "Subject")
      case None => Err(MissingColumn("Subject"))
      case Some(s) =>
        var asFloat := FloatColumn(f.rows, c);
        var kept := KeptRows(f, s, c);
        Ok(Output(OutputPath(file),
          Frame(f.columns, seq(|kept|, i requires 0 <= i < |kept| => Rerender(kept[i], c, asFloat)))))
  }

  // ---------------------------------------------------------------------------
  // Properties
  // ---------------------------------------------------------------------------

  lemma {:induction false} FracValueBounds(d: string)
    requires AllDigits(d)
    ensures 0.0 <= FracValue(d) < 1.0
    ensures d != [] && d[|d| - 1] != '0' ==> FracValue(d) > 0.0
  {
    if |d| > 0 {
      FracValueBounds(d[1..]);
    }
  }

  /** The inclusive range test on the parsed value, stated on its digits: the whole
      part is 6000 to 6999, or it is exactly 7000 with no fraction. So 6000 and
      7000 are kept, 5999.9 and 7000.5 are not. */
  lemma BetweenDigits(n: Number)
    requires Normal(n)
    ensures Between(n) <==> 6000 <= n.whole < 7000 || (n.whole == 7000 && n.frac == [])
  {
    FracValueBounds(n.frac);
  }

  /** A decimal cell with its point at `d`: digits, a point, then digits only. */
  predicate DecimalAt(cell: string, d: int)
  {
    0 <= d < |cell| && cell[d] == '.' && IsInteger(cell[..d]) && AllDigits(cell[d + 1..])
  }

  lemma {:induction false} FracValueAppendZero(s: string)
    requires AllDigits(s)
    ensures AllDigits(s + "0") && FracValue(s + "0") == FracValue(s)
    decreases |s|
  {
    var t := s + "0";
    assert AllDigits(t) by {
      forall k | 0 <= k < |t| ensures IsDigit(t[k]) {
        if k < |s| { assert t[k] == s[k]; }
      }
    }
    if |s| == 0 {
      assert t[1..] == [];
    } else {
      assert t[1..] == s[1..] + "0";
      FracValueAppendZero(s[1..]);
    }
  }

  /** Dropping trailing zeros of the fractional digits keeps their value. */
  lemma {:induction false} TrimZerosValue(s: string)
    requires AllDigits(s)
    ensures AllDigits(TrimZeros(s)) && FracValue(TrimZeros(s)) == FracValue(s)
    decreases |s|
  {
    if |s| > 0 && s[|s| - 1] == '0' {
      var p := s[..|s| - 1];
      assert p + "0" == s;
      TrimZerosValue(p);
      FracValueAppendZero(p);
    }
  }

  /** Which cells parse, and to what: exactly the digit strings and the decimals
      `<digits>.<digits>`; everything else (empty, signs, letters, a second point)
      is coerced to NaN. A decimal keeps its value, with trailing fractional
      zeros dropped. */
  lemma ParseSpec(cell: string)
    ensures ParseCatalog(cell).Some? ==> Normal(ParseCatalog(cell).value)
    ensures ParseCatalog(cell).Some? <==> IsInteger(cell) || exists d :: DecimalAt(cell, d)
    ensures IsInteger(cell) ==> ParseCatalog(cell) == Some(Number(DigitsValue(cell), ""))
    ensures forall d :: DecimalAt(cell, d) ==>
      ParseCatalog(cell).Some? &&
      Value(ParseCatalog(cell).value) == DigitsValue(cell[..d]) as real + FracValue(cell[d + 1..])
  {
    IndexOfCharSpec(cell, '.');
    if ParseCatalog(cell).Some? {
      var d := IndexOfChar(cell, '.');
      if d.Some? {
        assert AllDigits(cell[d.value + 1..]);
        assert DecimalAt(cell, d.value);
      }
    }
    if IsInteger(cell) {
      assert forall k :: 0 <= k < |cell| ==> IsDigit(cell[k]);
    }
    forall d | DecimalAt(cell, d)
      ensures ParseCatalog(cell).Some? &&
        Value(ParseCatalog(cell).value) == DigitsValue(cell[..d]) as real + FracValue(cell[d + 1..])
    {
      assert forall k :: 0 <= k < d ==> cell[..d][k] == cell[k] && IsDigit(cell[k]);
      assert IndexOfChar(cell, '.') == Some(d);
      TrimZerosValue(cell[d + 1..]);
    }
  }

  /** A value written back reads as the same value. */
  lemma RenderParse(n: Number, asFloat: bool)
    requires Normal(n) && (asFloat || n.frac == [])
    ensures ParseCatalog(Render(n, asFloat)) == Some(n)
    ensures IsInteger(Render(n, asFloat)) <==> !asFloat
  {
    var w := NatToString(n.whole);
    var r := Render(n, asFloat);
    IndexOfCharSpec(r, '.');
    if asFloat {
      var tail := if n.frac == [] then "0" else n.frac;
      assert r == w + "." + tail;
      assert r[|w|] == '.' && !IsDigit(r[|w|]);
      assert forall k :: 0 <= k < |w| ==> r[k] == w[k];
      assert IndexOfChar(r, '.') == Some(|w|);
      assert r[..|w|] == w && r[|w| + 1..] == tail;
    } else {
      assert forall k :: 0 <= k < |r| ==> r[k] != '.';
    }
  }

  /** Errors: a missing catalog column is reported first, then a missing Subject. */
  lemma FilterFrameErrors(file: string, f: Frame)
    ensures FilterFrame(file, f).Err? <==> CatalogColumn(file) !in f.columns || "Subject" !in f.columns
    ensures CatalogColumn(file) !in f.columns ==> FilterFrame(file, f) == Err(MissingColumn(CatalogColumn(file)))
    ensures CatalogColumn(file) in f.columns && "Subject" !in f.columns ==> FilterFrame(file, f) == Err(MissingColumn("Subject"))
    ensures CatalogColumn(file) == (if file == "Spring 2022.csv" then "Catalog Number" else "Catalog Nbr")
  {
  }

  /** A kept row as written: only its catalog cell changes, to a spelling of the
      same number that is a plain integer exactly in an integer column, and that
      the mask keeps and `to_csv` writes unchanged. */
  lemma KeptRowWritten(f: Frame, s: nat, c: nat, row: seq<string>)
    requires WellFormed(f) && row in f.rows && Keep(row, s, c)
    ensures var asFloat := FloatColumn(f.rows, c);
      var w := Rerender(row, c, asFloat);
      && |row| == |f.columns| && |w| == |row|
      && (forall j :: 0 <= j < |row| && j != c ==> w[j] == row[j])
      && ParseCatalog(w[c]) == ParseCatalog(row[c])
      && (IsInteger(w[c]) <==> !asFloat)
      && Keep(w, s, c)
      && Rerender(w, c, asFloat) == w
  {
    var asFloat := FloatColumn(f.rows, c);
    var n := ParseCatalog(row[c]).value;
    ParseSpec(row[c]);
    if !asFloat {
      assert IsInteger(row[c]);
    }
    RenderParse(n, asFloat);
  }

  /** The rows written are the input rows the mask keeps, in input order: a row is
      kept exactly when its Subject is "CS" and its catalog cell parses to a
      number in [6000, 7000] (a cell that does not parse is never kept). Each
      written row equals its input row except for the catalog cell, which holds
      the same number re-written. The output goes to `data/filtered_<file>`. */
  lemma FilterFrameRows(file: string, f: Frame)
    requires WellFormed(f) && FilterFrame(file, f).Ok?
    ensures var out := FilterFrame(file, f).value;
      var c, s := ColumnIndex(f.columns, CatalogColumn(file)).value, ColumnIndex(f.columns, "Subject").value;
      var kept := KeptRows(f, s, c);
      && out.path == "data/filtered_" + file
      && out.frame.columns == f.columns
      && IsSubsequence(kept, f.rows)
      && (forall i :: 0 <= i < |f.rows| ==>
            (f.rows[i] in kept <==>
               f.rows[i][s] == "CS" && ParseCatalog(f.rows[i][c]).Some? && Between(ParseCatalog(f.rows[i][c]).value)))
      && (forall r :: multiset(kept)[r] == if Keep(r, s, c) then multiset(f.rows)[r] else 0)
      && |out.frame.rows| == |kept|
      && (forall i, j :: 0 <= i < |kept| && 0 <= j < |f.columns| && j != c ==> out.frame.rows[i][j] == kept[i][j])
      && (forall i :: 0 <= i < |kept| ==> ParseCatalog(out.frame.rows[i][c]) == ParseCatalog(kept[i][c]))
  {
    FilterFrameKept(file, f);
    FilterFrameWritten(file, f);
  }

  lemma FilterFrameKept(file: string, f: Frame)
    requires WellFormed(f) && FilterFrame(file, f).Ok?
    ensures var out := FilterFrame(file, f).value;
      var c, s := ColumnIndex(f.columns, CatalogColumn(file)).value, ColumnIndex(f.columns, "Subject").value;
      var kept := KeptRows(f, s, c);
      && out.path == "data/filtered_" + file
      && out.frame.columns == f.columns
      && IsSubsequence(kept, f.rows)
      && (forall i :: 0 <= i < |f.rows| ==>
            (f.rows[i] in kept <==>
               f.rows[i][s] == "CS" && ParseCatalog(f.rows[i][c]).Some? && Between(ParseCatalog(f.rows[i][c]).value)))
      && (forall r :: multiset(kept)[r] == if Keep(r, s, c) then multiset(f.rows)[r] else 0)
  {
    var c, s := ColumnIndex(f.columns, CatalogColumn(file)).value, ColumnIndex(f.columns, "Subject").value;
    var keep := (row: seq<string>) => Keep(row, s, c);
    FilterIsSubsequence(f.rows, keep);
    forall r ensures multiset(KeptRows(f, s, c))[r] == if Keep(r, s, c) then multiset(f.rows)[r] else 0 {
      FilterMultiset(f.rows, keep, r);
    }
    OutputPathSpec(file);
  }

  /** The output is written next to the input, under the "filtered_" prefix. */
  lemma OutputPathSpec(file: string)
    ensures OutputPath(file) == "data/filtered_" + file
  {
    assert HomeDir + "/" == "data/";
  }

  lemma FilterFrameWritten(file: string, f: Frame)
    requires WellFormed(f) && FilterFrame(file, f).Ok?
    ensures var out := FilterFrame(file, f).value;
      var c, s := ColumnIndex(f.columns, CatalogColumn(file)).value, ColumnIndex(f.columns, "Subject").value;
      var kept := KeptRows(f, s, c);
      && |out.frame.rows| == |kept|
      && (forall i, j :: 0 <= i < |kept| && 0 <= j < |f.columns| && j != c ==> out.frame.rows[i][j] == kept[i][j])
      && (forall i :: 0 <= i < |kept| ==> ParseCatalog(out.frame.rows[i][c]) == ParseCatalog(kept[i][c]))
  {
    var out := FilterFrame(file, f).value;
    var c, s := ColumnIndex(f.columns, CatalogColumn(file)).value, ColumnIndex(f.columns, "Subject").value;
    var kept := KeptRows(f, s, c);
    forall i | 0 <= i < |kept|
      ensures |kept[i]| == |f.columns| && |out.frame.rows[i]| == |kept[i]|
      ensures forall j :: 0 <= j < |f.columns| && j != c ==> out.frame.rows[i][j] == kept[i][j]
      ensures ParseCatalog(out.frame.rows[i][c]) == ParseCatalog(kept[i][c])
    {
      KeptRowWritten(f, s, c, kept[i]);
    }
  }

  /** Every written row is a CS row whose catalog cell holds a number in [6000, 7000]. */
  lemma WrittenRowsQualify(file: string, f: Frame)
    requires WellFormed(f) && FilterFrame(file, f).Ok?
    ensures var rows := FilterFrame(file, f).value.frame.rows;
      var c, s := ColumnIndex(f.columns, CatalogColumn(file)).value, ColumnIndex(f.columns, "Subject").value;
      forall k :: 0 <= k < |rows| ==>
        && rows[k][s] == "CS"
        && ParseCatalog(rows[k][c]).Some? && Between(ParseCatalog(rows[k][c]).value)
  {
    var c, s := ColumnIndex(f.columns, CatalogColumn(file)).value, ColumnIndex(f.columns, "Subject").value;
    var kept := KeptRows(f, s, c);
    FilterFrameRows(file, f);
    forall k | 0 <= k < |kept|
      ensures Keep(kept[k], s, c)
    {
    }
  }

  /** The written table is well formed again. */
  lemma FilterFrameWellFormed(file: string, f: Frame)
    requires WellFormed(f) && FilterFrame(file, f).Ok?
    ensures FilterFrame(file, f).value.frame.columns == f.columns
    ensures WellFormed(FilterFrame(file, f).value.frame)
  {
    var c, s := ColumnIndex(f.columns, CatalogColumn(file)).value, ColumnIndex(f.columns, "Subject").value;
    var kept := KeptRows(f, s, c);
    forall i | 0 <= i < |kept|
      ensures |kept[i]| == |f.columns|
    {
      assert kept[i] in f.rows;
    }
  }

  /** The written rows pass the mask again, are written back unchanged, and keep
      the column's integer-or-float form. */
  lemma WrittenRowsStable(file: string, f: Frame)
    requires WellFormed(f) && FilterFrame(file, f).Ok?
    ensures var rows := FilterFrame(file, f).value.frame.rows;
      var c, s := ColumnIndex(f.columns, CatalogColumn(file)).value, ColumnIndex(f.columns, "Subject").value;
      && KeptRows(FilterFrame(file, f).value.frame, s, c) == rows
      && (|rows| > 0 ==> FloatColumn(rows, c) == FloatColumn(f.rows, c))
      && forall i :: 0 <= i < |rows| ==> Rerender(rows[i], c, FloatColumn(f.rows, c)) == rows[i]
  {
    var out := FilterFrame(file, f).value;
    var c, s := ColumnIndex(f.columns, CatalogColumn(file)).value, ColumnIndex(f.columns, "Subject").value;
    var kept := KeptRows(f, s, c);
    var asFloat := FloatColumn(f.rows, c);
    var rows := out.frame.rows;
    forall i | 0 <= i < |kept|
      ensures Keep(rows[i], s, c)
      ensures Rerender(rows[i], c, asFloat) == rows[i]
      ensures IsInteger(rows[i][c]) <==> !asFloat
    {
      KeptRowWritten(f, s, c, kept[i]);
    }
    FilterKeepsAll(rows, (row: seq<string>) => Keep(row, s, c));
    if |rows| > 0 && asFloat {
      assert !IsInteger(rows[0][c]);
    }
  }

  /** Filtering the written table again writes the same table: the filter is idempotent. */
  lemma FilterIdempotent(file: string, f: Frame)
    requires WellFormed(f) && FilterFrame(file, f).Ok?
    ensures FilterFrame(file, FilterFrame(file, f).value.frame) == FilterFrame(file, f)
  {
    var out := FilterFrame(file, f).value;
    WrittenRowsStable(file, f);
    var again := FilterFrame(file, out.frame).value;
    assert again.frame.rows == out.frame.rows;
  }
}
