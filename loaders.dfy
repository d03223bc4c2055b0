/**
 * The indexing loops of the two table loaders, over rows that the CSV
 * reader has already parsed: `build_country_code_converter` (plot code to
 * data code) and `read_gdp_data` (normalised country code to GDP row).
 */
module Loaders {
  import opened Wrappers
  import opened Text
  import opened OrderedDict

  /** One parsed CSV row: column name to the raw text of its field. */
  type Row = map<string, string>

  /** The `KeyError` raised when a row has no field for a configured column. */
  datatype LoadError = MissingColumn(column: string)

  /** The first of `columns`, in the order the loop reads them, that `row` has no field for. */
  function MissingIn(row: Row, columns: seq<string>): (r: Option<string>)
    ensures r.None? <==> forall c :: c in columns ==> c in row
    ensures r.Some? ==> r.value in columns && r.value !in row
  {
    if columns == [] then None
    else if columns[0] !in row then Some(columns[0])
    else MissingIn(row, columns[1..])
  }

  /** The column whose lookup fails first when the rows are read in order, if any. */
  function FirstMissing(rows: seq<Row>, columns: seq<string>): (r: Option<string>)
    ensures r.None? <==> forall i :: 0 <= i < |rows| ==> MissingIn(rows[i], columns).None?
    ensures r.Some? ==> r.value in columns
  {
    if rows == [] then None
    else
      var init := rows[..|rows| - 1];
      assert forall i :: 0 <= i < |init| ==> init[i] == rows[i];
      match FirstMissing(init, columns)
      case Some(c) => Some(c)
      case None => MissingIn(rows[|rows| - 1], columns)
  }

  /** Once a prefix of the rows fails, the whole loop fails with the same error. */
  lemma {:induction false} FirstMissingPersists(rows: seq<Row>, columns: seq<string>, n: nat)
    requires n <= |rows| && FirstMissing(rows[..n], columns).Some?
    ensures FirstMissing(rows, columns) == FirstMissing(rows[..n], columns)
  {
    if n < |rows| {
      var init := rows[..|rows| - 1];
      assert init[..n] == rows[..n];
      FirstMissingPersists(init, columns, n);
    } else {
      assert rows[..n] == rows;
    }
  }

  // ---------------------------------------------------------------------------
  // build_country_code_converter

  /** The (plot code, data code) pair each row contributes, both fields trimmed. */
  function ConverterPairs(rows: seq<Row>, plotColumn: string, dataColumn: string): seq<(string, string)>
    requires forall i :: 0 <= i < |rows| ==> plotColumn in rows[i] && dataColumn in rows[i]
  {
    seq(|rows|, i requires 0 <= i < |rows| => (Strip(rows[i][plotColumn]), Strip(rows[i][dataColumn])))
  }

  /** What `build_country_code_converter` returns for already-parsed rows. */
  function CodeConverter(rows: seq<Row>, plotColumn: string, dataColumn: string): Result<Dict<string, string>, LoadError>
  {
    match FirstMissing(rows, [plotColumn, dataColumn])
    case Some(c) => Failure(MissingColumn(c))
    case None =>
      assert forall i :: 0 <= i < |rows| ==> MissingIn(rows[i], [plotColumn, dataColumn]).None?;
      Success(FromPairs(ConverterPairs(rows, plotColumn, dataColumn)))
  }

  /** The indexing loop of `build_country_code_converter`. */
  method BuildCountryCodeConverter(rows: seq<Row>, plotColumn: string, dataColumn: string)
    returns (r: Result<Dict<string, string>, LoadError>)
    ensures r == CodeConverter(rows, plotColumn, dataColumn)
  {
    var columns := [plotColumn, dataColumn];
    var codeDict: Dict<string, string> := [];
    for i := 0 to |rows|
      invariant FirstMissing(rows[..i], columns).None?
      invariant forall j :: 0 <= j < i ==> plotColumn in rows[j] && dataColumn in rows[j]
      invariant codeDict == FromPairs(ConverterPairs(rows[..i], plotColumn, dataColumn))
    {
      var row := rows[i];
      if plotColumn !in row {
        MissingRowStops(rows, columns, i);
        return Failure(MissingColumn(plotColumn));
      }
      var plotCode := Strip(row[plotColumn]);
      if dataColumn !in row {
        MissingRowStops(rows, columns, i);
        return Failure(MissingColumn(dataColumn));
      }
      var dataCode := Strip(row[dataColumn]);
      codeDict := Assign(codeDict, plotCode, dataCode);
      assert MissingIn(row, columns).None?;
      MissingStep(rows, columns, i);
      ConverterStep(rows, plotColumn, dataColumn, i);
    }
    assert rows[..|rows|] == rows;
    return Success(codeDict);
  }

  /** The first row that lacks a column decides the error of the whole loop. */
  lemma MissingRowStops(rows: seq<Row>, columns: seq<string>, i: nat)
    requires i < |rows| && FirstMissing(rows[..i], columns).None?
    requires MissingIn(rows[i], columns).Some?
    ensures FirstMissing(rows, columns) == MissingIn(rows[i], columns)
  {
    assert rows[..i + 1][..i] == rows[..i];
    FirstMissingPersists(rows, columns, i + 1);
  }

  lemma ConverterStep(rows: seq<Row>, plotColumn: string, dataColumn: string, i: nat)
    requires i < |rows| && forall j :: 0 <= j <= i ==> plotColumn in rows[j] && dataColumn in rows[j]
    ensures FromPairs(ConverterPairs(rows[..i + 1], plotColumn, dataColumn))
      == Assign(FromPairs(ConverterPairs(rows[..i], plotColumn, dataColumn)),
                Strip(rows[i][plotColumn]), Strip(rows[i][dataColumn]))
  {
    var ps, qs := ConverterPairs(rows[..i], plotColumn, dataColumn), ConverterPairs(rows[..i + 1], plotColumn, dataColumn);
    var k, v := Strip(rows[i][plotColumn]), Strip(rows[i][dataColumn]);
    assert qs == ps + [(k, v)] by {
      assert |qs| == |ps| + 1;
      assert forall j :: 0 <= j < |ps| ==> qs[j] == ps[j];
    }
    FromPairsSnoc(ps, qs, k, v);
  }

  /** A row that has every column extends a prefix that reads cleanly. */
  lemma MissingStep(rows: seq<Row>, columns: seq<string>, i: nat)
    requires i < |rows| && FirstMissing(rows[..i], columns).None?
    requires MissingIn(rows[i], columns).None?
    ensures FirstMissing(rows[..i + 1], columns).None?
  {
    assert rows[..i + 1][..i] == rows[..i];
  }

  /** The converter fails exactly when some row lacks one of the two configured columns. */
  lemma CodeConverterFails(rows: seq<Row>, plotColumn: string, dataColumn: string)
    ensures CodeConverter(rows, plotColumn, dataColumn).Failure?
        <==> exists i :: 0 <= i < |rows| && (plotColumn !in rows[i] || dataColumn !in rows[i])
  {
    if exists i :: 0 <= i < |rows| && (plotColumn !in rows[i] || dataColumn !in rows[i]) {
      var i :| 0 <= i < |rows| && (plotColumn !in rows[i] || dataColumn !in rows[i]);
      assert MissingIn(rows[i], [plotColumn, dataColumn]).Some?;
    }
  }

  /**
   * On success the converter has one entry per distinct trimmed plot code,
   * and every key is the trimmed plot code of some row.
   */
  lemma CodeConverterKeys(rows: seq<Row>, plotColumn: string, dataColumn: string)
    requires forall i :: 0 <= i < |rows| ==> plotColumn in rows[i] && dataColumn in rows[i]
    ensures CodeConverter(rows, plotColumn, dataColumn).Success?
    ensures DistinctKeys(CodeConverter(rows, plotColumn, dataColumn).value)
    ensures forall k :: (k in Keys(CodeConverter(rows, plotColumn, dataColumn).value)
      <==> exists i :: 0 <= i < |rows| && Strip(rows[i][plotColumn]) == k)
  {
    var ps := ConverterPairs(rows, plotColumn, dataColumn);
    assert FirstMissing(rows, [plotColumn, dataColumn]).None?;
    forall k | k in Keys(ps)
      ensures exists i :: 0 <= i < |rows| && Strip(rows[i][plotColumn]) == k
    {
      var i := FirstIndexOf(ps, k);
    }
    forall k | exists i :: 0 <= i < |rows| && Strip(rows[i][plotColumn]) == k
      ensures k in Keys(ps)
    {
      var i :| 0 <= i < |rows| && Strip(rows[i][plotColumn]) == k;
      assert Keys(ps)[i] == k;
    }
  }

  /**
   * An exact-duplicate plot code takes the data code of its last row: the
   * converter maps the trimmed plot code of row `i` to that row's trimmed
   * data code when no later row has the same trimmed plot code.
   */
  lemma CodeConverterLastWins(rows: seq<Row>, plotColumn: string, dataColumn: string, i: nat)
    requires forall j :: 0 <= j < |rows| ==> plotColumn in rows[j] && dataColumn in rows[j]
    requires i < |rows|
    requires forall j :: i < j < |rows| ==> Strip(rows[j][plotColumn]) != Strip(rows[i][plotColumn])
    ensures CodeConverter(rows, plotColumn, dataColumn).Success?
    ensures Get(CodeConverter(rows, plotColumn, dataColumn).value, Strip(rows[i][plotColumn]))
      == Some(Strip(rows[i][dataColumn]))
  {
    assert FirstMissing(rows, [plotColumn, dataColumn]).None?;
    FromPairsLastWins(ConverterPairs(rows, plotColumn, dataColumn), i);
  }

  /** The trimmed plot code of every row, in row order. */
  function PlotCodes(rows: seq<Row>, plotColumn: string): (codes: seq<string>)
    requires forall i :: 0 <= i < |rows| ==> plotColumn in rows[i]
    ensures |codes| == |rows|
  {
    seq(|rows|, i requires 0 <= i < |rows| => Strip(rows[i][plotColumn]))
  }

  /**
   * An exact-duplicate plot code keeps its first position: the converter's
   * keys are the rows' trimmed plot codes, repeats dropped, in the order in
   * which each first appears.
   */
  lemma CodeConverterFirstPosition(rows: seq<Row>, plotColumn: string, dataColumn: string)
    requires forall j :: 0 <= j < |rows| ==> plotColumn in rows[j] && dataColumn in rows[j]
    ensures CodeConverter(rows, plotColumn, dataColumn).Success?
    ensures Keys(CodeConverter(rows, plotColumn, dataColumn).value) == Dedup(PlotCodes(rows, plotColumn))
  {
    assert FirstMissing(rows, [plotColumn, dataColumn]).None?;
    var ps := ConverterPairs(rows, plotColumn, dataColumn);
    FromPairsKeyOrder(ps);
    assert Keys(ps) == PlotCodes(rows, plotColumn);
  }

  // ---------------------------------------------------------------------------
  // read_gdp_data

  /** The (normalised code, row) pair each GDP row contributes: the code trimmed and upper-cased. */
  function GdpPairs(rows: seq<Row>, codeColumn: string): seq<(string, Row)>
    requires forall i :: 0 <= i < |rows| ==> codeColumn in rows[i]
  {
    seq(|rows|, i requires 0 <= i < |rows| => (Upper(Strip(rows[i][codeColumn])), rows[i]))
  }

  /** What `read_gdp_data` returns for already-parsed rows. */
  function GdpIndex(rows: seq<Row>, codeColumn: string): Result<Dict<string, Row>, LoadError>
  {
    match FirstMissing(rows, [codeColumn])
    case Some(c) => Failure(MissingColumn(c))
    case None =>
      assert forall i :: 0 <= i < |rows| ==> MissingIn(rows[i], [codeColumn]).None?;
      Success(FromPairs(GdpPairs(rows, codeColumn)))
  }

  /** The indexing loop of `read_gdp_data`. */
  method ReadGdpData(rows: seq<Row>, codeColumn: string) returns (r: Result<Dict<string, Row>, LoadError>)
    ensures r == GdpIndex(rows, codeColumn)
  {
    var columns := [codeColumn];
    var gdpData: Dict<string, Row> := [];
    for i := 0 to |rows|
      invariant FirstMissing(rows[..i], columns).None?
      invariant forall j :: 0 <= j < i ==> codeColumn in rows[j]
      invariant gdpData == FromPairs(GdpPairs(rows[..i], codeColumn))
    {
      var row := rows[i];
      if codeColumn !in row {
        MissingRowStops(rows, columns, i);
        return Failure(MissingColumn(codeColumn));
      }
      var code := Upper(Strip(row[codeColumn]));
      gdpData := Assign(gdpData, code, row);
      assert MissingIn(row, columns).None?;
      MissingStep(rows, columns, i);
      GdpStep(rows, codeColumn, i);
    }
    assert rows[..|rows|] == rows;
    return Success(gdpData);
  }

  lemma GdpStep(rows: seq<Row>, codeColumn: string, i: nat)
    requires i < |rows| && forall j :: 0 <= j <= i ==> codeColumn in rows[j]
    ensures FromPairs(GdpPairs(rows[..i + 1], codeColumn))
      == Assign(FromPairs(GdpPairs(rows[..i], codeColumn)), Upper(Strip(rows[i][codeColumn])), rows[i])
  {
    var ps, qs := GdpPairs(rows[..i], codeColumn), GdpPairs(rows[..i + 1], codeColumn);
    var k := Upper(Strip(rows[i][codeColumn]));
    assert qs == ps + [(k, rows[i])] by {
      assert |qs| == |ps| + 1;
      assert forall j :: 0 <= j < |ps| ==> qs[j] == ps[j];
    }
    FromPairsSnoc(ps, qs, k, rows[i]);
  }

  /** Reading the GDP table fails exactly when some row lacks the country-code column. */
  lemma GdpIndexFails(rows: seq<Row>, codeColumn: string)
    ensures GdpIndex(rows, codeColumn).Failure? <==> exists i :: 0 <= i < |rows| && codeColumn !in rows[i]
  {
    if exists i :: 0 <= i < |rows| && codeColumn !in rows[i] {
      var i :| 0 <= i < |rows| && codeColumn !in rows[i];
      assert MissingIn(rows[i], [codeColumn]).Some?;
    }
  }

  /**
   * On success the GDP index has one entry per distinct normalised code;
   * its keys are exactly the rows' codes trimmed and upper-cased, so each
   * key is already in normal form.
   */
  lemma GdpIndexKeys(rows: seq<Row>, codeColumn: string)
    requires forall i :: 0 <= i < |rows| ==> codeColumn in rows[i]
    ensures GdpIndex(rows, codeColumn).Success?
    ensures DistinctKeys(GdpIndex(rows, codeColumn).value)
    ensures forall k :: (k in Keys(GdpIndex(rows, codeColumn).value)
      <==> exists i :: 0 <= i < |rows| && Upper(Strip(rows[i][codeColumn])) == k)
    ensures forall k :: k in Keys(GdpIndex(rows, codeColumn).value) ==> Upper(Strip(k)) == k
  {
    var ps := GdpPairs(rows, codeColumn);
    assert FirstMissing(rows, [codeColumn]).None?;
    forall k | k in Keys(ps)
      ensures exists i :: 0 <= i < |rows| && Upper(Strip(rows[i][codeColumn])) == k
      ensures Upper(Strip(k)) == k
    {
      var i := FirstIndexOf(ps, k);
      NormalisedKeyIsFixed(rows[i][codeColumn]);
    }
    forall k | exists i :: 0 <= i < |rows| && Upper(Strip(rows[i][codeColumn])) == k
      ensures k in Keys(ps)
    {
      var i :| 0 <= i < |rows| && Upper(Strip(rows[i][codeColumn])) == k;
      assert Keys(ps)[i] == k;
    }
  }

  /**
   * A later row with the same normalised code replaces an earlier one: the
   * index maps the normalised code of row `i` to row `i` itself when no
   * later row normalises to the same code.
   */
  lemma GdpIndexLastWins(rows: seq<Row>, codeColumn: string, i: nat)
    requires forall j :: 0 <= j < |rows| ==> codeColumn in rows[j]
    requires i < |rows|
    requires forall j :: i < j < |rows| ==> Upper(Strip(rows[j][codeColumn])) != Upper(Strip(rows[i][codeColumn]))
    ensures GdpIndex(rows, codeColumn).Success?
    ensures Get(GdpIndex(rows, codeColumn).value, Upper(Strip(rows[i][codeColumn]))) == Some(rows[i])
  {
    assert FirstMissing(rows, [codeColumn]).None?;
    FromPairsLastWins(GdpPairs(rows, codeColumn), i);
  }

  /** The normalised code of every GDP row, in row order. */
  function GdpCodes(rows: seq<Row>, codeColumn: string): (codes: seq<string>)
    requires forall i :: 0 <= i < |rows| ==> codeColumn in rows[i]
    ensures |codes| == |rows|
  {
    seq(|rows|, i requires 0 <= i < |rows| => Upper(Strip(rows[i][codeColumn])))
  }

  /**
   * The GDP index lists its codes in the order in which each first appears
   * among the rows, however many later rows replace its row.
   */
  lemma GdpIndexFirstPosition(rows: seq<Row>, codeColumn: string)
    requires forall j :: 0 <= j < |rows| ==> codeColumn in rows[j]
    ensures GdpIndex(rows, codeColumn).Success?
    ensures Keys(GdpIndex(rows, codeColumn).value) == Dedup(GdpCodes(rows, codeColumn))
  {
    assert FirstMissing(rows, [codeColumn]).None?;
    var ps := GdpPairs(rows, codeColumn);
    FromPairsKeyOrder(ps);
    assert Keys(ps) == GdpCodes(rows, codeColumn);
  }
}
