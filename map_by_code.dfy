/**
 * `build_map_dict_by_code`: reads the GDP table and the converter,
 * reconciles the plot codes, then sorts each matched plot code by the GDP
 * value its country has for the requested year.
 */
module MapByCode {
  import opened Wrappers
  import opened Text
  import opened Numbers
  import opened OrderedDict
  import opened Loaders
  import opened Reconcile

  /** `gdp_data[gdp_code].get(year, '').strip()`: a missing year reads as the empty string. */
  function YearField(row: Row, year: string): (field: string)
    ensures year !in row ==> field == ""
    ensures year in row ==> field == Strip(row[year])
    ensures field == [] || (!IsSpace(field[0]) && !IsSpace(field[|field| - 1]))
  {
    var raw := if year in row then row[year] else "";
    StripShape(raw);
    Strip(raw)
  }

  /**
   * The GDP whose logarithm goes on the map, or None when the year has no
   * usable value: missing, blank, not a number, zero or negative.
   */
  function GdpForYear(row: Row, year: string): (r: Option<real>)
    ensures r.Some? ==> r.value > 0.0 && ParseFloat(YearField(row, year)) == r
    ensures ParseFloat(YearField(row, year)).Some? && ParseFloat(YearField(row, year)).value > 0.0 ==>
      r == ParseFloat(YearField(row, year))
  {
    match ParseFloat(YearField(row, year))
    case Some(gdp) => if gdp > 0.0 then Some(gdp) else None
    case None => None
  }

  /**
   * Typical year fields: a missing year, a blank field, a word, zero and a
   * negative number all give no usable value, while a positive number is
   * kept as it reads.
   */
  lemma YearFieldOutcomes(row: Row, year: string)
    ensures year !in row ==> GdpForYear(row, year) == None
    ensures year in row && Strip(row[year]) == "" ==> GdpForYear(row, year) == None
    ensures year in row && Strip(row[year]) == "n/a" ==> GdpForYear(row, year) == None
    ensures year in row && Strip(row[year]) == "0" ==> GdpForYear(row, year) == None
    ensures year in row && Strip(row[year]) == "-5" ==> GdpForYear(row, year) == None
    ensures year in row && Strip(row[year]) == "12.5" ==> GdpForYear(row, year) == Some(12.5)
  {
    ParseFloatRejects();
    ParseFloatZero();
    ParseFloatNegative();
    ParseFloatFraction();
  }

  /** Every matched GDP code names an entry of the GDP table. */
  predicate CodesInTable(gdpData: Dict<string, Row>, matched: Dict<string, string>) {
    forall e :: e in matched ==> e.1 in Keys(gdpData)
  }

  /** What the year holds for the GDP row of each matched entry, in order. */
  function YearOutcomes(gdpData: Dict<string, Row>, matched: Dict<string, string>, year: string)
    : seq<Option<real>>
    requires CodesInTable(gdpData, matched)
  {
    seq(|matched|, i requires 0 <= i < |matched| => GdpForYear(Lookup(gdpData, matched[i].1), year))
  }

  /**
   * `(result, no_data_for_year)` after the loop has visited the first `n`
   * entries of `matched`, where `outcomes[i]` is what the year holds for
   * entry `i`.
   */
  function Classified(matched: Dict<string, string>, outcomes: seq<Option<real>>, n: nat)
    : (map<string, real>, set<string>)
    requires |outcomes| == |matched| && n <= |matched|
  {
    if n == 0 then (map[], {})
    else
      var (result, noData) := Classified(matched, outcomes, n - 1);
      var plotCode := matched[n - 1].0;
      match outcomes[n - 1]
      case Some(gdp) => (result[plotCode := gdp], noData)
      case None => (result, noData + {plotCode})
  }

  /** The classification loop of `build_map_dict_by_code`. */
  method ClassifyByYear(gdpData: Dict<string, Row>, matched: Dict<string, string>, year: string)
    returns (result: map<string, real>, noDataForYear: set<string>)
    requires CodesInTable(gdpData, matched)
    ensures (result, noDataForYear) == Classified(matched, YearOutcomes(gdpData, matched, year), |matched|)
  {
    ghost var outcomes := YearOutcomes(gdpData, matched, year);
    result, noDataForYear := map[], {};
    for i := 0 to |matched|
      invariant (result, noDataForYear) == Classified(matched, outcomes, i)
    {
      var (plotCode, gdpCode) := matched[i];
      var gdpValue := YearField(Lookup(gdpData, gdpCode), year);
      assert outcomes[i] == GdpForYear(Lookup(gdpData, gdpCode), year);
      match ParseFloat(gdpValue)
      case Some(gdp) =>
        if gdp > 0.0 {
          assert outcomes[i] == Some(gdp);
          result := result[plotCode := gdp];
        } else {
          assert outcomes[i] == None;
          noDataForYear := noDataForYear + {plotCode};
        }
      case None =>
        assert outcomes[i] == None;
        noDataForYear := noDataForYear + {plotCode};
    }
  }

  /** Only plot codes among the first `n` entries are classified. */
  lemma {:induction false} ClassifiedKeys(matched: Dict<string, string>, outcomes: seq<Option<real>>, n: nat)
    requires |outcomes| == |matched| && n <= |matched|
    ensures forall p :: p in Classified(matched, outcomes, n).0 || p in Classified(matched, outcomes, n).1 ==>
      exists j :: 0 <= j < n && matched[j].0 == p
  {
    if n > 0 {
      ClassifiedKeys(matched, outcomes, n - 1);
      var prev := Classified(matched, outcomes, n - 1);
      forall p | p in Classified(matched, outcomes, n).0 || p in Classified(matched, outcomes, n).1
        ensures exists j :: 0 <= j < n && matched[j].0 == p
      {
        if p == matched[n - 1].0 {
          assert matched[n - 1].0 == p;
        } else {
          assert p in prev.0 || p in prev.1;
        }
      }
    }
  }

  /**
   * The plot code of an entry among the first `n` lands in `result` with
   * the value its outcome holds, or in `no_data_for_year` when the outcome
   * is empty.
   */
  lemma {:induction false} ClassifiedAt(matched: Dict<string, string>, outcomes: seq<Option<real>>, n: nat, i: nat)
    requires |outcomes| == |matched| && i < n <= |matched| && DistinctKeys(matched)
    ensures var (result, noData) := Classified(matched, outcomes, n);
      && (outcomes[i].Some? ==> matched[i].0 in result && matched[i].0 !in noData && result[matched[i].0] == outcomes[i].value)
      && (outcomes[i].None? ==> matched[i].0 in noData && matched[i].0 !in result)
  {
    if i < n - 1 {
      ClassifiedAt(matched, outcomes, n - 1, i);
      assert matched[i].0 != matched[n - 1].0;
    } else {
      ClassifiedKeys(matched, outcomes, n - 1);
      var prev := Classified(matched, outcomes, n - 1);
      assert forall j :: 0 <= j < n - 1 ==> matched[j].0 != matched[i].0;
    }
  }

  /**
   * Once the loop has visited every entry, the keys of `result` and
   * `no_data_for_year` are disjoint and their union is exactly
   * `matched.keys()`.
   */
  lemma ClassifiedPartition(matched: Dict<string, string>, outcomes: seq<Option<real>>)
    requires |outcomes| == |matched| && DistinctKeys(matched)
    ensures Classified(matched, outcomes, |matched|).0.Keys !! Classified(matched, outcomes, |matched|).1
    ensures Classified(matched, outcomes, |matched|).0.Keys + Classified(matched, outcomes, |matched|).1
      == set p | p in Keys(matched)
  {
    var (result, noData) := Classified(matched, outcomes, |matched|);
    ClassifiedKeys(matched, outcomes, |matched|);
    forall p | p in Keys(matched)
      ensures p in result.Keys + noData
    {
      var i :| 0 <= i < |matched| && Keys(matched)[i] == p;
      ClassifiedAt(matched, outcomes, |matched|, i);
    }
    forall p | p in result.Keys + noData
      ensures p in Keys(matched) && (p in result <==> p !in noData)
    {
      var j :| 0 <= j < |matched| && matched[j].0 == p;
      assert Keys(matched)[j] == p;
      ClassifiedAt(matched, outcomes, |matched|, j);
    }
  }

  /** Every GDP stored for the year is positive. */
  lemma ClassifiedPositive(gdpData: Dict<string, Row>, matched: Dict<string, string>, year: string)
    requires DistinctKeys(matched) && CodesInTable(gdpData, matched)
    ensures var result := Classified(matched, YearOutcomes(gdpData, matched, year), |matched|).0;
      forall p :: p in result ==> result[p] > 0.0
  {
    var outcomes := YearOutcomes(gdpData, matched, year);
    var result := Classified(matched, outcomes, |matched|).0;
    ClassifiedKeys(matched, outcomes, |matched|);
    forall p | p in result
      ensures result[p] > 0.0
    {
      var j :| 0 <= j < |matched| && matched[j].0 == p;
      ClassifiedAt(matched, outcomes, |matched|, j);
    }
  }

  /** The three outputs of `build_map_dict_by_code`. */
  datatype GdpMap = GdpMap(values: map<string, real>, noMatch: set<string>, noData: set<string>)

  /** What `build_map_dict_by_code` returns once both tables are indexed. */
  function MapDict(converter: Dict<string, string>, plotCountries: Dict<string, string>,
                   gdpData: Dict<string, Row>, year: string): GdpMap
  {
    var (matched, unmatched) := Reconciliation(converter, plotCountries, gdpData);
    ReconciliationOutcome(converter, plotCountries, gdpData);
    var (result, noData) := Classified(matched, YearOutcomes(gdpData, matched, year), |matched|);
    GdpMap(result, unmatched, noData)
  }

  /**
   * The three outputs partition the plot codes. A code is in `values`
   * exactly when it resolves to a GDP key whose row has a positive value for
   * the year (and that value is stored), in `noData` exactly when it
   * resolves but the year has no usable value, and in `noMatch` exactly
   * when it does not resolve.
   */
  lemma MapDictOutcome(converter: Dict<string, string>, plotCountries: Dict<string, string>,
                       gdpData: Dict<string, Row>, year: string)
    ensures var m := MapDict(converter, plotCountries, gdpData, year);
      && (forall p :: p in Keys(plotCountries) <==> p in m.values || p in m.noMatch || p in m.noData)
      && m.values.Keys !! m.noMatch && m.values.Keys !! m.noData && m.noMatch !! m.noData
      && (forall p :: p in m.noMatch <==> p in Keys(plotCountries) && Resolve(converter, gdpData, p).None?)
      && (forall p :: p in m.values ==>
            && Resolve(converter, gdpData, p).Some?
            && GdpForYear(Lookup(gdpData, Resolve(converter, gdpData, p).value), year) == Some(m.values[p]))
      && (forall p :: p in m.noData ==>
            && Resolve(converter, gdpData, p).Some?
            && GdpForYear(Lookup(gdpData, Resolve(converter, gdpData, p).value), year).None?)
  {
    var (matched, unmatched) := Reconciliation(converter, plotCountries, gdpData);
    ReconciliationOutcome(converter, plotCountries, gdpData);
    var (result, noData) := Classified(matched, YearOutcomes(gdpData, matched, year), |matched|);
    ClassifiedPartition(matched, YearOutcomes(gdpData, matched, year));
    ClassifiedKeys(matched, YearOutcomes(gdpData, matched, year), |matched|);
    forall p | p in result || p in noData
      ensures p in Keys(plotCountries) && p !in unmatched
      ensures Resolve(converter, gdpData, p).Some?
      ensures p in result ==> GdpForYear(Lookup(gdpData, Resolve(converter, gdpData, p).value), year) == Some(result[p])
      ensures p in noData ==> GdpForYear(Lookup(gdpData, Resolve(converter, gdpData, p).value), year).None?
    {
      var j :| 0 <= j < |matched| && matched[j].0 == p;
      GetEntry(matched, j);
      ClassifiedAt(matched, YearOutcomes(gdpData, matched, year), |matched|, j);
    }
    forall p | p in Keys(plotCountries) && p !in unmatched
      ensures p in result || p in noData
    {
      var v := Get(matched, p);
      assert v.Some?;
      assert p in Keys(matched);
    }
  }

  /**
   * `build_map_dict_by_code` over already-parsed rows: index the GDP rows,
   * build the converter, reconcile, classify. A missing column in the GDP
   * file is reported before one in the code file.
   */
  method BuildMapDictByCode(gdpRows: seq<Row>, countryCodeColumn: string,
                            codeRows: seq<Row>, plotColumn: string, dataColumn: string,
                            plotCountries: Dict<string, string>, year: string)
    returns (r: Result<GdpMap, LoadError>)
    ensures GdpIndex(gdpRows, countryCodeColumn).Failure? ==>
      r == Failure(GdpIndex(gdpRows, countryCodeColumn).error)
    ensures GdpIndex(gdpRows, countryCodeColumn).Success? && CodeConverter(codeRows, plotColumn, dataColumn).Failure? ==>
      r == Failure(CodeConverter(codeRows, plotColumn, dataColumn).error)
    ensures GdpIndex(gdpRows, countryCodeColumn).Success? && CodeConverter(codeRows, plotColumn, dataColumn).Success? ==>
      r == Success(MapDict(CodeConverter(codeRows, plotColumn, dataColumn).value, plotCountries,
                           GdpIndex(gdpRows, countryCodeColumn).value, year))
  {
    var gdpData := ReadGdpData(gdpRows, countryCodeColumn);
    if gdpData.Failure? {
      return Failure(gdpData.error);
    }
    var converter := BuildCountryCodeConverter(codeRows, plotColumn, dataColumn);
    if converter.Failure? {
      return Failure(converter.error);
    }
    var matched, unmatched := ReconcileCountriesByCode(converter.value, plotCountries, gdpData.value);
    ReconciliationOutcome(converter.value, plotCountries, gdpData.value);
    var result, noDataForYear := ClassifyByYear(gdpData.value, matched, year);
    return Success(GdpMap(result, unmatched, noDataForYear));
  }
}
