# GDP world map by country code — a verified model

`Project.py` joins three tables so that GDP can be drawn on a pygal world
map:

- the map library's plot countries, keyed by two-letter plot code;
- a country-code file, mapping plot codes to World Bank data codes;
- a GDP file, one row per country, keyed by a country code, with one
  column per year.

This project models the core of that join in Dafny and proves what it
computes:

- **Loaders** — the indexing loops of `build_country_code_converter` and
  `read_gdp_data`, over rows the CSV reader has already parsed. A row is a
  map from column name to raw text. A row without a configured column is
  the `KeyError` path, modelled as `Failure(MissingColumn(c))`.
- **Reconcile** — `reconcile_countries_by_code`. For each plot code (lower-cased)
  it finds the first converter entry whose plot code matches (also
  lower-cased). It then finds the first GDP key equal to that entry's data
  code, both upper-cased. The result is the matched dict (plot code to GDP
  key, in the key's own casing) and the set of unmatched plot codes.
- **MapByCode** — the classification loop of `build_map_dict_by_code`.
  Each matched plot code goes either into the result (positive GDP for the
  year) or into `no_data_for_year`. The module also composes the whole
  pipeline.
- **OrderedDict** — Python dicts as insertion-ordered entry sequences.
  `d[k] = v` replaces an existing entry in place or appends a new one.
- **Text**, **Numbers** — `str.strip()`, `lower()`/`upper()` and `float()`
  as the join uses them.
- **Scenarios** — the worked examples written beside the source, stated
  for any country names and GDP rows.

Each loop is a `method` proved equal to a specification function. The
properties the program promises are lemmas about those functions.

## Model

| member | source | states |
|---|---|---|
| OrderedDict.Get | Project.py:87 | `d.get(k)` is None exactly when `k` is not a key; otherwise it is the value of an entry under `k` |
| OrderedDict.GetEntry | Project.py:86-87 | in a dict with one entry per key, looking up an entry's key returns that entry's value |
| OrderedDict.Lookup | Project.py:87 | `d[k]` for a present key returns a value stored under `k` |
| OrderedDict.Assign | Project.py:25 | `d[k] = v`: an existing key keeps its position, a new key is appended, `k` now maps to `v`, every other key keeps its value, no other entry appears |
| OrderedDict.AssignDistinct | Project.py:45 | `d[k] = v` keeps one entry per key |
| OrderedDict.AssignReplaces | Project.py:25 | assigning to a present key rewrites its entry where it stands, leaving the key order alone |
| OrderedDict.AssignAppends | Project.py:25 | assigning to a new key appends one entry at the end |
| OrderedDict.FromPairs | Project.py:22-25 | the dict built by assigning a sequence of pairs has one entry per key, and its keys are exactly the keys of the pairs |
| OrderedDict.FirstIndexOf | Project.py:87 | the position of the first entry holding a key, with no earlier entry holding it |
| OrderedDict.FromPairsSnoc | Project.py:25 | one more pair assigns one more entry onto the dict built so far |
| OrderedDict.FirstIndexOfUnique | Project.py:87 | when only one entry holds a key, that entry is the one found |
| OrderedDict.FromPairsLastWins | Project.py:25 | a key's value in the built dict is that of the last pair with that key |
| OrderedDict.Dedup | Project.py:22-25 | a sequence with repeats dropped holds exactly the same elements |
| OrderedDict.FromPairsKeyOrder | Project.py:22-25 | the built dict lists its keys in the order in which each first appears among the pairs, repeats dropped |
| OrderedDict.FirstIndexOfPrefix | Project.py:25 | appending an entry does not move the first position of a key already present |
| Text.IsSpace | Project.py:23-24 | the whitespace `strip()` removes is that of `str.isspace()`: ASCII whitespace, the separator controls and the Unicode space characters |
| Text.StripStart | Project.py:23 | `lstrip()` never lengthens the string; `StripStartShape` fixes its value |
| Text.StripEnd | Project.py:23 | `rstrip()` never lengthens the string; `StripEndShape` fixes its value |
| Text.StripStartShape | Project.py:23 | `lstrip()` keeps a suffix, removes only whitespace and leaves no leading whitespace |
| Text.StripEndShape | Project.py:23 | `rstrip()` keeps a prefix, removes only whitespace and leaves no trailing whitespace |
| Text.Strip | Project.py:23-24 | `strip()` never lengthens the string |
| Text.StripShape | Project.py:23-24 | `strip()` keeps a contiguous slice with no whitespace at either end, and everything it removes is whitespace |
| Text.StripTrimmed | Project.py:87 | a string with no whitespace at either end is left alone by `strip()` |
| Text.StripIdempotent | Project.py:66 | `strip()` applied twice is `strip()` applied once |
| Text.LowerChar | Project.py:40-42 | one character of `lower()`: a capital letter becomes the same letter in small form, anything else is kept, and no capital letter comes out |
| Text.UpperChar | Project.py:44 | one character of `upper()`: a small letter becomes the same letter in capital form, anything else is kept, and no small letter comes out |
| Text.Lower | Project.py:40-42 | `lower()` keeps the length, turns each capital letter into the same letter in small form, keeps every other character, and leaves no capital letter |
| Text.Upper | Project.py:44 | `upper()` keeps the length, turns each small letter into the same letter in capital form, keeps every other character, and leaves no small letter, as the comparison at line 44 and the key at line 66 use it |
| Text.SameLowerCharIffSameUpperChar | Project.py:42-44 | two characters agree lower-cased exactly when they agree upper-cased |
| Text.SameLowerIffSameUpper | Project.py:42-44 | two strings agree lower-cased exactly when they agree upper-cased, so the two case comparisons of the join are the same test |
| Text.UpperIdempotent | Project.py:44 | `upper()` applied twice is `upper()` applied once |
| Text.NormalisedKeyIsFixed | Project.py:66 | a GDP code that has been trimmed and upper-cased is unchanged by trimming and upper-casing it again |
| Numbers.ParseUnsigned | Project.py:89 | an unsigned decimal literal reads as a non-negative number and is never empty |
| Numbers.ParseFloat | Project.py:89 | `float(s)` succeeds only on a non-empty string; a leading minus gives a value at most zero, and otherwise the value is at least zero |
| Numbers.ParseFloatDigits | Project.py:89 | a run of digits reads as the natural number it spells |
| Numbers.ParseFloatZero | Project.py:89 | "0" reads as zero |
| Numbers.ParseFloatNegative | Project.py:89 | "-5" reads as minus five |
| Numbers.ParseFloatFraction | Project.py:89 | "12.5" reads as twelve and a half |
| Numbers.ParseFloatRejects | Project.py:94-95 | "", "n/a" and "1.2.3" are the `ValueError` case |
| Loaders.MissingIn | Project.py:23-24 | a row lacks none of the columns exactly when no missing column is reported; a reported column is configured and absent from the row |
| Loaders.FirstMissing | Project.py:22-25 | the loop raises exactly when some row lacks a configured column, and what it reports is a configured column |
| Loaders.FirstMissingPersists | Project.py:22-25 | once a prefix of the rows raises, the whole loop raises the same error |
| Loaders.BuildCountryCodeConverter | Project.py:22-25 | the loop over the code-file rows returns exactly `CodeConverter`: the first missing column, or the dict of trimmed plot codes to trimmed data codes |
| Loaders.MissingRowStops | Project.py:22-24 | the first row without a configured column decides the error of the whole loop |
| Loaders.ConverterStep | Project.py:25 | one more code-file row assigns its trimmed pair onto the converter built so far |
| Loaders.MissingStep | Project.py:22-24 | a row with every configured column extends a prefix of rows that reads cleanly |
| Loaders.CodeConverterFails | Project.py:23-24 | building the converter fails exactly when some row lacks the plot-code column or the data-code column |
| Loaders.CodeConverterKeys | Project.py:22-25 | on success the converter has one entry per key, and its keys are exactly the trimmed plot codes of the rows |
| Loaders.CodeConverterLastWins | Project.py:25 | a plot code maps to the trimmed data code of the last row with that trimmed plot code |
| Loaders.PlotCodes | Project.py:23 | there is one trimmed plot code per row |
| Loaders.CodeConverterFirstPosition | Project.py:22-25 | the converter's keys are the rows' trimmed plot codes, repeats dropped, each at the position where it first appears |
| Loaders.ReadGdpData | Project.py:65-67 | the loop over the GDP rows returns exactly `GdpIndex`: the missing-column error, or the dict from normalised code to row |
| Loaders.GdpStep | Project.py:66-67 | one more GDP row assigns itself, under its normalised code, onto the index built so far |
| Loaders.GdpIndexFails | Project.py:66 | reading the GDP table fails exactly when some row lacks the country-code column |
| Loaders.GdpIndexKeys | Project.py:65-67 | on success the index has one entry per key; its keys are exactly the rows' codes trimmed and upper-cased, each already in that normal form |
| Loaders.GdpIndexLastWins | Project.py:67 | a normalised code maps to the last row carrying it |
| Loaders.GdpCodes | Project.py:66 | there is one normalised code per GDP row |
| Loaders.GdpIndexFirstPosition | Project.py:65-67 | the index lists its codes in the order in which each first appears among the rows |
| Reconcile.ConverterHitFrom | Project.py:41-42 | the converter scan stops at an entry whose plot code lower-cases to the plot code, with no earlier matching entry; it runs off the end only when there is none |
| Reconcile.GdpKeyFrom | Project.py:43-44 | the GDP scan stops at a key equal to the data code after upper-casing, with no earlier such key; it runs off the end only when there is none |
| Reconcile.Resolve | Project.py:39-51 | the GDP key recorded for a plot code, when there is one, is a key of the GDP table |
| Reconcile.ReconcileCountriesByCode | Project.py:39-53 | the nested `for ... else` loops return exactly `Reconciliation` of the converter, plot countries and GDP table |
| Reconcile.ReconciliationSnoc | Project.py:39-51 | one more plot entry either assigns its resolved key into `matched` or adds its code to `unmatched`, as `Resolve` says |
| Reconcile.ResolveFound | Project.py:43-46 | when the first converter hit leads to a matching GDP key, that key is what the plot code resolves to |
| Reconcile.ResolveNoKey | Project.py:47-48 | when the first converter hit leads to no GDP key, the plot code does not resolve |
| Reconcile.ResolveIsFirstHitFirstKey | Project.py:39-51 | a plot code resolves to a key exactly when the first matching converter entry exists and the key is the first GDP key matching that entry's data code |
| Reconcile.FirstHitIsFound | Project.py:41-42 | the converter scan stops at the first matching entry |
| Reconcile.FirstKeyIsFound | Project.py:43-45 | the GDP scan stops at the first matching key |
| Reconcile.OnlyFirstHitIsTried | Project.py:47-49 | when the first matching converter entry names no GDP key, the plot code is unmatched, whatever later converter entries say |
| Reconcile.ReconciliationDistinct | Project.py:45 | `matched` holds one entry per plot code |
| Reconcile.ReconciliationValues | Project.py:45 | every value in `matched` is a key of the GDP table |
| Reconcile.ReconciliationMatchedShape | Project.py:39-53 | `matched` has one entry per key, its keys are plot codes, and its values are GDP keys |
| Reconcile.ReconciliationUnseen | Project.py:39-45 | a code that is not a plot code never becomes a key of `matched` |
| Reconcile.ReconciliationGet | Project.py:39-46 | `matched.get(p)` for a plot code `p` is what `p` resolves to |
| Reconcile.GetAtLast | Project.py:45 | after the last plot entry, `matched` holds for its code what that code resolves to |
| Reconcile.GetBeforeLast | Project.py:45 | the last plot entry leaves `matched` unchanged for every other code |
| Reconcile.ReconciliationMatched | Project.py:39-46 | for every plot code, `matched.get` is what it resolves to |
| Reconcile.ReconciliationUnmatched | Project.py:47-51 | `unmatched` holds exactly the plot codes that do not resolve |
| Reconcile.ReconciliationOutcome | Project.py:29-53 | each plot code is matched to its resolved GDP key or else is unmatched; `matched` has one entry per key, only plot codes as keys, and only GDP keys as values |
| Reconcile.ReconciliationPartition | Project.py:29-34 | every plot code is in exactly one of `matched.keys()` and `unmatched` |
| Reconcile.EmptyGdpTable | Project.py:43-48 | with an empty GDP table nothing is matched and every plot code is unmatched |
| Reconcile.HitIgnoresCase | Project.py:40-42 | the converter scan stops at the same entry whatever the casing of the plot codes |
| Reconcile.ResolveIgnoresCase | Project.py:40-44 | re-casing the plot code or the converter's codes leaves the outcome unchanged; the key found keeps the table's own casing |
| Reconcile.KeyIgnoresCase | Project.py:43-44 | the GDP scans of two tables whose keys agree up to case, position by position, stop at the same entry |
| Reconcile.ResolveIgnoresTableCase | Project.py:43-45 | re-casing the GDP table's keys leaves the outcome unchanged except that the recorded key takes the new casing: both tables give the entry at the same position, or both give nothing |
| MapByCode.YearField | Project.py:87 | `.get(year, '').strip()`: a missing year reads as the empty string, a present one as its field trimmed, and the result has no whitespace at either end |
| MapByCode.GdpForYear | Project.py:87-95 | a year value is kept exactly when the trimmed field parses as a number greater than zero, and the kept value is that number |
| MapByCode.YearFieldOutcomes | Project.py:87-95 | a missing year, a blank field, "n/a", "0" and "-5" give no usable value, so the code goes to `no_data_for_year`; "12.5" is kept as 12.5 |
| MapByCode.ClassifyByYear | Project.py:83-97 | the year loop returns exactly `Classified` over every matched entry |
| MapByCode.ClassifiedKeys | Project.py:86-95 | only plot codes of visited entries are classified |
| MapByCode.ClassifiedAt | Project.py:90-95 | a visited entry's plot code lands in the result with its positive value, or in `no_data_for_year` when the year is unusable |
| MapByCode.ClassifiedPartition | Project.py:83-97 | the result's keys and `no_data_for_year` are disjoint, and together they are exactly `matched.keys()` |
| MapByCode.ClassifiedPositive | Project.py:90-91 | every value stored for the year is positive |
| MapByCode.MapDictOutcome | Project.py:71-97 | the three outputs partition the plot codes: the result holds codes that resolve and have a positive value for the year (that value), `no_data_for_year` holds codes that resolve without one, and the unmatched set holds codes that do not resolve |
| MapByCode.BuildMapDictByCode | Project.py:71-97 | a missing column in the GDP file is reported first, then one in the code file; otherwise the outcome is `MapDict` over the two indexed tables |
| Scenarios.StepMatched | Project.py:45 | a further plot code that resolves to a new key appends its entry to `matched` |
| Scenarios.StepUnmatched | Project.py:48-51 | a further plot code that does not resolve is added to `unmatched` |
| Scenarios.ZeroResolvesNorway | Project.py:151-153 | in Example 0, "no" resolves to "NOR" |
| Scenarios.ZeroResolvesPuertoRico | Project.py:151-153 | in Example 0, "pr" does not resolve: "PRI" is not a GDP key |
| Scenarios.ZeroResolvesUnitedStates | Project.py:151-153 | in Example 0, "us" resolves to "USA" |
| Scenarios.ZeroStepOne | Project.py:148-154 | Example 0 after its first plot code |
| Scenarios.ZeroStepTwo | Project.py:148-154 | Example 0 after its second plot code |
| Scenarios.ExampleZero | Project.py:148-154 | Example 0 gives `({'no': 'NOR', 'us': 'USA'}, {'pr'})` in that order |
| Scenarios.OneResolvesPuertoRico | Project.py:158-164 | in Example 1, "pr" resolves to "PRI" |
| Scenarios.OneResolvesNorway | Project.py:158-164 | in Example 1, "no" resolves to "NOR" |
| Scenarios.OneResolvesUnitedStates | Project.py:158-164 | in Example 1, "us" resolves to "USA" |
| Scenarios.OneStepOne | Project.py:157-165 | Example 1 after its first plot code |
| Scenarios.OneStepTwo | Project.py:157-165 | Example 1 after its second plot code |
| Scenarios.ExampleOne | Project.py:157-165 | Example 1 gives `({'pr': 'PRI', 'no': 'NOR', 'us': 'USA'}, set())` in that order |
| Scenarios.ExampleThree | Project.py:179-185 | Example 3 gives `({}, {'jp', 'cn', 'ru'})` whatever the converter |
| Scenarios.FirstHitShadowsLater | Project.py:41-49 | a dead converter entry for "us" ahead of a live one leaves "us" unmatched |
| Scenarios.MixedResolvesC4 | Project.py:191-198 | in Example 4, "C4" resolves to "ef" |
| Scenarios.MixedResolvesC3 | Project.py:191-198 | in Example 4, "C3" resolves to "Kl" |
| Scenarios.MixedResolvesC2 | Project.py:191-198 | in Example 4, "C2" resolves to "qR" |
| Scenarios.MixedResolvesC1 | Project.py:191-198 | in Example 4, "C1" resolves to "WX" |
| Scenarios.MixedResolvesC5 | Project.py:191-198 | in Example 4, "C5" does not resolve |
| Scenarios.MixedStepOne | Project.py:189-198 | Example 4 after its first plot code |
| Scenarios.MixedStepTwo | Project.py:189-198 | Example 4 after its second plot code |
| Scenarios.MixedStepThree | Project.py:189-198 | Example 4 after its third plot code |
| Scenarios.MixedStepFour | Project.py:189-198 | Example 4 after its fourth plot code |
| Scenarios.ExampleFour | Project.py:189-199 | Example 4 gives `({'C4': 'ef', 'C3': 'Kl', 'C2': 'qR', 'C1': 'WX'}, {'C5'})` in that order |

## Left out

- Opening and parsing the CSV files (Project.py:18-21, 61-64). The loaders start from rows already read, and the file name, separator and quote character are not modelled.
- Rows of a short CSV line, where the reader fills missing fields with `None`. A row here maps each present column to text. In the source a `None` field makes `.strip()` raise an `AttributeError` that nothing catches (Project.py:23, 24, 66 and 87), which aborts the whole call; the model has no such case.
- `reconcile_countries_by_code` builds its converter from `codeinfo`. Here the converter is passed in as an ordered dict. `BuildMapDictByCode` builds it from the code rows with `BuildCountryCodeConverter`.
- `math.log10` (Project.py:91). The result holds the positive GDP value whose base-10 logarithm the source stores. Floating point is not modelled, and this reaches the classification too: a plain decimal too small for a Python float (for example a `0.` followed by four hundred zeros and then a `1`) reads as 0.0 in the source and goes to `no_data_for_year`, while the model reads it as an exact positive number and stores it in the result.
- Numbers.ParseFloat: accepts only an optional sign followed by a decimal literal with at most one point, written in ASCII digits. Python's `float` also accepts exponents, underscores between digits, `inf` and `nan`, non-ASCII decimal digits, and surrounding whitespace; the field is already trimmed at Project.py:87.
- The `TypeError` branch at Project.py:94 is not modelled because it cannot be reached. `gdp_value` is always a `str` after the `.strip()` at Project.py:87, and `float` of a `str` raises only `ValueError`.
- MapByCode.ClassifyByYear: `result` is a Dafny `map`, so the model does not keep the insertion order of the `result` dict at Project.py:83-91. Which keys it holds and their values are modelled.
- Text.Lower, Text.Upper: case mapping is ASCII only. Python maps non-ASCII letters too.
- `render_world_map` and `test_render_world_map` (Project.py:100-144): pygal rendering and file output.
- The files code4.csv, code1.csv and code2.csv are not part of this model. Examples 0, 1 and 4 therefore state their converter as a table consistent with the comments and expected outputs beside them, and leave the country names and GDP rows open. Examples 0 and 1 share the table for code4.csv.
- Example 2 (Project.py:168-176): it is the only example that reads code2.csv, and its expected output does not pin down that file's converter. Which of "C2", "C4" and "C5" lack an entry, and which have one that leads to no GDP key, cannot be told from the output. Examples 0 and 4 already exercise both paths.
