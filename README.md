# Plano Municipal de Saneamento Básico dashboards: a verified model of their decision logic

The repository ships three small Python front ends:

- **urbano_mdr.py** is a Flask form. Residents use it to report a street problem. It accepts an optional photo of an allowed type and a location, given either in one combined field or as separate latitude and longitude. The location is normalised to six decimal places.
- **ac_drenagem8.py** is a Streamlit dashboard of the drainage GeoJSON layer. It detects Git LFS pointer files and filters features by area and neighbourhood, reading missing property values as "Não informado". It then computes one bounding box over all positions of the filtered features.
- **agro.py** is a Streamlit soil-chemistry dashboard. It builds the Talhão and element option lists and filters rows by the chosen Talhão. It then interpolates the chosen element with a fallback chain of `griddata` methods.

This project models the decision logic of those three files in Dafny and proves what the code promises about it. The modules are:

- `Urbano` covers `allowed_file`, `parse_coord`, `parse_coords_combined`, and the decisions `enviar_formulario` takes for one POST.
- `Decimals` covers the part of Python's `decimal` module that `parse_coord` uses: the finite numeral grammar, `quantize(Decimal('0.000001'), ROUND_HALF_UP)` under the default 28-digit context, and the six-place text a quantized value prints as.
- `Drenagem` covers `_is_git_lfs_pointer`, `_iter_coords`, `_bounds_from_geojson`, and `_filter_geojson` with its `norm` and `cond`.
- `Agro` covers the Talhão option list, the element list, the Talhão row filter, `interp_with_fallback`, and the linear → nearest fallback chain.
- `Strings` and `Seqs` hold the Python `str` and list operations these rely on. `str` operations include `strip`, `lower`, `in`, `replace`, `split`, `join` and `sorted`; list operations include filtering, `unique` and flattening. `Wrappers` holds `Option`.

Stateful steps are `method`s proved against specification functions:

- `Urbano.ParseCoordsCombined` is the separator-replacing loop of `parse_coords_combined`.
- `Urbano.EnviarFormulario` is the handler.
- `Drenagem.BoundsFromGeojson` is the nested accumulation loop.
- `Agro.InterpolateWithFallback` is the chain of reassignments.

Everything else is a function with lemmas about it.

Inputs from the outside world become parameters:

- `enviar_formulario` receives three things:
  - the form as a map;
  - the `situacao` checkbox values as a sequence;
  - the upload's file name.
- The `griddata` call that `interp_with_fallback` wraps is an oracle from method name to surface or exception message.
- The `str()` that `agro.py` applies to Talhão values is a parameter `show`.

Points where the code and its own documentation differ:

- **The combined-field docstring.** The docstring of `parse_coords_combined` lists `"-2,053655; -47,549849"` as an accepted form. The code turns every comma into a separator before splitting, so that input yields latitude -2 and longitude 53655. The model follows the code. `Urbano.CombinedDecimalComma` states this result, and `Urbano.CombinedDecimalPoint` states that the decimal-point form of the same location comes out as intended.
- **Parsed values are not range-checked.** `parse_coord`'s comment says the result fits `NUMERIC(9,6)`, but no range is checked (`Urbano.ParseCoordNoRangeCheck`).
- **The photo is saved before validation.** The upload is stored before the required fields are checked, so a refused submission can still leave a photo behind. `Urbano.EnviarFormulario` reports that.
- **A failing "nearest" runs twice.** When the user chooses "nearest" and it fails, "linear" is tried and then "nearest" again (`Agro.NearestRetried`).

Coordinates are kept as integer millionths: a returned `int` q stands for the decimal q / 1000000.

## Model

| member | source | states |
|---|---|---|
| Urbano.AllowedFile | urbano_mdr.py:47-52 | an accepted name contains a dot, and the lower-cased text after its last dot is one of png, jpg, jpeg, gif, webp |
| Urbano.AllowedFileLastDot | urbano_mdr.py:51-52 | for the position k of the last dot, the verdict is exactly whether the lower-cased text after k is an allowed extension |
| Urbano.AllowedFileNeedsDot | urbano_mdr.py:52 | a name without a dot is refused |
| Urbano.AllowedFileUpperCase | urbano_mdr.py:52 | the extension is compared case-insensitively ("foto.JPG" is accepted) |
| Urbano.AllowedFileOnlyLastDotCounts | urbano_mdr.py:52 | only the text after the last dot counts ("foto.png.exe" is refused) |
| Urbano.SubstitutePointwise | urbano_mdr.py:64 | the substitution keeps the length and maps each character alone: a comma becomes a point, U+2212 becomes a hyphen-minus, everything else is kept |
| Urbano.ParseCoord | urbano_mdr.py:57-70 | a missing, empty or all-whitespace value gives None; a returned value comes from a stripped, substituted text that is a finite decimal numeral |
| Urbano.ParseCoordRounds | urbano_mdr.py:65-68 | a returned value is the numeral rounded half-up (ties away from zero) to millionths, has the numeral's sign, and fits the 28-digit context |
| Urbano.ParseCoordInvalid | urbano_mdr.py:65-70 | a text that is not a numeral after stripping and substitution gives None (InvalidOperation) |
| Urbano.ParseCoordValid | urbano_mdr.py:57-68 | a value that is not blank, whose stripped and substituted text is a numeral of the grammar whose rounding fits the 28-digit context, gives that numeral rounded half-up to millionths with its sign |
| Urbano.ParseCoordSound | urbano_mdr.py:57-70 | a value gives a coordinate only when its stripped and substituted text is a numeral of the grammar, and the coordinate is that numeral's rounding |
| Urbano.ParseCoordCanonical | urbano_mdr.py:60-64 | two inputs that agree character by character up to comma/point and U+2212/hyphen spelling parse to the same result |
| Urbano.ParseCoordSpellings | urbano_mdr.py:63-64 | "-2,053655", "−2.053655" and "-2.053655" all parse to -2.053655 |
| Urbano.ParseCoordFormat6 | urbano_mdr.py:66-68 | a value printed with six decimal places parses back to itself, so parsing a stored coordinate again changes nothing |
| Urbano.ParseCoordNoRangeCheck | urbano_mdr.py:66-68 | no range is enforced: "12345" parses to 12345.000000, beyond NUMERIC(9,6) |
| Urbano.ParseCoordRoundsHalfUp | urbano_mdr.py:68 | halves round away from zero: ±0.0000005 becomes ±0.000001 |
| Urbano.ParseCoordsCombined | urbano_mdr.py:72-96 | the loop over the separators, the space compaction and the split give exactly CombinedCoords: the first two separator-delimited tokens parsed, or (None, None) when there are fewer than two |
| Urbano.NormalisedTokens | urbano_mdr.py:85-90 | after the replacements and `' '.join(s.split())` no separator is left, and splitting on a single space gives exactly the non-empty tokens |
| Urbano.SeparatorsToWords | urbano_mdr.py:86-88 | replacing comma, semicolon, vertical bar, tab and double space by a space and splitting on whitespace gives the maximal runs of non-separator characters |
| Urbano.CombinedDecimalPoint | urbano_mdr.py:75 | "-2.053655, -47.549849" gives (-2.053655, -47.549849) |
| Urbano.CombinedDecimalComma | urbano_mdr.py:76 | "-2,053655; -47,549849" gives (-2, 53655): the comma is consumed as a separator |
| Urbano.CombinedBlank | urbano_mdr.py:79-83 | an all-whitespace value gives (None, None) |
| Urbano.CombinedFirstTwo | urbano_mdr.py:90-96 | only the first two tokens matter: values whose first two tokens agree give the same pair |
| Urbano.Field | urbano_mdr.py:145-147 | a missing field reads as "" and a present one as its stripped value |
| Urbano.Situacoes | urbano_mdr.py:156-157 | the checkbox values are stored as NULL exactly when none is ticked |
| Urbano.SituacoesRoundTrip | urbano_mdr.py:156-157 | when no value contains a comma, splitting the stored text on commas gives the ticked values back |
| Urbano.SeparateFieldsIgnored | urbano_mdr.py:149-154 | when the combined field gives at least one value, changing the separate latitude and longitude fields changes nothing |
| Urbano.SeparateFieldsFallback | urbano_mdr.py:151-154 | when the combined field gives neither value, both come from the separate fields |
| Urbano.EnviarFormulario | urbano_mdr.py:145-183 | the submission is refused exactly when street, number or neighbourhood is blank; a refused one still stores an allowed photo; an accepted one records the stripped fields, the chosen coordinates, whether the photo was stored and the joined checkbox values |
| Decimals.ParseFiniteSound | urbano_mdr.py:66 | a text parses only when it is an optional '+' or '-', integer digits and optionally a point with fraction digits, with at least one digit; the result is the positional value of those digits |
| Decimals.ParseFiniteComplete | urbano_mdr.py:66 | every such numeral parses, including "+1" and ".5", to its positional value |
| Decimals.ParseParts | urbano_mdr.py:66 | the digits around the point denote a value exactly when both parts are digits and not both empty; that value is the integer part times ten to the length of the fraction plus the fraction, with the exponent minus that length |
| Decimals.RoundedMillionths | urbano_mdr.py:55-68 | the result is the half-up rounding of the numeral to millionths |
| Decimals.RoundsHalfUpUnique | urbano_mdr.py:68 | the half-up rounding of a numeral is unique |
| Decimals.Quantize6 | urbano_mdr.py:55-68 | a quantized value is the half-up rounding, keeps the sign and has at most 28 digits; a failed quantize means every rounding exceeds the context precision |
| Decimals.RoundingTooWide | urbano_mdr.py:68 | once one rounding exceeds the precision, every rounding does |
| Decimals.QuantizeSixPlaces | urbano_mdr.py:68 | quantizing a value that already has six places returns it unchanged |
| Decimals.ParseFormat6 | urbano_mdr.py:66-68 | the six-place text of a value parses to that value with exponent -6 |
| Drenagem.IsGitLfsPointer | ac_drenagem8.py:25-26 | true exactly when "git-lfs.github.com/spec" occurs somewhere in the text |
| Drenagem.GitLfsPointerInfix | ac_drenagem8.py:25-26 | any text that has the marker inside is a pointer |
| Drenagem.GitLfsPointerShort | ac_drenagem8.py:25-26 | text shorter than the marker is not a pointer |
| Drenagem.GitLfsPointerExample | ac_drenagem8.py:25-26 | the first line of an LFS pointer file is recognised |
| Drenagem.IterCoords | ac_drenagem8.py:29-51 | a missing geometry yields nothing |
| Drenagem.Coords | ac_drenagem8.py:33-51 | the positions yielded are exactly as many as the geometry holds, counted shape by shape, unknown types yielding none |
| Drenagem.MultiPolygonPositions | ac_drenagem8.py:44-48 | a MultiPolygon yields exactly the positions of its rings |
| Drenagem.AllCoords | ac_drenagem8.py:57-58 | a position is visited exactly when it belongs to the geometry of some feature |
| Drenagem.BoundsFromGeojson | ac_drenagem8.py:54-63 | the loop's result is BoxOf of all visited positions: None when there are none, the min/max box otherwise, the unpacking error when a position does not have two numbers |
| Drenagem.BoxOfEmpty | ac_drenagem8.py:61-62 | the result is None exactly when no position is visited |
| Drenagem.BoxOfEncloses | ac_drenagem8.py:63 | the box holds every position and each of its four sides is reached by one |
| Drenagem.BoxOfAltitude | ac_drenagem8.py:58 | one position with an altitude makes the computation fail |
| Drenagem.UnpackFails | ac_drenagem8.py:58 | a malformed position in any feature makes the computation fail |
| Drenagem.Norm | ac_drenagem8.py:68-73 | a missing value, null, or text that strips to "", "nan" or "None" reads as "Não informado"; every other value is kept unchanged |
| Drenagem.NormIdempotent | ac_drenagem8.py:68-73 | normalising twice is normalising once |
| Drenagem.FilterGeojson | ac_drenagem8.py:66-85 | the filter fails exactly when some feature has null properties; otherwise it keeps features in order, every copy of a feature that satisfies cond and none of one that does not |
| Drenagem.FilterKeptMatch | ac_drenagem8.py:75-82 | a kept feature's normalised area equals the chosen area unless "Todas" is chosen, and its normalised neighbourhood is among the selected ones when any is selected |
| Drenagem.FilterKeepsAll | ac_drenagem8.py:78-84 | "Todas" with no neighbourhood selected keeps every feature |
| Drenagem.FilterIdempotentGeojson | ac_drenagem8.py:84 | filtering the filtered collection again with the same choices changes nothing |
| Drenagem.FilterMissingArea | ac_drenagem8.py:67-82 | when "Não informado" is chosen, a feature whose area is missing, null or blank text is kept exactly when no neighbourhood is selected or its normalised neighbourhood is among the selected ones |
| Agro.NonNull | agro.py:47 | `dropna` keeps exactly the present values |
| Agro.TalhaoOptions | agro.py:47 | the list starts with "Todos", and the rest is the shown forms of the distinct present Talhão values, sorted, each as often as it is shown: two values that print alike give two equal options |
| Agro.TalhaoOptionsDistinct | agro.py:47 | when `str` tells values apart, no option after "Todos" is repeated |
| Agro.ElementList | agro.py:55-60 | the dashboard stops exactly when none of N, Mg, Ca_Mg, P, pH, CTC is a column; otherwise the list keeps the fixed order and holds exactly the elements present |
| Agro.ElementListComplete | agro.py:55-57 | with every element present the full list is offered |
| Agro.ElementListOnlyFixed | agro.py:55-57 | other columns never add an option |
| Agro.FilterTalhaoCells | agro.py:87-95 | over rows whose Talhão cell may be missing, "Todos" keeps every row; a specific choice keeps every copy of each row whose `astype(str)` text contains it, ignoring case, and no other row; the dashboard stops exactly when no row is left |
| Agro.MissingTalhao | agro.py:91 | a row without a Talhão reads "nan", so a specific choice keeps it exactly when the choice occurs in "nan" ignoring case |
| Agro.ChoosingAKeepsMissing | agro.py:91 | choosing a Talhão named "A" keeps every row that has no Talhão |
| Agro.FilterTalhao | agro.py:87-95 | "Todos" keeps every row; any other choice keeps, in order, every copy of each row whose Talhão text contains the choice case-insensitively, and no other row; the dashboard stops exactly when no row is left |
| Agro.FilterTalhaoKeepsOwnRows | agro.py:89-91 | a row whose Talhão equals the choice, ignoring case, is kept |
| Agro.FilterTalhaoLenient | agro.py:90-91 | the lenient match keeps "10" and "T1" when "1" is chosen, and drops "2" |
| Agro.InterpWithFallback | agro.py:158-169 | an attempt echoes the method, and holds either the surface or the exception message, never both |
| Agro.Candidates | agro.py:171-179 | the methods considered are the chosen one, then "linear" unless it was the chosen one, then "nearest": two methods when "linear" is chosen, three otherwise |
| Agro.TriedUntilSuccess | agro.py:172-179 | the attempts made are a prefix of the candidates: every attempt but the last failed, and the run stops early only on a success |
| Agro.InterpolateWithFallback | agro.py:171-184 | the chain of reassignments performs exactly the attempts of Tried and ends with the last attempt's surface, method and error |
| Agro.ChosenSucceeds | agro.py:172-173 | when the chosen method works, it is the only attempt and its surface is used |
| Agro.LinearTriedSecond | agro.py:174-176 | "linear" is the second attempt exactly when the chosen method failed and was not "linear" |
| Agro.NearestTriedLast | agro.py:177-179 | "nearest" ends a run of more than one attempt exactly when every earlier candidate failed |
| Agro.NearestRetried | agro.py:175-179 | a failing "nearest" choice is attempted twice, with "linear" in between |
| Agro.UsedMethod | agro.py:172-179 | a surface that is returned comes from the chosen method, "linear" or "nearest", and from a method that worked |
| Agro.StopsIffAllFail | agro.py:181-184 | the dashboard stops exactly when every candidate failed, reporting the last error |

## Left out

- The Flask, Streamlit, Plotly and SQLAlchemy layers are not modelled. That covers rendering, flashing, redirects, the database session with its commit and rollback, `load_data`, the DataFrame checks before filtering, the metrics, the grouping and the grid bounds. None of them decides anything the modelled logic depends on.
- The photo is not written to disk. `secure_filename`, the timestamp suffix and the saved path are left out because they depend on the clock and the file system; the model records only whether a photo is stored.
- `Decimals.ParseFinite`: the accepted grammar is an optional sign, ASCII digits and at most one point (`Decimals.Spells`). Python's `Decimal` also accepts exponents, `Infinity`, `NaN`, underscores and non-ASCII digits; the model refuses those where Python may return a value or a special value.
- `Decimals.Quantize6`: a result that Python prints as negative zero (for example "-0.0000001") is the integer 0 in the model, because millionths are kept as an `int`.
- `Strings.Lower`: lower-casing covers ASCII and Latin-1 letters only. For the verdicts of `allowed_file` this is exact, but Talhão matching on other scripts is not modelled.
- `Agro.FilterTalhao`: `str.contains` is modelled as a plain substring test, but pandas reads the choice as a regular expression. A Talhão name holding `.`, `(`, `)`, `[`, `+`, `*`, `?` or another metacharacter matches differently in the dashboard ("T.1" also matches "TX1", "T(1)" does not match its own text) or raises an error (an unbalanced "[" or "("). `Agro.FilterTalhaoKeepsOwnRows`, `Agro.FilterTalhaoLenient`, `Agro.FilterTalhaoCells`, `Agro.MissingTalhao` and `Agro.ChoosingAKeepsMissing` describe the dashboard only for choices without metacharacters.
- `Agro.FilterTalhaoCells`: a missing cell is a NaN, which `astype(str)` prints as "nan". A Python `None` stored in an object column would print as "None" instead; that case is not modelled.
- `Agro.TalhaoOptions`: `str()` of non-string Talhão values is the parameter `show`. Floating-point printing is not modelled, and neither is sorting by anything other than character codes. A Talhão literally named "Todos" would appear twice, as the code allows.
- `Drenagem.BoundsFromGeojson`: coordinates are integers; floating-point comparison, NaN and non-numeric coordinates are not modelled.
- `Drenagem.FilterGeojson`: a property value is null, a boolean, an integer or a string. JSON arrays, objects and floats as property values are not modelled, and a missing `properties` member reads as an empty map, as `f.get("properties", {})` does.
- Malformed geometries are not modelled. `_iter_coords` on a geometry whose `coordinates` have the wrong nesting, or a `geometries` member that is not a list, raises in Python. Geometries here are well-formed by construction.
- The numerics of `scipy.interpolate.griddata` are an oracle; only its success or exception per method is modelled.
- agro3.py, ac_agua7.py and locais_postes.py are not part of this model.
