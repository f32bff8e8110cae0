# Geoprocessing scripts: a Dafny model

This project models the pure rules inside five geoprocessing scripts and proves
properties about them:

- **`convert_dms_to_utm.py`** turns degree–minute–second (DMS) coordinate text
  into decimal degrees and picks a UTM zone and hemisphere for each point.
  The model covers:
  - `normalizar_dms`: the `º`→`°` swap, `''`→`"`, whitespace stripping, and the
    trailing `'`→`"` fix-up;
  - `dms_string_to_decimal`: the prefix pattern `(-?\d+)°(\d+)'([\d\.]+)"`,
    `float()` of the three groups, and the sign rule;
  - the zone formula `int((lon + 180) / 6) + 1` and the `lat >= 0` hemisphere
    rule, and the projection's refusal of a zone outside 1..60;
  - the first-line separator sniffing;
  - the whole table pass, including which error stops it and the failure of
    the final column assignment on a table without rows.
- **`generate_kml_points.py`** writes one KML point per CSV row. The model
  covers:
  - the required-column check;
  - the derivation of the point name, description and file path;
  - the `(lon, lat)` coordinate order;
  - the per-row try/except loop with its `sucesso`/`falhas` counters.
- **`filter_and_export_features.py`** covers:
  - the field-existence check;
  - the `isin` filter and the empty-result error;
  - the combined output file;
  - the per-value export loop, which skips values that match nothing.
- **`merge_shapefiles.py`** covers:
  - the `*.shp` listing and the empty-folder error;
  - `source_file` tagging with the file's basename;
  - the CRS unification loop against the first layer's CRS;
  - the final concatenation.
- **`generate_composite_samples.py`** covers:
  - column-name stripping;
  - the `(classe, i+1)`-keyed record assembly over the unique classes and
    predictors;
  - the 15 blocks per pair;
  - the output column order: `amostra_id`, `classe`, then the rest sorted.

Files, libraries and numerics become parameters. Examples are the Python
`float()`/`str()` conversions of a cell, the KML `save`, geopandas `read_file`
and the CRS transform, and the per-block means. Cells of a pandas frame are
`Cells.Cell` (`Missing`, `Num`, `Text`). Rows are maps from column name to
cell. Geometries and CRS values are type parameters.

Modules:

| module | contents |
|---|---|
| `Results` | `Option` and `Result` |
| `Text` | Python `str.isspace`/`strip`/`count`, ASCII decimal digits and their values |
| `Cells`, `Layers`, `Collections`, `Paths`, `StringOrder` | pandas cells, feature layers, order-preserving `unique()`, POSIX `os.path.join`/`basename`, Python string ordering and `sorted()` |
| `Csv` | separator sniffing |
| `Dms`, `Utm`, `DmsToUtm` | the DMS-to-UTM conversion |
| `KmlPoints` | KML point generation |
| `FeatureFilter` | filtering and export |
| `MergeLayers` | shapefile merging |
| `CompositeSamples`, `CompositeTable` | composite samples |

In the code, a trailing `'` is only replaced by `"`. A minutes-only value
such as `12°30'` therefore becomes `12°30"`, the pattern does not match it, and
the conversion raises `ValueError` (`Dms.MinutesOnlyRejected`).

## Model

| member | source | states |
|---|---|---|
| Text.Strip | convert_dms_to_utm.py:49 | the stripped text is a contiguous slice of the input with no whitespace at either end, per Python's `str.isspace` |
| Text.StripDropsOnlySpace | convert_dms_to_utm.py:49 | everything stripping removes, before and after the kept slice, is whitespace |
| Text.StripIdempotent | convert_dms_to_utm.py:49 | stripping twice gives the same text as stripping once |
| Text.Count | convert_dms_to_utm.py:35 | the count of a character never exceeds the length and is zero exactly when the character does not occur |
| Text.DecimalValueAppend | convert_dms_to_utm.py:65 | the value of a digit string is positional: value(a+b) = value(a)·10^len(b) + value(b) |
| Csv.FirstLine | generate_kml_points.py:51-52 | the first line is a prefix of the file with no line break in it, and is followed by a line break whenever it is shorter than the file |
| Csv.DetectSeparator | generate_kml_points.py:51-53 | the separator of a file is `;` exactly when its first line has strictly more `;` than `,`, and `,` otherwise |
| Csv.SeparatorOf | generate_kml_points.py:53 | the separator is `;` exactly when the line has strictly more `;` than `,`, and `,` otherwise |
| Csv.SeparatorIgnoresLaterLines | generate_kml_points.py:51-53 | the separator depends only on the first line: later lines never change it |
| Csv.SeparatorTieIsComma | convert_dms_to_utm.py:35 | a tie between `;` and `,` gives `,`, and one extra `;` turns it into `;` |
| Dms.FixDegreeGlyph | convert_dms_to_utm.py:49 | replacing `º` keeps the length and leaves no `º` in the text |
| Dms.CollapseQuotes | convert_dms_to_utm.py:49 | after replacing `''` left to right, no two apostrophes are adjacent, and nothing but `"` is introduced |
| Dms.CollapseQuotesIdentity | convert_dms_to_utm.py:49 | text with no doubled apostrophe is left unchanged |
| Dms.CloseTrailingApostrophe | convert_dms_to_utm.py:50-51 | the fix-up keeps the length and changes at most the last character |
| Dms.Normalize | convert_dms_to_utm.py:47-52 | the result has no `º`, no doubled apostrophe, no surrounding whitespace and never ends in `'` |
| Dms.NormalizeOfNormalForm | convert_dms_to_utm.py:47-52 | text already in that form is left unchanged by normalisation |
| Dms.NormalizeIdempotent | convert_dms_to_utm.py:47-52 | normalising twice gives the same text as normalising once |
| Dms.TrailingApostropheForms | convert_dms_to_utm.py:49-51 | `p'` and `p''` normalise to the same text whenever `p` does not itself end in `'` |
| Dms.Run | convert_dms_to_utm.py:62 | a greedy run is the longest prefix of the character class: it is all in the class and is followed by end of text or a character outside it |
| Dms.Group | convert_dms_to_utm.py:62 | a matched group is a non-empty run of its class, immediately followed by its closing character, and the text is split exactly there |
| Dms.MatchDms | convert_dms_to_utm.py:62 | a successful match yields well-formed tokens that, with the unmatched remainder, rebuild the input exactly |
| Dms.MatchRendered | convert_dms_to_utm.py:62 | every well-formed token sequence is matched back from its rendering, whatever follows the closing `"` |
| Dms.ParseSeconds | convert_dms_to_utm.py:65 | the seconds text `[\d.]+` converts exactly when it has at most one point and at least one digit, and its value is never negative |
| Dms.ParseSecondsInteger | convert_dms_to_utm.py:65 | a digit string converts to its decimal value |
| Dms.ParseSecondsDecimal | convert_dms_to_utm.py:65 | `w.f` converts to w plus f over 10 to the power len(f), including the forms `w.` and `.f` |
| Dms.ParseSecondsTrailingZero | convert_dms_to_utm.py:65 | appending a zero after the point does not change the converted value |
| Dms.ToDecimal | convert_dms_to_utm.py:60-67 | conversion fails exactly when the pattern does not match or the seconds do not convert, and an unmatched text is reported as an invalid format |
| Dms.DecodeRendered | convert_dms_to_utm.py:60-67 | a matching text converts to ±(d + m/60 + s/3600), whatever follows the closing `"` |
| Dms.SignedValue | convert_dms_to_utm.py:66-67 | the `-1 if d < 0` sign rule applied to d + m/60 + s/3600 gives the negated magnitude exactly when the degree token has a minus and is non-zero |
| Dms.DecodeSign | convert_dms_to_utm.py:66 | a converted value is negative exactly when the degree token has a minus and a non-zero value |
| Dms.NegativeZeroLosesSign | convert_dms_to_utm.py:66 | `-0°m's"` converts to the same non-negative value as `0°m's"` |
| Dms.DecodeWithinDegree | convert_dms_to_utm.py:67 | with minutes and seconds below 60, the absolute value lies in [d, d+1) |
| Dms.RejectUnmatched | convert_dms_to_utm.py:62-64 | a text the pattern does not match is rejected as an invalid format |
| Dms.NormalizeMinutesOnly | convert_dms_to_utm.py:47-52 | a minutes-only `D°M'` (or `DºM'`) normalises to `D°M"` |
| Dms.MatchMinutesOnly | convert_dms_to_utm.py:62 | `D°M"` has no seconds group, so the pattern does not match it |
| Dms.MinutesOnlyRejected | convert_dms_to_utm.py:47-64 | a minutes-only coordinate is normalised to `D°M"` and then rejected as an invalid format |
| Utm.Trunc | convert_dms_to_utm.py:77 | `int()` truncates toward zero: the result is the integer between zero and x that lies within 1 of x |
| Utm.TruncMonotone | convert_dms_to_utm.py:77 | truncation never decreases as its argument grows |
| Utm.Zone | convert_dms_to_utm.py:77 | from -180 eastward the zone is the six-degree band holding the longitude, counted from 1, so on [-180, 180) it lies in 1..60 |
| Utm.ValidZoneRange | convert_dms_to_utm.py:77-79 | the projection accepts the computed zone (1..60) exactly for longitudes strictly between -186 and 180 |
| Utm.ZoneBand | convert_dms_to_utm.py:77 | for longitudes from -180 on, zone z holds exactly the longitudes in [-180+6(z-1), -180+6z) |
| Utm.ZoneRange | convert_dms_to_utm.py:77 | on [-180, 180) the zone lies in 1..60 |
| Utm.ZoneMonotone | convert_dms_to_utm.py:77 | the zone never decreases as the longitude grows |
| Utm.ZoneLandmarks | convert_dms_to_utm.py:77 | -180 gives zone 1, 0 gives 31, 180 gives 61, -174 gives 2 and 179.5 gives 60 |
| Utm.ZoneWestOfRange | convert_dms_to_utm.py:77 | west of -180 the zone is at most 1, and it is 1 exactly when the longitude is above -186 |
| Utm.HemisphereOf | convert_dms_to_utm.py:78 | the hemisphere is north exactly when the latitude is at least 0 |
| Utm.HemisphereName | convert_dms_to_utm.py:78 | the label is `north` exactly for the northern hemisphere, otherwise `south` |
| DmsToUtm.NormalizeCell | convert_dms_to_utm.py:54-55 | normalisation succeeds exactly on text cells, since a missing or numeric cell has no `replace` |
| DmsToUtm.CheckZone | convert_dms_to_utm.py:77-79 | the projection is built exactly when the row's zone lies in 1..60; otherwise the refused zone is reported |
| DmsToUtm.Convert | convert_dms_to_utm.py:42-86 | a successful pass required exactly seven columns and at least one row, and yields one UTM row per input row; a wrong column count is the error reported, and a table without rows fails with `NoRows` at the final column assignment |
| DmsToUtm.ConvertIsRowwise | convert_dms_to_utm.py:42-86 | the pass succeeds exactly when there are seven columns, at least one row, and every row converts on its own (both coordinates decode and the longitude's zone lies in 1..60), and each output row is that row's own conversion |
| DmsToUtm.ConvertFirstFailure | convert_dms_to_utm.py:54-86 | a failure names the first failing row of the first failing stage: latitude normalisation, longitude normalisation, latitude parse, longitude parse, then the projection of each row's zone; only a table without rows reaches the final assignment and fails there |
| DmsToUtm.NegativeZeroIsNorth | convert_dms_to_utm.py:66-78 | a latitude written `-0°…` ends up in the northern hemisphere |
| Paths.JoinPath | generate_kml_points.py:83 | the joined path always ends with the file name |
| Paths.JoinRelative | generate_kml_points.py:83 | a relative name is placed under the directory with a single separator |
| Paths.JoinAbsolute | generate_kml_points.py:83 | an absolute name replaces the directory entirely |
| Paths.Basename | merge_shapefiles.py:39 | the base name is the slash-free suffix after the last `/` |
| Paths.BasenameOfJoin | merge_shapefiles.py:39 | the base name of a joined path is the slash-free file name that was joined |
| KmlPoints.Description | generate_kml_points.py:80 | the description is `Sem altitude informada` exactly when the altitude is missing; otherwise it is `Altitude: ` and ` m` around the altitude's text, which can be read back from it |
| KmlPoints.ProcessRowOutcome | generate_kml_points.py:73-94 | for `ProcessRow`, the body of the per-row `try`: a row yields a point exactly when latitude and longitude convert and the save succeeds; the point's coordinate is (lon, lat); a failure carries the row's `ponto` label |
| KmlPoints.PlacemarkName | generate_kml_points.py:74-83 | the point name is the stripped text of `ponto`, and the file is that name plus `.kml` in the output folder |
| KmlPoints.CountCreated | generate_kml_points.py:88 | the success count never exceeds the number of outcomes |
| KmlPoints.ProcessRowsAppend | generate_kml_points.py:72-94 | processing a batch is processing each part in turn, so a failure never stops the later rows |
| KmlPoints.ProcessRowsAt | generate_kml_points.py:72-94 | the outcome at position i is the outcome of row i alone |
| KmlPoints.Generate | generate_kml_points.py:60-94 | a missing required column is the only error and nothing is processed; otherwise each row is counted once, successes plus failures equal the row count, and successes are the rows that produced a point |
| FeatureFilter.Keep | filter_and_export_features.py:41 | the filtered features are all selected and never outnumber the input |
| FeatureFilter.KeepMember | filter_and_export_features.py:41 | a feature is kept exactly when it is in the input and its field value is one of the wanted values |
| FeatureFilter.KeepAppend | filter_and_export_features.py:41 | filtering keeps the original order: filtering a concatenation concatenates the filtered parts |
| FeatureFilter.KeepNarrows | filter_and_export_features.py:58 | the subset for one wanted value is a filter of the combined result |
| FeatureFilter.StepFor | filter_and_export_features.py:57-65 | a value is exported exactly when some feature matches it; the file is the value plus `.shp` in the output folder; otherwise it is skipped |
| FeatureFilter.Steps | filter_and_export_features.py:57-65 | the loop takes one step per wanted value, in order, and the step for a value depends on that value alone, so a skipped value never stops the loop |
| FeatureFilter.FilterAndExport | filter_and_export_features.py:37-65 | a missing field is `FieldMissing`, and with the field present an empty filter is `NoFeatures`; otherwise the combined file holds exactly the filtered features and step i is the export or skip of wanted value i |
| FeatureFilter.ExportedWithinFiltered | filter_and_export_features.py:57-62 | every feature exported for a value is also in the combined result |
| FeatureFilter.FilteredCovered | filter_and_export_features.py:41-62 | every feature of the combined result is exported under its own value |
| MergeLayers.ShapefileNamesMember | merge_shapefiles.py:30 | a name is listed exactly when it is in the folder and is a visible `.shp` file |
| MergeLayers.Tag | merge_shapefiles.py:39 | tagging keeps the CRS, the feature count and the geometries, keeps the old columns as a prefix and adds no column but `source_file`, and sets it to the given name on every feature, leaving other attributes as read |
| MergeLayers.ReadAll | merge_shapefiles.py:37-40 | layer k keeps the CRS, feature count and geometries of file k as read, has a `source_file` column, and each feature's attributes are those read with `source_file` set to file k's base name |
| MergeLayers.TagFeatures | merge_shapefiles.py:39 | tagging sets `source_file` on every feature and changes nothing else |
| MergeLayers.UnifyLayer | merge_shapefiles.py:44-46 | a layer already in the reference CRS is untouched; otherwise it is moved to the reference with its attributes intact; a missing CRS on either side is an error |
| MergeLayers.UnifyAtReference | merge_shapefiles.py:44-46 | for `Unify`, the CRS loop: after the loop every layer has the reference CRS, keeps its columns and feature count, and layers already in it are unchanged |
| MergeLayers.UnifyFailure | merge_shapefiles.py:44-46 | a failed loop stops at the first layer whose CRS, or the reference, is missing |
| MergeLayers.Merge | merge_shapefiles.py:30-32 | the merge fails with no-shapefiles exactly when the folder has no visible `.shp` name |
| MergeLayers.MergeSucceeds | merge_shapefiles.py:30-48 | a merge succeeds exactly when there is a shapefile and every file's CRS either equals the first file's or is set while the first file's is set too |
| MergeLayers.MergeFailure | merge_shapefiles.py:43-46 | a failed merge of one or more files names the first file whose CRS differs from the first file's while one of the two is unset |
| MergeLayers.FlattenMember | merge_shapefiles.py:48 | a feature is in the concatenation exactly when it is in some layer |
| MergeLayers.FlattenAt | merge_shapefiles.py:48 | for `Flatten`, the features of `pd.concat`: in the concatenation, feature j of layer k sits at the total feature count of the layers before k, plus j |
| MergeLayers.FeaturesReadStep | merge_shapefiles.py:37-48 | each further file adds exactly its own feature count to the running total |
| MergeLayers.MergeAt | merge_shapefiles.py:37-48 | for `Concat` after reading and unifying: feature j of file k sits at the offset of file k plus j in the merge, with the attributes read plus `source_file` set to its base name, and with its geometry unchanged if file k has the first file's CRS and otherwise transformed from file k's CRS to it |
| MergeLayers.MergeShape | merge_shapefiles.py:43-48 | a merge has the first file's CRS and as many features as all files together |
| MergeLayers.MergeTagged | merge_shapefiles.py:37-48 | every merged feature comes from some file with its attributes and `source_file` set to that file's base name |
| MergeLayers.ShapefileBasenames | merge_shapefiles.py:30-39 | the tag of the k-th listed file is its listed name |
| Collections.Dedup | generate_composite_samples.py:38-39 | `unique()` has no repeated value, drops no value of the input, adds none, and is never longer than the input |
| Collections.DedupFirstAppearance | generate_composite_samples.py:38-39 | `unique()` lists values in the order of their first appearance in the input |
| Collections.DedupDistinct | generate_composite_samples.py:38-39 | `unique()` of values that are already distinct changes nothing |
| Collections.ApplyAll | convert_dms_to_utm.py:54-70 | `apply` either maps every element or stops at the first element that fails |
| StringOrder.LessTransitive | generate_composite_samples.py:60 | Python's string order is transitive |
| StringOrder.LessTotal | generate_composite_samples.py:60 | Python's string order is total on different strings |
| StringOrder.Sort | generate_composite_samples.py:59-61 | `sorted()` gives an ascending permutation of its input |
| StringOrder.SortedUnique | generate_composite_samples.py:59-61 | two ascending sequences with the same elements are equal |
| StringOrder.SortPermutationInvariant | generate_composite_samples.py:59-61 | sorting depends only on the multiset of names, not their order |
| CompositeSamples.BuildEffect | generate_composite_samples.py:38-50 | for `Build`, the nested class, predictor and block loops: the assembled keys are exactly the classes × blocks 1..15, and each record has every predictor's block mean added to its base record |
| CompositeSamples.RecordContents | generate_composite_samples.py:47-50 | the record for (c, i) holds `amostra_id` i and `classe` c, unless a predictor has that name, plus each predictor's mean, and no other column |
| CompositeSamples.ClassKeys | generate_composite_samples.py:38-47 | there are 15 keys per class, and key j is class number j/15 with block j%15 + 1 |
| CompositeSamples.OrderBuild | generate_composite_samples.py:38-55 | records come out in insertion order: class by class, blocks 1..15 within a class |
| CompositeTable.StripAll | generate_composite_samples.py:24 | each new name is a slice of the old one with no whitespace at either end, and everything cut off around it is whitespace, so only leading and trailing whitespace is removed, all of it |
| CompositeTable.StripAllIdempotent | generate_composite_samples.py:24 | stripping already-stripped names changes nothing |
| CompositeTable.Others | generate_composite_samples.py:60 | the remaining columns drop every `amostra_id` and `classe` and keep every other name as often as it occurred |
| CompositeTable.Composite | generate_composite_samples.py:24-62 | missing `classe`, then no rows, then missing `preditoras`, then missing `median` are the errors, in that order; otherwise the frame is built |
| CompositeTable.OutputColumnsShape | generate_composite_samples.py:59-61 | for `OutputColumns`: the columns start with `amostra_id`, `classe`; the rest are ascending and distinct; a name appears exactly when it is fixed or a predictor |
| CompositeTable.OutputColumnsIgnorePredictorOrder | generate_composite_samples.py:59-61 | predictors with the same set of names give the same column order |
| CompositeTable.CompositeRows | generate_composite_samples.py:38-62 | a built frame has 15 rows per class, and row j is the record for class j/15, block j%15 + 1 |
| CompositeTable.CompositeColumns | generate_composite_samples.py:59-62 | a built frame's columns are the fixed pair and then the sorted predictors, each column once |

## Left out

- Easting and northing: the pyproj CRS and transform (convert_dms_to_utm.py:79-83) are library geodesy in floating point. Only the zone and hemisphere are modelled, and of the projection only its refusal of a zone outside 1..60.
- Arithmetic is over exact reals, not IEEE doubles. Rounding in `m / 60 + s / 3600`, infinities and NaN arithmetic are not modelled.
- `\d` is modelled as the ASCII digits. Python's `\d` also matches other Unicode decimal digits.
- Degree and minute tokens are read as whole numbers. This is exact for tokens up to 2^53; longer tokens are rounded by `float`, which the exact-reals item above admits.
- File I/O is left out: encoding detection, CSV reading and writing, KML saving, shapefile reading and writing, zipping, log files, prints and input prompts. Paths and folder listings are parameters.
- Reading with `sep` is not modelled: the CSV reader itself is not part of this model. The detected separator is computed but nothing consumes it.
- KmlPoints.Generate: Python's `float()` and `str()` of a cell and the save's success are parameters (`Conversions`). The exception text is reduced to a reason kind.
- KmlPoints.ProcessRowOutcome: the fallback label `sem_nome` (generate_kml_points.py:92) is never used. `ponto` is a required column, so every row has it.
- MergeLayers.Merge: its own contract states only the empty-folder error. When it succeeds is stated by MergeSucceeds, the file a failure names by MergeFailure, and the shape, tagging and position of each feature in a successful merge by MergeShape, MergeTagged and MergeAt. `Concat`'s column union is not stated.
- The listing order of `glob` is the order of the given folder listing. Hidden names are skipped, as `glob` skips them.
- Geometries are opaque, and the CRS transform is a parameter. `to_crs` from or to a missing CRS is modelled as an error.
- CompositeSamples.Build: the seeded shuffle, the `np.array_split` blocks and the `mean()` of block medians are one parameter, `Means`. It gives the value stored for a class, predictor and block number.
- `classe` and `preditoras` values are modelled as text. Numeric or missing labels are not modelled.
- Two columns that become equal after stripping are not modelled; pandas would then select both.
- FeatureFilter.Keep: its own contract gives only that kept features are selected and never outnumber the input. Membership in both directions is KeepMember, and order is KeepAppend.
- `estati_zonal.py`, `convert_kml_shp_auto.py`, `check_crs.py` and `reproject.py` are not part of this model. They only call libraries or external programs.
- Paths are POSIX paths: `/` is the only separator. Windows `ntpath` rules (backslashes, drive letters) and case-insensitive `glob` matching on Windows are not modelled.
