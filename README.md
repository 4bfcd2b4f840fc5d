# Authority brands map: a Dafny model

The repository is a map page for four home-service brands around Columbus,
Ohio, plus a script that fetches the ZIP polygons the page draws. The
work splits into two parts.

- **The boundary exporter** (`exporter/export-zcta-geojson.js`). It reads a
  ledger text. Each header line of the ledger starts with a five-digit ZIP,
  optional white space, then a colon. The exporter collects those ZIPs once
  each and sorts them. It then asks the TIGERweb ZCTA layer for their
  polygons, 25 ZIPs per query, with a `ZCTA5 IN ('…','…')` filter. A response that is not a GeoJSON
  FeatureCollection is an error. Each feature it gets back has its
  properties replaced by `{ zip }` alone. It writes one FeatureCollection of
  all the features and lists the ZIPs that got no polygon.
- **The map page** (`main.js`). Clicking a brand on the clockface toggles it
  as the active brand. The ZIP polygons are then painted by that brand's
  status in the availability table: grey outline for no status, green for
  `available`, red for any other status. The brand's PDF report lists its
  available and unavailable ZIPs in two columns, sorted by number. The PDF
  file is named after a slug of the brand name. The location search box
  reads any input starting with `columbus` as Columbus, and it suggests
  Columbus once the input starts with `col`.

The Dafny modules follow that split:

- `results.dfy` (`Results`): `Option` and `Result`.
- `js_text.dfy` (`JsText`): the JavaScript string operations the code uses:
  - `trim` with ECMA-262 white space;
  - `toLowerCase`;
  - `startsWith`;
  - decimal digit strings.
- `js_value.dfy` (`JsValue`): parsed JSON values, JavaScript truthiness,
  optional chaining and `String(v)`.
- `zip_codes.dfy` (`ZipCodes`): five-digit ZIPs, their numeric value, the
  default string order, and the sort both files use.
- `zip_ledger.dfy` (`ZipLedger`): `extractZipsFromRefinedTxt`.
- `zcta_export.dfy` (`ZctaExport`): chunking, the query,
  response checking, feature normalisation, and the chunk loop of `run`.
- `availability_view.dfy` (`AvailabilityView`): the `main.js` core.
  - The brand toggle and the painting are a class `ZipMapView`. Its fields
    are the page state: the active brand and one style per polygon.
  - The rest are functions, lemmas and the methods `CollectStatus`,
    `GetZipListsForBrand` and `PairRows`.

The web service is a parameter of the run. It maps the query sent
(`Query`, the URL parameters) to the response received (`Response`), or to
no response when the request itself fails; such a chunk fails with
`NetworkError`.
A run ends in one of three outcomes:

- `MissingInput`;
- `Failed(error)`, when the first rejected chunk, or the first request that
  gets no response, stops the run and nothing is written;
- `Written(output, missing)`, with the FeatureCollection the script saves
  and the ZIPs it reports as missing.

## Model

| member | source | states |
|---|---|---|
| JsText.TrimStart | exporter/export-zcta-geojson.js:31 | the result is a suffix of the input, everything dropped is white space, and it does not start with white space |
| JsText.TrimEnd | exporter/export-zcta-geojson.js:31 | the result is a prefix of the input, everything dropped is white space, and it does not end with white space |
| JsText.Trim | main.js:160 | `s.trim()`: leading, then trailing white space removed; its properties are those of `TrimStart`, `TrimEnd` and `TrimSpec` |
| JsText.TrimSpec | main.js:160 | `trim` leaves a contiguous slice of the input with only white space around it, neither starting nor ending with white space |
| JsText.TrimEmpty | main.js:160-161 | a trimmed string is empty exactly when every character of the input is white space |
| JsText.TrimIdempotent | main.js:160 | trimming twice is trimming once |
| JsText.Lower | main.js:160 | lower-casing keeps the length |
| JsText.LowerIdempotent | main.js:160 | lower-casing twice is lower-casing once |
| JsText.LowerTrim | main.js:160 | trimming and lower-casing commute |
| JsText.StartsWith | main.js:164 | `s.startsWith(p)` holds exactly when `s` is `p` followed by the rest of `s` |
| JsText.NatToDecimal | exporter/export-zcta-geojson.js:67 | `String(n)` of a natural number is a non-empty digit string |
| JsText.DecimalRoundTrip | exporter/export-zcta-geojson.js:67 | reading back the decimal string of `n` gives `n` |
| ZipCodes.ZipValue | main.js:471 | `Number(z)` of a ZIP, its decimal value; `ZipOrderAgrees` relates its order to the string order |
| ZipCodes.LexLess | exporter/export-zcta-geojson.js:35 | the default comparison of `sort()`, character by character; `ZipOrderAgrees` and `IncreasingIsLexSorted` tie it to the numeric order on ZIPs |
| ZipCodes.DigitsOrderAgrees | main.js:471 | on digit strings of one length, value order is character order and equal values mean equal strings |
| ZipCodes.ZipOrderAgrees | exporter/export-zcta-geojson.js:35 | on ZIPs, the default string sort order and `Number(a) - Number(b)` order agree, both ways |
| ZipCodes.IncreasingIsLexSorted | exporter/export-zcta-geojson.js:35 | a list increasing by value is also sorted by the default string order |
| ZipCodes.InsertPermutes | main.js:471-473 | inserting adds exactly one element |
| ZipCodes.InsertIncreasing | main.js:471-473 | inserting a new ZIP into an increasing list keeps it increasing |
| ZipCodes.SortZips | main.js:471-473 | the default `sort()` of a ZIP list; it is a permutation (`SortZipsPermutes`), increasing (`SortZipsIncreasing`) and determined by its members (`IncreasingUnique`) |
| ZipCodes.SortZipsPermutes | main.js:471-473 | the sort result is a permutation of the input |
| ZipCodes.SortZipsIncreasing | main.js:471-473 | sorting a repeat-free list gives a strictly increasing list |
| ZipCodes.SortedDistinct | main.js:471-473 | the sort of a repeat-free list is increasing and has exactly the input's members |
| ZipCodes.IncreasingUnique | main.js:471-473 | two increasing lists with the same members are equal, so the sorted list is determined by its members |
| JsValue.Truthy | exporter/export-zcta-geojson.js:61 | JavaScript truthiness (`undefined`, `null`, `false`, `0` and `""` are falsy), as tested at lines 61, 66, 67 and 102; `StringOrEmpty`, `FetchChunkAccepts` and `ReturnedZipsMembers` state what each test decides |
| JsValue.JoinComma | exporter/export-zcta-geojson.js:39 | `.join(",")`; `QuotedZipsRoundTrip` states that the joined quoted ZIPs parse back to the list |
| JsValue.ToJsString | exporter/export-zcta-geojson.js:67 | `String(v)`; `StringOrEmpty` states its value on falsy values and strings; a number gives its decimal string, which `DecimalRoundTrip` reads back |
| JsValue.Get | exporter/export-zcta-geojson.js:67 | `v?.key` is defined exactly when `v` is an object with that key, and is then that field |
| JsValue.StringOrEmpty | exporter/export-zcta-geojson.js:67 | `String(v \|\| "")` is empty for falsy values and is the string itself for a string |
| ZipLedger.NormalizeCrlf | exporter/export-zcta-geojson.js:27 | `replace(/\r\n/g, "\n")`: every CR LF pair becomes LF, scanning left to right; it undoes `ToCrlf` (`CrlfRoundTrip`) and leaves CR-LF-free text alone (`NormalizeNoCrlf`) |
| ZipLedger.CrlfRoundTrip | exporter/export-zcta-geojson.js:27 | replacing CR LF by LF undoes writing every LF as CR LF |
| ZipLedger.SplitLines | exporter/export-zcta-geojson.js:27 | `split("\n")` always yields at least one line |
| ZipLedger.SplitJoin | exporter/export-zcta-geojson.js:27 | joining the split lines with LF gives back the text |
| ZipLedger.Lines | exporter/export-zcta-geojson.js:27 | the lines of the normalised text, split at LF; `SplitJoin` and `SplitLines` state their properties |
| ZipLedger.HeaderZip | exporter/export-zcta-geojson.js:31 | the match of `/^(\d{5})\s*:/` on the trimmed line, as the captured ZIP; `HeaderZipMatches` states exactly when it captures |
| ZipLedger.HeaderZipMatches | exporter/export-zcta-geojson.js:31 | the header parser captures `z` exactly when the trimmed line is `z`, optional white space, then `:` |
| ZipLedger.CapturedMembers | exporter/export-zcta-geojson.js:28-33 | a value is in the collected set exactly when some element yields it |
| ZipLedger.HeaderZipsMembers | exporter/export-zcta-geojson.js:30-33 | a ZIP is collected exactly when some line is a header for it; no other line contributes |
| ZipLedger.HeaderZips | exporter/export-zcta-geojson.js:28-33 | the `zips` set the line loop builds; `HeaderZipsMembers` states its members both ways |
| ZipLedger.LedgerZips | exporter/export-zcta-geojson.js:27-33 | the `zips` set of a whole ledger text; `LedgerZipsMembers` states its members both ways |
| ZipLedger.LedgerZipsMembers | exporter/export-zcta-geojson.js:27-33 | a ZIP is in the ledger exactly when some line of the normalised text is a header for it |
| ZipLedger.NormalizeNoCrlf | exporter/export-zcta-geojson.js:27 | a text without CR LF is left unchanged by the normalisation |
| ZipLedger.CrlfSameZips | exporter/export-zcta-geojson.js:27 | the CR LF copy of an LF ledger has the same ZIP set |
| ZipLedger.CrlfSameZipList | exporter/export-zcta-geojson.js:26-36 | the CR LF copy of an LF ledger gives the same sorted ZIP list |
| ZipLedger.SortedLedgerZips | exporter/export-zcta-geojson.js:35 | the sorted ZIPs increase by value, are sorted by string order, and are exactly the header ZIPs |
| ZipLedger.ScanHeaders | exporter/export-zcta-geojson.js:28-33 | the loop's set is exactly the header ZIPs of all lines |
| ZipLedger.FromSet | exporter/export-zcta-geojson.js:35 | `Array.from` of the set lists each member once and nothing else |
| ZipLedger.ExtractZips | exporter/export-zcta-geojson.js:26-36 | the result is strictly increasing, sorted by string order, and holds exactly the ZIPs some line is a header for |
| ZctaExport.Chunks | exporter/export-zcta-geojson.js:92-93 | every chunk holds between 1 and `size` elements |
| ZctaExport.ChunksFlatten | exporter/export-zcta-geojson.js:92-93 | the chunks, concatenated in order, are the ZIP list |
| ZctaExport.ChunkAt | exporter/export-zcta-geojson.js:92-93 | chunk `k` is the slice from `25k` to `min(25k + 25, n)`; it is non-empty and has 25 ZIPs unless it is the last |
| ZctaExport.ChunksCount | exporter/export-zcta-geojson.js:92-93 | there are `ceil(n / 25)` chunks |
| ZctaExport.QuotedZips | exporter/export-zcta-geojson.js:39 | each ZIP of the chunk wrapped in single quotes, one per ZIP; `QuotedZipsRoundTrip` states that they parse back in order |
| ZctaExport.WhereClause | exporter/export-zcta-geojson.js:39 | the `ZCTA5 IN (...)` filter; it parses back to its chunk (`WhereClauseRoundTrip`) and is injective (`WhereClauseInjective`) |
| ZctaExport.QueryFor | exporter/export-zcta-geojson.js:39-47 | a query carries the chunk's where clause, `outFields=ZCTA5`, `returnGeometry=true`, `outSR=4326` and `f=geojson` |
| ZctaExport.QuotedZipsRoundTrip | exporter/export-zcta-geojson.js:39 | the quoted, comma-joined ZIP list has length `8n - 1` and parses back to the ZIPs in order |
| ZctaExport.WhereClauseRoundTrip | exporter/export-zcta-geojson.js:39 | the where clause parses back to exactly the chunk, and its length is determined by the chunk size |
| ZctaExport.WhereClauseInjective | exporter/export-zcta-geojson.js:39 | different chunks give different where clauses |
| ZctaExport.Prefix | exporter/export-zcta-geojson.js:55 | `slice(0, 200)` is the first `min(200, n)` characters |
| ZctaExport.FeatureZip | exporter/export-zcta-geojson.js:67 | `String(f?.properties?.ZCTA5 \|\| "").trim()`; `FeatureZipOfZip` states that a ZIP-valued ZCTA5 is kept as is |
| ZctaExport.SpreadFields | exporter/export-zcta-geojson.js:69 | `...f`: the own fields of an object feature; `NormalizeFeature` states that all of them but `properties` are kept |
| ZctaExport.WithProperties | exporter/export-zcta-geojson.js:68-71 | spreading then setting `properties` keeps every other field and adds or replaces `properties` |
| ZctaExport.NormalizeFeature | exporter/export-zcta-geojson.js:66-72 | a normalised feature keeps every field of the original except `properties`, which becomes exactly `{ zip }` with the trimmed ZCTA5 |
| ZctaExport.NormalizeFeatures | exporter/export-zcta-geojson.js:66 | normalisation keeps the feature count |
| ZctaExport.FetchChunk | exporter/export-zcta-geojson.js:52-72 | the checks applied to a response that arrived; `FetchChunkAccepts` and `FetchChunkErrors` state when it accepts and each way it rejects |
| ZctaExport.FetchChunkAccepts | exporter/export-zcta-geojson.js:52-72 | a response is accepted exactly when it is ok, parsed, an object of type FeatureCollection, and its features are falsy or an array; then there is one feature per feature sent, each with properties exactly `{ zip }` |
| ZctaExport.FetchChunkErrors | exporter/export-zcta-geojson.js:52-63 | a non-ok response fails with its status, status text and the first 200 characters of its body (empty when the body cannot be read); an unparsable body fails; a body that is not a FeatureCollection fails; a response that arrived is never a network failure |
| ZctaExport.FeatureZipOfZip | exporter/export-zcta-geojson.js:67 | a feature whose ZCTA5 is a ZIP string is normalised to that ZIP |
| ZctaExport.Attempt | exporter/export-zcta-geojson.js:38-75 | one chunk against the service: its query is sent, no response is `NetworkError`, a response is judged by `FetchChunk` |
| ZctaExport.AttemptCases | exporter/export-zcta-geojson.js:51-52 | a chunk fails with `NetworkError` exactly when its request gets no response; otherwise the response alone decides the chunk |
| ZctaExport.FetchAll | exporter/export-zcta-geojson.js:92-104 | the chunks fetched in order; the first rejected chunk decides the error, as `FetchAllSucceeds`, `FailurePersists` and `FirstErrorWins` state |
| ZctaExport.FetchAllSucceeds | exporter/export-zcta-geojson.js:92-104 | fetching all chunks succeeds exactly when every chunk is accepted, and then yields their features concatenated in chunk order |
| ZctaExport.FailurePersists | exporter/export-zcta-geojson.js:92-98 | once a prefix of the chunks fails, the whole run fails with the same error |
| ZctaExport.FirstErrorWins | exporter/export-zcta-geojson.js:92-98 | when every chunk before `k` is accepted and chunk `k` is rejected, the run fails with chunk `k`'s error |
| ZctaExport.ReturnedZip | exporter/export-zcta-geojson.js:102 | what one feature adds to `returnedZipSet`: its `properties.zip` when truthy; `ReturnedZipOfNormalized` states it for a normalised feature |
| ZctaExport.ReturnedZips | exporter/export-zcta-geojson.js:90-103 | `returnedZipSet` after a run of features, starting empty; `ReturnedZipsMembers` states its members both ways |
| ZctaExport.ReturnedZipOfNormalized | exporter/export-zcta-geojson.js:100-103 | a normalised feature contributes its trimmed ZCTA5 to the returned set, or nothing when that is empty |
| ZctaExport.ReturnedZipsMembers | exporter/export-zcta-geojson.js:100-103 | a value is in the returned set exactly when some feature carries it as a truthy `properties.zip` |
| ZctaExport.Missing | exporter/export-zcta-geojson.js:106 | `zipList.filter((z) => !returnedZipSet.has(z))`; `MissingMembers`, `MissingPartition` and `MissingIncreasing` state its members, its partition and its order |
| ZctaExport.MissingMembers | exporter/export-zcta-geojson.js:106 | a ZIP is missing exactly when it is in the list and not returned, and found exactly when it is in the list and returned |
| ZctaExport.MissingPartition | exporter/export-zcta-geojson.js:106 | the missing and the found ZIPs together are the ZIP list, each element counted once |
| ZctaExport.MissingIncreasing | exporter/export-zcta-geojson.js:106 | filtering keeps the list's increasing order |
| ZctaExport.Outcome | exporter/export-zcta-geojson.js:92-116 | the outcome of a run on a ZIP list: failed with the first error, or written with all features and the missing ZIPs; `OutcomeWritten` states when and what |
| ZctaExport.FeatureCollection | exporter/export-zcta-geojson.js:112 | the written object `{ type: "FeatureCollection", features }`; `OutcomeWritten` states that the features are all accepted features in order |
| ZctaExport.OutcomeWritten | exporter/export-zcta-geojson.js:89-116 | output is written exactly when every chunk is accepted; the output is the FeatureCollection of all accepted features, and a ZIP is missing exactly when no feature carries it |
| ZctaExport.Accumulate | exporter/export-zcta-geojson.js:100-103 | after a chunk, the features are the earlier ones followed by the chunk's, and the returned set is that of all features so far |
| ZctaExport.FetchAndCollect | exporter/export-zcta-geojson.js:89-116 | the chunk loop ends in exactly the outcome of fetching every chunk in order |
| ZctaExport.Run | exporter/export-zcta-geojson.js:77-131 | without an input file the run stops with no ZIPs; otherwise the ZIP list is the sorted ledger ZIPs and the run ends in the outcome of fetching its chunks |
| ZctaExport.OneFeatureResponse | exporter/export-zcta-geojson.js:59-72 | a FeatureCollection with one feature whose ZCTA5 is `z` is accepted as that feature with properties `{ zip: z }` |
| ZctaExport.OneChunkExample | exporter/export-zcta-geojson.js:92-106 | with ZIPs 43085 and 43201 and one returned feature for 43201, there is one chunk, and the run writes that feature and reports 43085 missing |
| ZctaExport.OneChunkServiceExample | exporter/export-zcta-geojson.js:38-106 | the same run, starting from the service's HTTP response |
| AvailabilityView.BrandId | main.js:12-17 | the `BRAND_META` key of each brand; `BrandIdInjective` states that the keys are distinct |
| AvailabilityView.BrandIdInjective | main.js:12-17 | the four brand keys are distinct |
| AvailabilityView.Lookup | main.js:377 | a status is found exactly when the brand has an entry listing that ZIP, and it is that entry's status |
| AvailabilityView.Toggle | main.js:352-366 | the new choice after clicking a brand; `ToggleProperties` states how it toggles |
| AvailabilityView.ToggleProperties | main.js:352-366 | choosing the active brand clears the choice; choosing any other brand makes it active; from no choice, choosing one brand twice ends with no choice |
| AvailabilityView.Classify | main.js:379-384 | the no-status case is exactly a missing or empty status; the available case is exactly `"available"` |
| AvailabilityView.StyleFor | main.js:379-398 | the style set for each status class; `StyleForRoundTrip` and `ZipStyleCases` state that the three differ and what each is |
| AvailabilityView.StyleForRoundTrip | main.js:379-398 | the three styles are distinct: each style's class can be read back from it |
| AvailabilityView.ZipStyle | main.js:376-398 | a polygon's style reflects the status of its own ZIP for the brand, and depends on nothing else |
| AvailabilityView.ZipStyleCases | main.js:377-398 | no status gives the `#888` outline with opacity 0; `available` gives fill `#4caf50` at 0.35; any other status gives fill `#e53935` at 0.35 |
| AvailabilityView.Painted | main.js:370-400 | painting keeps the number of polygons |
| AvailabilityView.PaintedIdempotent | main.js:370-400 | painting twice is painting once |
| AvailabilityView.PaintedPerZip | main.js:375-399 | polygons with the same ZIP get the same style, and each polygon's style shows its own ZIP's status |
| AvailabilityView.ZipMapView.constructor | main.js:71-78 | after loading, no brand is chosen and every polygon has the default style |
| AvailabilityView.ZipMapView.PaintZipAvailability | main.js:370-400 | the choice is unchanged; without a layer, a chosen brand, or a table entry for it, nothing changes; otherwise every polygon gets its own ZIP's style |
| AvailabilityView.ZipMapView.ResetZipStyles | main.js:402-407 | the choice is unchanged; every polygon gets the default style when the layer exists |
| AvailabilityView.ZipMapView.ActivateBrand | main.js:352-366 | the choice toggles; clearing it resets all polygons, and choosing a brand paints them for it |
| AvailabilityView.BrandMap | main.js:461 | `availabilityData?.[brandId] \|\| {}`: the brand's map, or an empty one; `GetZipListsForBrand` and `ZipListsProperties` state that the lists come from it and are empty for a brand missing from the table |
| AvailabilityView.CollectStatus | main.js:461-469 | the two lists have no repeats and hold exactly the keys with status `"available"` and `"unavailable"` |
| AvailabilityView.GetZipListsForBrand | main.js:460-476 | both lists are strictly increasing by number and hold exactly the brand's ZIPs with each status |
| AvailabilityView.ZipListsProperties | main.js:460-473 | the lists are disjoint; ZIPs with other statuses are in neither; a brand missing from the table, or present with no ZIPs, has two empty lists; each list is the only increasing list of its ZIPs |
| AvailabilityView.ReportListsExample | main.js:460-476 | a brand with 43201 and 43123 available and 43085 unavailable gets `[43123, 43201]` and `[43085]` |
| AvailabilityView.Rows | main.js:645-666 | the report has the requested number of rows |
| AvailabilityView.PairRows | main.js:645-666 | the loop prints `max(a, u)` rows, and row `k` holds the `k`-th available and the `k`-th unavailable ZIP where they exist |
| AvailabilityView.LeftsOfRows | main.js:655-658 | the left column of the first `n` rows is the first `min(n, a)` available ZIPs |
| AvailabilityView.RightsOfRows | main.js:660-663 | the right column of the first `n` rows is the first `min(n, u)` unavailable ZIPs |
| AvailabilityView.PairRowsPrintsAll | main.js:645-666 | every ZIP of both lists is printed once, in order, in its own column, and no row is blank on both sides |
| AvailabilityView.DropRun | main.js:670 | skipping a run leaves a suffix that is empty or starts with a letter or digit |
| AvailabilityView.CollapseRuns | main.js:670 | the result uses only `[a-z0-9-]`, never has two dashes in a row, and starts with a dash only when the input does not start with a letter or digit |
| AvailabilityView.StripDashes | main.js:671 | `replace(/(^-\|-$)/g, "")`: one dash removed at each end; `StripDashesKeeps` states that no letter or digit is lost |
| AvailabilityView.SafeName | main.js:668-671 | the slug of a brand name; `SafeNameIsSlug` and `SafeNameKeeps` state its shape and its contents |
| AvailabilityView.SafeNameIsSlug | main.js:668-671 | the slug uses only `[a-z0-9-]`, never has `--`, and neither starts nor ends with `-` |
| AvailabilityView.DropRunSlugChars | main.js:670 | skipping a run drops no letter or digit |
| AvailabilityView.CollapseRunsKeeps | main.js:670 | collapsing runs keeps every letter and digit, in order |
| AvailabilityView.StripDashesKeeps | main.js:671 | stripping end dashes keeps every letter and digit |
| AvailabilityView.SafeNameKeeps | main.js:668-671 | the slug holds exactly the lower-cased name's letters and digits, in order |
| AvailabilityView.Normalized | main.js:160 | `(raw \|\| "").trim().toLowerCase()`, also at line 245; `NormalizedIdempotent` states that normalising twice changes nothing |
| AvailabilityView.ParseLocationValue | main.js:159-166 | the location box read as a place; `ParseLocationCases` and `ParseLocationIdempotent` state its cases |
| AvailabilityView.ParseLocationCases | main.js:159-166 | the result is empty exactly when the trimmed input is; input starting with `columbus` gives `columbus`; any other input comes back trimmed and lower-cased |
| AvailabilityView.NormalizedIdempotent | main.js:160 | trimming and lower-casing a normalised value changes nothing |
| AvailabilityView.ParseLocationIdempotent | main.js:159-166 | parsing a parsed location changes nothing |
| AvailabilityView.ShouldShow | main.js:244-247 | whether the Columbus suggestion opens; `ShouldShowPrefix` states exactly when |
| AvailabilityView.ShouldShowPrefix | main.js:244-247 | the suggestion shows exactly when the normalised value starts with `col`, so the length test is implied; every value read as Columbus shows it |

## Left out

- Leaflet map setup, tiles, tooltips, the mouse-over and mouse-out handlers and the canvas renderer are not modelled (third-party UI). Painting is modelled on the list of polygon ZIPs and their styles.
- DOM wiring, the popup, the drawer and the clockface layout are not modelled. They are UI plumbing, and the layout uses floating-point trigonometry.
- The map snapshot, SVG-to-PNG conversion, jsPDF calls, page breaks and `startY` arithmetic are not modelled. They are foreign library calls and floating-point positions. Only the row pairing of the report loop is modelled.
- `fetch`, `URLSearchParams` encoding, the `fs` calls, `console` output and `process.exit` are not modelled; this is I/O. The service is a parameter mapping the query to the response or to none, which stands for a `fetch` that rejects; the input file's existence and text are parameters of `Run`. The service is a function, so two queries for the same chunk get the same response; retries and timing are not modelled.
- `JSON.stringify` and the key order of the written file are not modelled. The output is a JSON value.
- The tool that builds the availability table is not part of this model. The table is an input whose per-brand keys are five-digit ZIPs. A polygon whose ZIP is not five digits finds no status. Inherited prototype keys such as `constructor` are not modelled.
- The brand key passed to `activateBrand` is one of the four brands; an unknown key is not modelled.
- JavaScript numbers are modelled as integers; a JSON ZCTA5 that is a fraction or an exponent is not modelled.
- JsText.Lower: only ASCII letters are lower-cased. Unicode case mapping (for example `İ` or the Kelvin sign) is not modelled.
- ZctaExport.Prefix: counts characters, not UTF-16 code units, so a body with astral characters is cut differently.
- ZctaExport.SpreadFields: a feature that is not an object spreads to no fields. In JavaScript a string or array feature would spread its index keys.
- ZipLedger.FromSet: the order in which a `Set` iterates is not stated. The list is sorted right after, so the result does not depend on it.
- `Array.prototype.sort` sorts in place; it is modelled as a function on sequences (an insertion sort) whose result is determined by its members.
- ZipLedger.CrlfSameZips: requires that the LF ledger has no CR LF pair of its own, since otherwise it is not the LF form of its CR LF copy.
