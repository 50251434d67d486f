# Infra_SC core, modelled in Dafny

Infra_SC builds interactive maps of the transport and logistics
infrastructure of Santa Catarina from the IBGE BC25 shapefiles. Two Flask
apps (`app_gerador_mapas.py` and its successor `app_gerador_mapas_final.py`)
let a user pick layers and get a map back; two scripts
(`mapa_bc25.py`, `mapa_bc25_otimizado.py`) build the full static map; and
`compress.py` minifies the resulting HTML.

This project models the logic those files own, as opposed to what they
delegate to geopandas, shapely, folium and Flask:

- `common.dfy`, `text.dfy`: an option type, the subsequence relation, and
  Python's `str.isspace`, `str.isalnum`, `str.strip`, `in` and ASCII
  `str.lower`.
- `geometry.dfy`: the shapely geometry kinds as one datatype with
  fixed-point integer coordinates (an integer `v` stands for `v * 10^-9`
  degrees), and `round_geom`: half-to-even rounding to a grid, applied
  kind by kind, as a function `Rounded` and as a method `RoundGeom` with the
  source's append loops, proved equal.
- `frames.dfy`: a dataset (GeoDataFrame) as ordered columns plus rows of
  geometry and attributes; boolean-mask row filters, the simplification
  gate of `simplificar_geometrias` (decided on the first feature only),
  `reduzir_precisao`, the column pruning of the loaders and
  `filtrar_colunas`.
- `layer_loader.dfy`: `carregar_camada` of both apps. `LoadStep` is the
  pure specification of one call. It takes the cache dictionaries, the
  shapefile directory, the simplifier and two clock readings. The class
  `LayerCache` holds `CACHE_LAYERS` and `CACHE_TIMESTAMP`, and its `Load`
  method is proved equal to `LoadStep`. Its `Compose` method is the layer
  loop of `criar_mapa_customizado` with its counter, proved equal to
  `ComposeSpec`.
- `map_routes.dfy`: the map-name sanitiser, the request check of
  `gerar_mapa`, and `visualizar_mapa` with the in-memory `MAPS_CACHE` of
  the final app (class `MapStore`) and its fallback to the saved file.
- `bc25.dfy`: `_porte`, the road and heliport row filters, the optimised
  per-layer pipelines and the tooltip and popup fallbacks of the scripts.
- `compress.dfy`: `minify_html` and `remove_redundant_data` as
  left-to-right regex scans, and the names `compress_html_file` writes to.

The clock, the shapefile directory, the simplifier, the gzip compressor
and the map renderer's failures are parameters: `now` is the reading taken
for the freshness test and `later` the one stored with a new entry.

The model follows the code wherever the two descriptions of the system
differ. One such place: a cached id is served even when it is no longer
in the layer table, because the cache is consulted first. Another: the
name-based fallback for terminals uses the berth type after its own
fallback (`Terminal (Desconhecido)`). A third: the default output name of
`compress_html_file` equals the input name when the input has no `.html`
in it, so the minified text then replaces the input file
(`Compress.DefaultOutputName`, `Compress.CompressHtmlFile`).

## Model

| member | source | states |
|---|---|---|
| Geometry.Rounded | app_gerador_mapas_final.py:146-186 | round_geom keeps the kind, the number of parts and rings and every ring's and line's vertex count; empty geometries and unlisted kinds (MultiPoint, LinearRing, GeometryCollection) come back unchanged; the listed kinds land on the grid; every coordinate moves by at most half a grid step; the same in app_gerador_mapas.py lines 94-133; the same in mapa_bc25_otimizado.py lines 26-65 |
| Geometry.RoundGeom | app_gerador_mapas_final.py:146-186 | the loop-and-append rebuild of each kind equals Rounded |
| Geometry.RoundPolygonRings | app_gerador_mapas_final.py:152-157 | the exterior and the interiors appended one by one equal RoundRings |
| Geometry.RoundHalfEven | app_gerador_mapas_final.py:153 | np.round of one coordinate: a multiple of the grid step, at most half a step away, ties to the even multiple, values already on the grid unchanged |
| Geometry.RoundPath | app_gerador_mapas_final.py:169-171 | a rounded coordinate array has the same length, lies on the grid, each vertex within half a step of the original |
| Geometry.RoundPaths | app_gerador_mapas_final.py:173-177 | MultiLineString parts: same number of lines, same vertex count per line, all on the grid |
| Geometry.RoundRings | app_gerador_mapas_final.py:152-157 | a polygon keeps its number of interiors and every ring's vertex count, all on the grid |
| Geometry.RoundPolygons | app_gerador_mapas_final.py:159-167 | a MultiPolygon keeps its number of polygons, each rounded ring by ring |
| Geometry.SameShapeSameCount | app_gerador_mapas_final.py:146-186 | two geometries of the same shape have the same kind and vertex count |
| Geometry.RoundedIdempotent | app_gerador_mapas_final.py:146-186 | rounding an already rounded geometry changes nothing |
| Frames.Where | mapa_bc25.py:28-30 | a boolean mask keeps exactly the rows satisfying it, in order, each as many times as it occurs in the input (multisets), never more rows, and all rows when all satisfy it |
| Frames.WhereSplit | mapa_bc25_otimizado.py:121-123 | for masks no row satisfies together, the rows kept by either one are the two selections combined (as multisets) |
| Frames.WhereEqual | app_gerador_mapas_final.py:213 | an equality mask keeps exactly the rows whose value equals the given string, in order and with their multiplicity; missing values never match |
| Frames.Simplificar | app_gerador_mapas_final.py:130-137 | an empty dataset, or one whose first feature is Point/MultiPoint, is returned unchanged; otherwise every geometry is simplified with attributes and row count kept; the same in app_gerador_mapas.py lines 78-85; the same in mapa_bc25_otimizado.py lines 11-17 |
| Frames.ReduzirPrecisao | app_gerador_mapas_final.py:139-187 | columns, row count and attributes kept; every geometry replaced by its rounded form of the same shape; an empty dataset unchanged; the same in app_gerador_mapas.py lines 87-135; the same in mapa_bc25_otimizado.py lines 19-68 |
| Frames.ReduzirOnGrid | app_gerador_mapas_final.py:139-187 | every rebuilt geometry has at most the requested number of decimal places |
| Frames.ReduzirIdempotent | mapa_bc25_otimizado.py:19-68 | reducing precision twice equals reducing it once |
| Frames.ExistingColumns | app_gerador_mapas_final.py:224 | the allow-list entries present among the columns, exactly those, in allow-list order |
| Frames.PruneColumns | app_gerador_mapas_final.py:223-228 | the kept columns are the existing allow-list entries in list order followed by geometry, only geometry when none exist; rows keep their geometry and just those attributes; the same in app_gerador_mapas.py lines 167-172 |
| Frames.PruneIdempotent | app_gerador_mapas_final.py:223-228 | pruning a pruned dataset with the same list changes nothing |
| Frames.FiltrarColunas | mapa_bc25_otimizado.py:70-78 | an empty dataset keeps all its columns; otherwise the pruning above |
| LayerLoader.OnlyRoadLayersFiltered | app_gerador_mapas_final.py:108-122 | only the final app's two road layers carry a jurisdiction filter |
| LayerLoader.FilterStep | app_gerador_mapas_final.py:211-213 | with a non-empty filter value and a jurisdicao column, exactly the rows carrying that value remain, in order and with their multiplicity; otherwise the dataset is untouched |
| LayerLoader.Transform | app_gerador_mapas_final.py:209-228 | filter, then the simplify gate on the first feature, rounding to 5 places and pruning: fails exactly when no row survives the filter (the gate raises); on success the columns are the pruned list, one row per surviving feature, attributes restricted, geometry rounded after simplification unless the first feature is a point, on the grid; the same in app_gerador_mapas.py lines 157-172 |
| LayerLoader.FilteredRowsMatch | app_gerador_mapas_final.py:212-213 | with the filter active every returned feature has jurisdicao equal to the filter value and the count does not grow |
| LayerLoader.UnfilteredKeepsAllRows | app_gerador_mapas.py:157-164 | without a filter every source feature reaches the output; the load fails only on an empty file |
| LayerLoader.LoadStep | app_gerador_mapas_final.py:189-239 | a fresh entry (cached, now minus stamp below 3600) is returned with no write, even for an id absent from the table; unknown id, missing or unreadable file and an empty dataset return None with both dictionaries unchanged; a stale or absent entry whose file reads and transforms to a dataset returns that dataset and writes it and the new stamp under the id; keys never disappear; the same in app_gerador_mapas.py lines 137-183 |
| LayerLoader.StaleEntryKept | app_gerador_mapas_final.py:193-205 | a failed reload of a stale id leaves the old dataset and stamp in place |
| LayerLoader.ServedUntilExpiry | app_gerador_mapas_final.py:193-195 | after a load stamped at t, every call before t + 3600 returns the same dataset from the cache and writes nothing; the same in app_gerador_mapas.py lines 141-143 |
| LayerLoader.ReloadedAfterExpiry | app_gerador_mapas_final.py:231-232 | from t + 3600 on the file is read again and the stamp renewed |
| LayerLoader.LayerCache.constructor | app_gerador_mapas_final.py:125-126 | both dictionaries start empty |
| LayerLoader.LayerCache.Load | app_gerador_mapas_final.py:189-239 | returns and writes exactly what LoadStep says; keeps the two dictionaries on the same keys with non-empty datasets; the same in app_gerador_mapas.py lines 137-183 |
| LayerLoader.RenderFails | app_gerador_mapas_final.py:291-307 | drawing fails exactly when the id is among the renderer failures or, in the final app, the first feature is a Point or MultiPoint and some row is not a Point with coordinates (its circle marker reads row.geometry.y; an empty Point gives no valid location); a MultiPoint-first layer always fails; in the original app only the renderer failures count |
| LayerLoader.LayerStep | app_gerador_mapas_final.py:281-290 | an id outside the layer table is skipped with no load; otherwise the cache is the one the load leaves, and the id is added exactly when the load returns a non-empty dataset that draws without error; at most that id joins the cache; the same in app_gerador_mapas.py lines 204-229 |
| LayerLoader.ComposeSpec | app_gerador_mapas.py:204-233 | the added ids are requested ids from the layer table, in request order, never more than requested; the cache only gains requested ids |
| LayerLoader.ComposeAppend | app_gerador_mapas_final.py:281-290 | the loop over a + b adds what the loop over a adds, then what the loop over b adds from the cache a leaves |
| LayerLoader.LoadableLayerAdded | app_gerador_mapas_final.py:281-290 | a requested id, not fresh in the cache, whose file loads to a dataset that draws without error is added and counted, and that dataset is cached |
| LayerLoader.LayerCache.Compose | app_gerador_mapas_final.py:279-367 | the counter equals the number of added ids, and the ids and the cache are those ComposeSpec gives; the same in app_gerador_mapas.py lines 202-233 |
| LayerLoader.UnavailableNeverAdded | app_gerador_mapas_final.py:285-288 | an uncached id whose load gives nothing (not in the table, file missing or unreadable, or no feature left) is never counted and never cached, whatever else is requested; the same in app_gerador_mapas.py lines 208-211 |
| Text.Strip | app_gerador_mapas_final.py:435 | the result is one slice of the input with only whitespace before and after it, and no whitespace at either of its ends |
| Text.StrippedUnchanged | app_gerador_mapas_final.py:435 | a string with no whitespace at either end is its own strip |
| Text.Contains | mapa_bc25.py:33 | true exactly when the pattern occurs at some position |
| MapRoutes.KeepAllowed | app_gerador_mapas_final.py:435 | keeps exactly the alphanumerics, spaces, hyphens and underscores, in order, each as often as it occurs; an all-allowed name is unchanged |
| MapRoutes.SanitiseName | app_gerador_mapas_final.py:435-437 | the stripped allowed characters of the request name when any survive, mapa_customizado otherwise; so never empty, only allowed characters, no whitespace at either end; the same in app_gerador_mapas_final.py lines 496-498; the same in app_gerador_mapas.py lines 297-299; the same in app_gerador_mapas.py lines 339-341 |
| MapRoutes.SanitiseKeepsCleanName | app_gerador_mapas_final.py:435-437 | a name of allowed characters with no edge whitespace is kept as it is |
| MapRoutes.SanitiseIdempotent | app_gerador_mapas_final.py:435-437 | sanitising twice equals sanitising once |
| MapRoutes.Generate | app_gerador_mapas_final.py:427-456 | no layers is a 400; otherwise the sanitised name, its /visualizar/ URL and the number of requested ids |
| MapRoutes.DefaultRequestName | app_gerador_mapas_final.py:429 | a request without nome produces a map called mapa_customizado |
| MapRoutes.ViewFromFile | app_gerador_mapas.py:320-328 | the page is the saved file's content, or 404 when there is none |
| MapRoutes.ViewStep | app_gerador_mapas_final.py:463-485 | a cached page is served with no change; otherwise the saved file is served and cached; a 404 changes nothing; no existing entry is overwritten |
| MapRoutes.ServedPageSticks | app_gerador_mapas_final.py:476-482 | once served, a page keeps being served from memory whatever the files hold |
| MapRoutes.MapStore.constructor | app_gerador_mapas_final.py:88 | the map cache starts empty |
| MapRoutes.MapStore.Store | app_gerador_mapas_final.py:446 | the generated page is stored under its name |
| MapRoutes.MapStore.View | app_gerador_mapas_final.py:463-485 | serves and caches exactly as ViewStep says |
| Bc25.PorteOf | mapa_bc25_otimizado.py:104-109 | Pequeno iff area is at most q1, Medio iff above q1 and at most q2, Grande iff above both; the same in mapa_bc25.py lines 18-23 |
| Bc25.PorteMonotone | mapa_bc25_otimizado.py:104-109 | with q1 at most q2 a larger area never gets a smaller class |
| Bc25.RoadsMain | mapa_bc25_otimizado.py:121 | exactly the rows whose jurisdicao is Federal or Estadual/Distrital, in order, each as often as in the input |
| Bc25.RoadsFed | mapa_bc25_otimizado.py:122 | exactly the rows whose jurisdicao is Federal, in order, each as often as in the input |
| Bc25.RoadsEst | mapa_bc25_otimizado.py:123 | exactly the rows whose jurisdicao is Estadual/Distrital, in order, each as often as in the input |
| Bc25.RoadSubsetsSplitMain | mapa_bc25_otimizado.py:121-123 | the federal and state subsets are disjoint and together are the main roads, duplicates counted; the same in mapa_bc25.py lines 28-30 |
| Bc25.Helipontos | mapa_bc25_otimizado.py:142 | exactly the rows whose tipopista contains heliponto in any ASCII case, in order and with their multiplicity; missing values excluded; the same in mapa_bc25.py line 33 |
| Bc25.HelipontoIgnoresCase | mapa_bc25.py:33 | a value and its lower-cased form match alike |
| Bc25.HelipontoSpellingsMatch | mapa_bc25.py:33 | Heliponto and HELIPONTO match, Aeródromo does not |
| Bc25.OptimizeLayer | mapa_bc25_otimizado.py:126-128 | same row count; an empty layer unchanged; otherwise the pruned columns, and each row its geometry simplified (unless the first feature is a point) then rounded to 5 places, and its attributes restricted to the kept columns |
| Bc25.OptimizePointLayer | mapa_bc25_otimizado.py:141-149 | point layers are only rounded: attributes and columns kept, each geometry the rounded original |
| Bc25.PointLayerNeverSimplified | mapa_bc25_otimizado.py:141-149 | a layer whose first feature is a point gets the same result from the line pipeline as from rounding alone |
| Bc25.OptimizedFederalRoads | mapa_bc25_otimizado.py:122-128 | every feature of the optimised federal layer still says Federal |
| Bc25.OrElse | mapa_bc25.py:193 | a truthy value is used as is, a missing or empty one gives the fallback |
| Bc25.TerminalLabelOf | mapa_bc25.py:232-237 | each field is its column value when truthy, else its fallback (Desconhecido, Não informado); the name falls back on Terminal (type) with the type after its own fallback; every label non-empty |
| Bc25.BareTerminalLabel | mapa_bc25.py:232-237 | a terminal with no attributes is labelled Terminal (Desconhecido) with every field Não informado |
| Bc25.NamedTooltip | mapa_bc25.py:193-213 | never empty: the name when it is truthy, otherwise the layer's fallback, Heliponto for heliports and Construção Aeroportuária for airport buildings |
| Bc25.PipelineTooltipFields | mapa_bc25.py:314 | four fields; the last is operaciona exactly when that column exists, tipotrecho otherwise |
| Compress.StripComments | compress.py:15 | never longer; only drops characters and keeps the rest in order |
| Compress.WithoutCommentUnchanged | compress.py:15 | text without an opening or without a closing comment marker is unchanged |
| Compress.UnclosedCommentKept | compress.py:15 | an opening marker that no closing marker follows starts no comment: the text is unchanged |
| Compress.CommentRemoved | compress.py:15 | after text holding no opening marker, a comment whose body holds no closing marker is removed through its nearest closing marker, the text before it is kept, and the scan goes on with the text after it |
| Compress.CollapseSpaces | compress.py:18 | every whitespace character is a plain space, no two are adjacent, never longer, whitespace-free text unchanged |
| Compress.CollapseSpacesByChar | compress.py:18 | the step equals the character rule: a whitespace character becomes one space unless whitespace came just before it, in which case it goes |
| Compress.CollapseSpacesKeepsText | compress.py:18 | the non-whitespace characters are kept, in order |
| Compress.DropSpaceBeforeGt | compress.py:21 | never longer; a result starting with > comes from text whose first non-whitespace character is > |
| Compress.DropSpaceBeforeGtByChar | compress.py:21 | the step equals the character rule: a whitespace character goes exactly when the first non-whitespace character after it is > |
| Compress.DropSpaceBeforeGtKeepsText | compress.py:21 | only whitespace goes: the non-whitespace text is unchanged and the result is a subsequence of the input |
| Compress.DropSpaceBeforeGtClean | compress.py:21 | afterwards no whitespace precedes a closing bracket, and no adjacent whitespace appears |
| Compress.DropSpaceAfterLt | compress.py:24 | never longer; the first character keeps its class (whitespace or not), and a leading > stays the leading character |
| Compress.DropSpaceAfterLtByChar | compress.py:24 | the step equals the character rule: a whitespace character goes exactly when its run follows a < |
| Compress.DropSpaceAfterLtKeepsText | compress.py:24 | only whitespace goes: the non-whitespace text is unchanged and the result is a subsequence of the input |
| Compress.DropSpaceAfterLtClean | compress.py:24 | afterwards no whitespace follows an opening bracket, and the earlier properties are kept |
| Compress.Minify | compress.py:12-26 | never longer; whitespace is single plain spaces, none before a closing or after an opening bracket; the non-whitespace text is that of the input without its comments, in order |
| Compress.MinifyKeepsText | compress.py:17-24 | the three whitespace steps keep the non-whitespace text of the comment-free input and add no character |
| Compress.MatchAt | compress.py:31 | a match of an attribute pattern starts with whitespace and is non-empty |
| Compress.StyleMatchShape | compress.py:31 | every style match is a non-empty whitespace run, style=" , a value without quotes and the closing quote, and covers exactly those |
| Compress.DataMatchShape | compress.py:34 | every data match is a non-empty whitespace run, data-, a name without =, =" , a value without quotes and the closing quote, and covers exactly those |
| Compress.StyleAttributeMatch | compress.py:31 | whitespace followed by style=" , a value without quotes and the closing quote match exactly through that quote |
| Compress.DataAttributeMatch | compress.py:34 | whitespace followed by data-, a name without =, =" , a value without quotes and the closing quote match exactly through that quote |
| Compress.RemoveAttribute | compress.py:31-34 | never longer |
| Compress.StyleAttributeRemoved | compress.py:31 | an inline style is removed with the whitespace in front of it, and the scan goes on after its closing quote |
| Compress.DataAttributeRemoved | compress.py:34 | a data attribute is removed with the whitespace in front of it, and the scan goes on after its closing quote |
| Compress.KeepsRunWithoutMatch | compress.py:31-34 | a whitespace run not followed by the rest of the pattern is kept, and the scan goes on after it |
| Compress.RemoveAttributeUnchanged | compress.py:31-34 | text without whitespace holds no match and is unchanged |
| Compress.RemoveAttributeKeeps | compress.py:31-34 | a leading piece without whitespace is kept as it is in front of the rest's result |
| Compress.RemoveAttributeSubseq | compress.py:31-34 | only drops characters and keeps the rest in order |
| Compress.RemoveRedundantData | compress.py:28-36 | never longer; text without whitespace is unchanged because both patterns start with whitespace |
| Compress.RemoveRedundantDataSubseq | compress.py:28-36 | only drops characters, keeping the rest in order |
| Compress.StyleAttributeDropped | compress.py:28-36 | an inline style after whitespace-free text is dropped with its whitespace, the text before it kept |
| Compress.DataAttributeDropped | compress.py:28-36 | a data attribute without whitespace in it, after whitespace-free text, is dropped with its whitespace, the text before it kept |
| Compress.CompressedTextPlainSpaces | compress.py:58-62 | minifying then stripping attributes leaves only plain spaces and never lengthens |
| Compress.ReplaceAllWithoutTarget | compress.py:47 | text without the target is unchanged |
| Compress.ReplaceAtFirstOccurrence | compress.py:47 | the first occurrence is replaced, the text before it kept, and the scan goes on after it; with the case above this fixes every result |
| Compress.DefaultOutputName | compress.py:46-47 | an input without .html is its own output name |
| Compress.OutputNameOfHtmlFile | compress.py:46-47 | a name whose only .html is its ending gets .min.html instead |
| Compress.GzipName | compress.py:74 | the output name followed by .gz |
| Compress.CompressHtmlFile | compress.py:38-94 | a missing input gives False with nothing written; otherwise the output name holds remove_redundant_data(minify(input)), never longer than the input and with plain spaces only; an empty input then raises the ZeroDivisionError of the size ratio with no .gz written; otherwise the .gz holds the compressor's image of the output and True is returned; no other file changes |

## Left out

- Reading shapefiles, the `to_crs` reprojection, the area in EPSG:3857 and the quantiles: geopandas and pyproj numerics. A source file is a parameter that either yields a dataset or raises; `q1` and `q2` are parameters of `Bc25.PorteOf`.
- The GEOS topology-preserving simplification: a foreign call, passed in as a function; only the gate deciding whether it runs is specified.
- Float coordinates: `np.round` is modelled on fixed-point integers with nine decimal places, so float representation error and coordinates finer than 10^-9 degree are not modelled.
- Z coordinates: only x and y are modelled.
- Folium map building, styles, colours, popups as HTML strings and the UI overlay; rendering failures other than point layers with rows that are not Points with coordinates are a parameter (`renderFails`).
- Flask routing, JSON parsing, HTTP status plumbing, `render_template`, CORS, the `/api/layers` and `/api/status` listings, and a non-string `nome` in the request.
- MapRoutes.Generate: generating and saving the map page itself is left to the parameters of the caller; the final app's page kept in memory (`_repr_html_`) and the file it saves differ in Folium, which is not modelled.
- Playwright/PIL PNG export and timestamped file names from `datetime.now`.
- `baixar_shapefiles` (download, zip extraction), `prepare_shapefiles.py`, `mapa.py` (IBGE API fetches and a pandas merge) and `decompress.py`: I/O.
- Compress.MatchAt: its own contract states only where a match starts and that it is non-empty; the shape of every match is stated by Compress.StyleMatchShape and Compress.DataMatchShape.
- Compress.RemoveAttribute: its own contract states only the length bound; what is removed and what is kept is stated by the lemmas listed under it in the table.
- Compress.CompressHtmlFile: files are text, so the `errors='ignore'` decoding is not modelled; an input made only of undecodable bytes reads as empty text but has a non-zero size, so the source finishes where the model reports the division by zero. The sizes and ratios printed and gzip itself (a parameter) are not modelled either.
- LayerLoader.Transform: a feature with a null geometry is not representable. In the source the `geom_type` test of the simplify gate (app_gerador_mapas_final.py line 216) or `round_geom` (line 147) raises AttributeError on it and the loader returns None through its `except` (lines 237-239); the model always transforms such a dataset.
- Thread-safety of the global caches: the apps run single-threaded.
- Text.IsAlnum: Python's `str.isalnum` is modelled for ASCII and Latin-1 only; letters and digits of other scripts are treated as not allowed in map names.
- Bc25.Helipontos: case-insensitive matching is modelled for ASCII case only; non-ASCII case equivalents that Python's regex engine also accepts are not modelled.
- Bc25.OrElse: an attribute is a string or missing; a NaN value, which Python treats as true, is not modelled.
- Bc25.RoadsMain, Bc25.RoadsFed, Bc25.RoadsEst, Bc25.Helipontos: the scripts stop with a KeyError when the column is absent; the model requires the column.
- The composer reads the clock once per call (`now` for both readings of each load); the real loader reads it twice.
