# BitCraft empire map generator, modelled in Dafny

The generator builds a GeoJSON map of empire territories in BitCraft. It
reads empire and watchtower records from the BitJita API. Every active
watchtower claims the 5 x 5 block of 96-tile chunks around it. The chunks
are folded into a map from chunk to set of owning empires, and that map is
split into single-owner chunks and contested chunks. Owners get colours
from a persisted YAML colour store. A small companion tool converts
in-game hex colours to map colours.

This project models the pure logic of that pipeline:

- `Coords` (coords.py): tile-to-chunk floor division, the five-point
  chunk outline, the GeoJSON ring, and the chunks a tower covers.
- `BoundedScan`: the capped loop the generator uses twice. The tower loop
  of `fetch_emp` and the empire-selection loop of `main` both skip, keep
  or raise per item and stop at a cap.
- `Towers`: the tower filter of `fetch_emp`. It covers `active`, missing
  or non-numeric coordinates, the `(0, 23040]` bounds and `int()`
  truncation, plus the chunk blocks of the accepted towers.
- `Ownership`: the aggregation of worker results into the chunk map, and
  `build_owner_and_contested_polys`.
- `Features`: `build_features_from_chunkmap`, the contested feature, the
  layer-control marker and the feature collection.
- `Coloring`: `apply_colors_from_store`.
- `ColorStore` (color_store.py): colour normalisation, the item loop of
  `load_color_store` and the shaping done by `save_color_store`.
- `Client`: the envelope unwrapping of the four `fetch_*` calls that
  decode a body.
- `Selection` (generate_geojson.py): choosing the empires to process, and
  collecting the capital claim ids still to fetch.
- `Converter` (color_converter.py): the colour table and the read-convert
  loop.
- `Json`, `PyText`, `Order`, `Optional`: the Python behaviour the code
  relies on. This covers JSON values, truthiness, `int()`, `str.strip`,
  `str.lower`, `str.lstrip`, tuple and string ordering, and `sorted`.

Network calls, files and the clock are not modelled. A decoded API body
becomes a parameter (`Option<Value>`, where `None` means the request
raised). The loaded YAML document becomes a parameter too, and so does the
"union failed" outcome of Shapely.

## Model

| member | source | states |
|---|---|---|
| Coords.SmallhexToChunk | scripts/coords.py:26-27 | the chunk of a tile is found by floor division by 96, so the tile lies in `[96*cx, 96*(cx+1))` on each axis, negative tiles included |
| Coords.TileInOwnChunk | scripts/coords.py:26-35 | a tile lies in the square of a chunk's outline exactly when that chunk is the one `smallhex_to_chunk` gives |
| Coords.ChunkBounds | scripts/coords.py:30-35 | the outline is a closed ring of five points: it starts at the chunk's low corner, walks the four edges of length 96 in order, and ends where it began |
| Coords.CoordsToFeaturePolygon | scripts/coords.py:38-39 | the polygon is one ring with a two-number position per input point |
| Coords.PolygonKeepsRing | scripts/coords.py:38-39 | reading the points back out of the polygon gives the input ring unchanged |
| Coords.TowerCoveredChunks | scripts/coords.py:42-50 | a tower of radius r yields `(2r+1)^2` chunks, and none when r is negative |
| Coords.TowerCoverage | scripts/coords.py:42-50 | the yielded chunks are exactly those within Chebyshev distance r of the tower's chunk, in strictly increasing `(cx, cy)` order (dx outer, dy inner) |
| Coords.WatchtowerBlock | scripts/coords.py:42-50 | the default radius gives 25 pairwise distinct chunks, the tower's own among them |
| BoundedScan.Scan | scripts/generator_core.py:303-305 | the loop matches the reference `ScanResult`: it stops before an item once `cap > 0` values are kept, and yields no result when an item raises before that |
| BoundedScan.ScanRespectsCap | scripts/generator_core.py:304-305 | with the cap on, at most `cap` values are kept |
| BoundedScan.ScanKeepsItemOrder | scripts/generator_core.py:303-324 | each kept value comes from the item that kept it, and the values keep the items' order |
| BoundedScan.Walk | scripts/generator_core.py:303 | iterating a list visits its items in order; a string yields one raising element per character and a dict one per key, since `.get` on a `str` raises; `null`, a number or a bool is not iterable and yields a single raise |
| Towers.TowerVerdict | scripts/generator_core.py:306-321 | a non-dict raises; a tower is kept iff it is active (flag missing or truthy) and both coordinates are present, non-null, numeric and in `(0, 23040]`; a kept tower's tile is the truncated coordinates |
| Towers.LocationBoundaries | scripts/generator_core.py:313 | a coordinate of 0 is refused and one of 23040 is accepted |
| Towers.InactiveTowerIgnored | scripts/generator_core.py:306-307 | a tower whose `active` is falsy is skipped whatever its position |
| Towers.AcceptedTowerChunkInRange | scripts/generator_core.py:313-322 | the chunk of an accepted tower lies in `[0, 240]` on both axes |
| Towers.BlockMembers | scripts/generator_core.py:322-323 | a tower's block holds exactly the chunks within distance 2 of its own chunk |
| Towers.BlocksLayout | scripts/generator_core.py:322-323 | the i-th accepted tower's 25 chunks sit at positions `25i .. 25i+24` of the local chunk list |
| Towers.BlocksCover | scripts/generator_core.py:322-323 | a chunk is in the local chunk list iff some accepted tower covers it |
| Towers.FetchEmp | scripts/generator_core.py:286-326 | the result is dropped iff the tower loop raises; otherwise it carries the empire, one block per accepted tower in tower order, and `towers_handled` equal to the number of accepted towers, which the cap bounds |
| Ownership.AggregateOwners | scripts/generator_core.py:341-343 | an owner is in a chunk's set iff one of that owner's results covers the chunk, and no chunk has an empty set |
| Ownership.AggregateKeys | scripts/generator_core.py:341-343 | a chunk is a key of the map iff some result covers it |
| Ownership.AggregateOrderFree | scripts/generator_core.py:328-343 | the chunk map depends only on which results were collected, not on the order the workers finished in |
| Ownership.SharedBlockIsContested | scripts/generator_core.py:341-343 | when every result belongs to one of two empires and one result of each covers the same chunks, each of those chunks is owned by exactly those two |
| Ownership.Collected | scripts/generator_core.py:328-338 | a result is collected iff its worker did not raise |
| Ownership.BuildOwnerAndContestedPolys | scripts/generator_core.py:354-381 | a chunk goes to the contested list iff it has more than one owner, and to owner o's list iff its owner set is `{o}`; no chunk is in two lists, an ownerless chunk is in none, and every list is in increasing chunk order |
| Features.BuildFeaturesFromChunkMap | scripts/generator_core.py:228-257 | one feature per chunk with a non-empty owner set, in increasing chunk order; each feature has the chunk's outline and is either the contested style with the sorted owner names joined by ", " or the single owner's name in the default colour |
| Features.ChunkFeature | scripts/generator_core.py:244-255 | the feature of one chunk: more than one owner gives the contested popup and style; one owner gives that owner's name and the default empire colour |
| Features.SortedNames | scripts/generator_core.py:249 | one name per owner, duplicates kept, in code-point order |
| Features.NameListingUnique | scripts/generator_core.py:249 | the sorted name list is determined by the owner set alone |
| Features.MapFeatures | scripts/generate_geojson.py:214-223 | the owner features stay in front, and exactly one contested feature follows iff some chunk is contested and the union succeeded; it has the union geometry, popup "Contested", colour and fill `#2d2d2d` and fill opacity 0.5 |
| Features.FeatureCollection | scripts/generate_geojson.py:228-240 | the layer-off marker comes first, then the features in order |
| Features.ContestedFeatureIffContestedChunk | scripts/generate_geojson.py:215-223 | the collection holds the contested feature iff the chunk map has a chunk with more than one owner |
| Coloring.StepEffect | scripts/generator_core.py:435-458 | after a node, its entry holds its name and the colour it was given, and `store_updated` is raised iff that entry changed |
| Coloring.RunColors | scripts/generator_core.py:435-449 | every node is assigned a colour, and it is the stored non-empty colour of its id or the default `#FF5500ff` |
| Coloring.RunStoreColors | scripts/generator_core.py:437-458 | the store keeps handing out the colour each id had at the start, and ends up holding it for every node's id |
| Coloring.RunStoreKeys | scripts/generator_core.py:452-458 | the store gains exactly the ids of the nodes; entries of other ids are untouched |
| Coloring.RunNames | scripts/generator_core.py:440-441 | an id's entry carries the name of the last node with that id |
| Coloring.NotUpdatedMeansUnchanged | scripts/generator_core.py:460 | when nothing was flagged as updated the store is exactly as loaded, so skipping the save loses nothing |
| Coloring.PassIdempotent | scripts/generator_core.py:428-458 | a second pass over the stored result assigns the same colours and neither changes nor flags the store |
| Coloring.UpdatedIffChanged | scripts/generator_core.py:424-460 | when the node ids are distinct, `store_updated` is raised exactly when the store differs from the loaded one, so the store is saved exactly when something in it changed |
| Coloring.ApplyColorsFromStore | scripts/generator_core.py:408-467 | the loop's outputs are those of the pass `Run`, so every lemma above holds for them; in particular each node gets its stored non-empty colour or the default, every node's id ends up with that colour and the last such node's name, other entries stay as loaded, and the save flag is false only when the store is unchanged and (distinct ids) true exactly when it changed |
| Client.UnwrapEmpires | scripts/generator_core.py:143-151 | a dict body gives its `empires` member, `[]` when absent; a missing or non-dict body gives `[]` |
| Client.UnwrapEmpire | scripts/generator_core.py:170-181 | a dict with a non-null `empire` gives that value when truthy and `{}` otherwise; any other dict is kept; a missing or non-dict body gives `{}` |
| Client.UnwrapEmpireOfWrapped | scripts/generator_core.py:175-178 | a non-empty empire object comes out the same whether it arrives wrapped or bare |
| Client.UnwrapClaim | scripts/generator_core.py:190-201 | a dict with a non-null `claim` gives that value when truthy and `{}` otherwise; a dict with a non-null `entityId` is kept; every other body gives `{}` |
| Client.UnwrapClaimBareOrWrapped | scripts/generator_core.py:195-199 | a claim comes out the same bare or wrapped, and a dict without an id is refused |
| Client.UnwrapClaimsPage | scripts/generator_core.py:210-220 | a dict with a non-null `claims` gives that value when truthy and `[]` otherwise; a bare list is kept; every other body gives `[]` |
| Client.UnwrapClaimsPageOfList | scripts/generator_core.py:214-217 | a list comes out the same bare or wrapped; an empty wrapped list gives `[]` |
| ColorStore.EnsureHash | scripts/color_store.py:40 | the result starts with `#`; a string that already does is kept, and any other gets exactly one `#` in front |
| ColorStore.NormalizeForRuntime | scripts/color_store.py:35-40 | null and every non-string give `None`; a string gives a colour starting with `#` |
| ColorStore.NormalizeForStore | scripts/color_store.py:43-49 | the same promise for the store-side normaliser |
| ColorStore.NormalizersAgree | scripts/color_store.py:35-49 | the two normalisers compute the same function |
| ColorStore.NormalizeIdempotent | scripts/color_store.py:35-40 | normalising a normalised colour changes nothing |
| ColorStore.NormalizeAddsOneHash | scripts/color_store.py:40 | dropping the first character of a normalised colour gives back an input that had no `#` |
| ColorStore.EntryOf | scripts/color_store.py:75-78 | an entry takes the dict's `name` (null when absent) and its normalised `color` |
| ColorStore.LoadStore | scripts/color_store.py:62-79 | a document that is not a mapping loads as empty; every loaded colour starts with `#` |
| ColorStore.LoadItemsFound | scripts/color_store.py:68-78 | an id is loaded iff some item has a key that `int()` turns into that id and a dict value |
| ColorStore.LoadItemsLastWins | scripts/color_store.py:68-78 | the entry loaded for an id comes from the last item that stores that id |
| ColorStore.ShapeEntry | scripts/color_store.py:93-96 | a dict contributes its `name` and normalised `color`; any other value is a bare colour with no name |
| ColorStore.SaveShape | scripts/color_store.py:91-96 | every id of the mapping is kept, each with its shaped entry |
| ColorStore.EntryRoundTrip | scripts/color_store.py:75-78 | reading an entry back from the dict it is written as gives the entry |
| ColorStore.SaveThenLoad | scripts/color_store.py:52-98 | loading what was saved gives back exactly the shaped store |
| ColorStore.SavedColorComesBack | scripts/color_store.py:82-98 | a bare colour saved under an id loads back normalised under that id |
| Selection.EntryVerdict | scripts/generate_geojson.py:89-97 | a non-dict raises; an entry is kept iff its `entityId` is non-null and `int()` accepts it; the kept name is the `name` value as is, or `empire-<eid>` when the key is absent |
| Selection.SelectEmpires | scripts/generate_geojson.py:85-97 | the selection matches the reference scan of the entry verdicts, holds at most `limit_empires` entries when the limit is on, and every selected pair comes from some entry of the list |
| Selection.LimitIsPrefix | scripts/generate_geojson.py:86-88 | when no entry raises, a limited selection is the unlimited one cut to the limit |
| Selection.ToOwner | scripts/generate_geojson.py:96-97 | a selected pair with a string name becomes the owner key with the same id and name |
| Selection.CapitalId | scripts/generate_geojson.py:178-181 | `info.get("capitalClaimId")` for a dict; `None` when the key is absent or the `get` raises |
| Selection.CapitalKey | scripts/generate_geojson.py:182-186 | a falsy id adds nothing; an id `int()` accepts adds that integer; any other string adds itself; a list or dict raises `TypeError` |
| Selection.NeededCapitalIds | scripts/generate_geojson.py:176-186 | the loop raises iff some id is a list or dict; otherwise the set holds exactly the keys the ids add |
| Selection.RemainingClaimIds | scripts/generate_geojson.py:176-189 | the remaining ids are distinct and are exactly the needed ids that are not yet keys of the claims map |
| Converter.ColorMapEntries | scripts/color_converter.py:4-32 | the dictionary holds exactly the 27 written entries |
| Converter.TableShape | scripts/color_converter.py:4-32 | every key is six lower-case hex digits; every value is eight, ending in the opaque alpha `ff` |
| Converter.TableInjective | scripts/color_converter.py:4-32 | the 27 keys are distinct, and no two keys share a map colour |
| Converter.LookupKey | scripts/color_converter.py:38-42 | the lookup key never starts with `#` |
| Converter.ConvertLine | scripts/color_converter.py:38-48 | a line that strips to nothing stops the loop; any other prints the mapped colour of its key, or the not-found reply when the key is missing |
| Converter.TableKeyAnswers | scripts/color_converter.py:38-48 | typing any table key prints its map colour |
| Converter.LookupIgnoresCase | scripts/color_converter.py:38 | lines that differ only in letter case are looked up alike |
| Converter.LStripHashes | scripts/color_converter.py:42 | `lstrip("#")` removes every `#` put in front |
| Converter.LookupIgnoresHashes | scripts/color_converter.py:38-42 | any number of `#`s in front of a line is ignored by the lookup |
| Converter.HashesOnly | scripts/color_converter.py:38-46 | a line of only `#`s does not stop the loop; it gets the not-found reply |
| Converter.SessionAnswers | scripts/color_converter.py:37-54 | the converter answers each line in turn and stops at the first line that strips to nothing, or at the end of input |
| PyText.Strip | scripts/color_converter.py:38 | `strip` removes exactly the leading and trailing white space, as Python's `str.isspace` defines it |
| PyText.StripLower | scripts/color_converter.py:38 | stripping and lower-casing commute |
| PyText.ParseShowInt | scripts/generate_geojson.py:93 | `int()` reads back the decimal form of every integer |
| PyText.IntRefusesSeparators | scripts/color_store.py:69-72 | `int()` trims only the white space it skips, so a key or id that starts or ends with one of U+001C..U+001F is refused (the item is dropped), although `str.strip` would remove that character |
| Json.Trunc | scripts/generator_core.py:318-319 | `int()` on a float truncates toward zero |
| Order.Sort | scripts/generator_core.py:243 | the result is a sorted permutation of the input |
| Order.SortedPermutationsAgree | scripts/generator_core.py:243 | two sorted permutations agree when the key tells elements apart, so `sorted` has one answer |

## Left out

- The HTTP layer is not modelled: `RateLimiter`, `_get_with_retries`, sessions, headers and timeouts (scripts/generator_core.py:64-134). A body enters as a decoded `Option<Value>`.
- `fetch_towers` is not modelled separately: its body goes straight to the tower loop, with `[]` for a failed request.
- The thread pool is not modelled. The collector is the list of worker outcomes in any completion order, and `Ownership.AggregateOrderFree` shows that the order does not matter. The final `sorted(results)` is therefore not modelled. Comparing names of different types there would raise.
- Shapely is not modelled: polygon construction, `unary_union` merging, `merge_owner_geometries` and `emit_owner_features` (scripts/generator_core.py:384-573). A chunk stands for its outline. A merged shape is a `UnionOf(chunks)` or `Shape(owner)` placeholder. The union's failure is a boolean parameter.
- `build_adjacency`, `greedy_coloring` and `COLOR_PALETTE` are referenced at scripts/generate_geojson.py:212-213 but defined nowhere in the source, so they are not modelled.
- `Features.BuildFeaturesFromChunkMap` models the per-chunk fallback. `main` cannot reach it: it exits when Shapely is missing (scripts/generate_geojson.py:56-58), and the fallback runs only in that case (:224-226).
- The enrichment loop over owner ids is not modelled: the owner-id set, its sort key, the per-empire `fetch_empire` calls and the claims prefetch (scripts/generate_geojson.py:103-173). Only its outputs feed the capital-claim selection, which is modelled from `empire_info.values()` onward.
- The individual `fetch_claim` loop that follows `remaining` is not modelled; only the envelope of `fetch_claim` is (scripts/generate_geojson.py:190-206).
- `siege_points` is always empty in the source and is not modelled.
- argparse, logging, timing, `time.sleep`, the final `json.dump`, and the YAML parser and dumper are not modelled. A loaded YAML document is its list of items, or `NotAMapping` for anything else: a missing file, a parse error or `None`. `ColorStore.Dump` stands for what `safe_dump` followed by `safe_load` yields.
- In the converter, reading standard input, the prompt and `pyperclip.copy` are not modelled. A session is the list of lines read and the list of lines printed in answer. `KeyboardInterrupt` is not modelled.
- `PyText.Lower` lower-cases ASCII letters only. Python's `str.lower` also maps other letters, but none of them to a hex digit, so the converter finds the same keys.
- JSON numbers are exact reals; NaN and the infinities are not modelled.
- `PyText.ParseInt` reads ASCII digits only. Python's `int()` also accepts other Unicode decimal digits (for example full-width digits). It also reads strings of any length, where Python 3.11 and later raise `ValueError` above 4300 digits (`sys.int_info.default_max_str_digits`).
- Selection.EntryVerdict / Selection.SelectEmpires: an `entityId` string spelled with non-ASCII decimal digits is skipped, where the source would select it (see `PyText.ParseInt`).
- Selection.CapitalKey: a `capitalClaimId` string spelled with non-ASCII decimal digits adds the string itself, where the source adds its integer value.
- ColorStore.LoadItems / ColorStore.LoadStore: a YAML key spelled with non-ASCII decimal digits is dropped, where the source loads it under its integer value.
- Selection.ToOwner: only selected pairs whose name is a string become owner keys. A `null` or numeric name is passed on by the source, where `", ".join` at scripts/generator_core.py:249 raises `TypeError` and mixed-type sorting can raise too. Such names are not carried into `Towers.Owner`.
- Towers.FetchEmp follows the run without `--verbose`. With `verbose`, `len(towers)` is evaluated inside the `try` (scripts/generator_core.py:294-298); a `null`, numeric or bool towers payload then raises `TypeError` there, `towers` becomes `[]`, and the empire is kept with no towers instead of being dropped. The chunk map is the same either way.
- Coloring.ApplyColorsFromStore: node ids are already integers, so `int(empire_id)` never fails. A failed load becomes an empty store passed in. A failed save is not modelled.
- ColorStore.SavedColorComesBack covers bare colours only; dict values are covered by `ColorStore.SaveThenLoad`.
- Converter.LookupIgnoresHashes requires a line that does not start with white space. `#`s put in front of leading white space change what `strip` removes.
- ColorStore.SaveThenLoad requires the dump's id order to list each id of the mapping exactly once, as `safe_dump` does.
