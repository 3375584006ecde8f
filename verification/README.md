# Emissions graph loader — a Dafny model

This project models two Python tools.

The first is the loader `bin/load_emissions.py`. It turns a CSV spreadsheet of per-well emission readings into a property graph and uploads that graph in batches to a capture API. The loader's steps are:

- read the rows and skip those shorter than 21 cells;
- group the rows by well key, in order of first appearance;
- build one reading entry for each row and each of the four emission categories (Flaring, ColdVentilation, DieselFuel, FuelGas) whose volume or mass parses;
- sort the entries by the key (well key, category, date) in descending order, using Python's stable sort;
- emit the nodes: Well, Emissions, 4 EmissionType per well, then one reading node per entry;
- emit the relationships: HAS_EMISSIONS, HAS_TYPE, then one HAS_DATA or NEXT_DATE edge per entry, chaining each (well, category) series;
- cut the node list and then the relationship list into batches and post them through a thread pool, tallying completed and failed batches.

The second is the replay tool `bin/post_nodes_rels.py`. It reads one JSON document and classifies it as nodes or relationships, either by inspecting its shape or from `--type`. For nodes, it unwraps any `{"nodes": …}` nesting and posts the list wrapped once. For relationships, it posts the document unchanged.

Everything the tools take from outside is a parameter of the model:
- the SHA-256 hex digest;
- Python's `float()`;
- the file's base name;
- the clock;
- the HTTP POST. In the loader it is a verdict on each batch, given its number and its JSON payload, so two batches with equal payloads may fare differently. In the replay tool, which posts once, it is a verdict on the payload.

The model includes these Python behaviours:
- `str.strip()` strips Unicode whitespace.
- `str.zfill` keeps a leading sign in front of the zeros.
- `<` on `str` compares code points.
- `range(0, n, 0)` raises.
- A thread pool with no workers raises.
- A `0` given on the command line falls back to the environment's setting.
- `len()` raises on a number.

Modules, one per file:
- `Wrappers`, `Seqs`, `Json`, `Text`: shared types, sequence concatenation and filtering, JSON values and Python string primitives.
- `Identity`: the hashed external identities.
- `EmissionTypes`: the categories and the column table.
- `Properties`: the property-array conversion.
- `CsvRows`: reading and grouping the rows.
- `Readings`: dates and per-row entries.
- `EntryOrder`: the stable descending sort.
- `Graph`: nodes, edges and the linking loop.
- `GraphCounts`, `GraphClosure`, `ChainShape`: what the graph looks like.
- `Batching`: slicing, dispatch and tally.
- `Replay`: the replay tool.
- `Wire`: the JSON records the loader posts, and how the replay tool reads them back.

Three of the code's behaviours are worth knowing. They are proved here as they are, not corrected:

- The year is not padded, so year `1000` sorts below year `999`. This is `Readings.UnpaddedYearMisorders`. For four-digit years, string order is chronological (`Readings.IsoDateOrderIsChronological`).
- A well that reports the same date twice for one category gives a NEXT_DATE edge from a reading node to itself (`ChainShape.DuplicateDateSelfLoop`). Without such duplicates, the chains are acyclic (`ChainShape.ChainAcyclic`).
- The hashed string joins the key, the category and the date with `_`. Two different readings can therefore share an identity when a well key contains `_` (`Identity.UnderscoreKeysCanCollide`). When keys have no `_`, distinct subjects hash distinct strings (`Identity.SubjectInputInjective`).

Where the tools' documented behaviour and their code disagree, the model follows the code:
- Auto-detection in the replay tool looks at the first element of a list only, not at every element.
- A first element that looks like both a node and a relationship is classified as nodes.
- A dict whose `"nodes"` value is itself a dict is unclassified. With `--type nodes` it is unwrapped, because the loop descends through any dict that holds a `"nodes"` key, whatever that key's value is.
- The row-level error path for malformed dates cannot fire. The date parts are always strings, and nothing else in that `try` raises.

## Model

| member | source | states |
|---|---|---|
| Text.Strip | bin/load_emissions.py:32-34 | the stripped string is a slice of the input with only whitespace before and after it; it has no whitespace at either end; it is empty exactly when the input is all whitespace; an input with nothing to strip is returned unchanged |
| Text.StripIdempotent | bin/load_emissions.py:219-223 | stripping an already stripped cell changes nothing |
| Text.ZFill | bin/load_emissions.py:33-34 | zfill's width; an input at least as wide is unchanged; zeros are inserted after a leading sign, or at the front when there is none, and the rest of the input follows unchanged |
| Text.ZFillKeepsValue | bin/load_emissions.py:33-34 | zero-filling a digit string keeps it a digit string and keeps the number it denotes |
| Text.LessTotal | bin/load_emissions.py:408 | string order is total: one string is below the other or they are equal |
| Text.LessTransitive | bin/load_emissions.py:408 | string order is transitive |
| Text.LessConcat | bin/load_emissions.py:408 | strings that start with equally long parts compare by those parts first and by the remainders only when the parts agree |
| Text.LessDigits | bin/load_emissions.py:408 | on digit strings of equal length, string order is numeric order |
| Identity.ExternalIdShape | bin/load_emissions.py:40-47 | an identity is a prefix of the digest of `key_category_date`, 24 characters long for a digest of at least that length, so 24 lowercase hex characters for a well-formed digest |
| Identity.SubjectInputInjective | bin/load_emissions.py:44 | when well keys contain no underscore, distinct Emissions, EmissionType and reading subjects hash distinct strings |
| Identity.UnderscoreKeysCanCollide | bin/load_emissions.py:44 | with an underscore in the key, two distinct readings hash the same string |
| EmissionTypes.ColumnsOf | bin/load_emissions.py:246-271 | each category owns four consecutive columns (volume, unit, mass, unit), starting at column 5 + 4 × its position |
| EmissionTypes.ColumnsFor | bin/load_emissions.py:240-272 | the table looked up by name yields a category's columns, and nothing for a name that is not a category |
| EmissionTypes.ColumnsPartition | bin/load_emissions.py:246-271 | columns 5 to 20 are each owned by exactly one category |
| EmissionTypes.ColumnsInRange | bin/load_emissions.py:208 | every column the table names exists in a row of 21 cells or more |
| EmissionTypes.NameInjective | bin/load_emissions.py:305 | distinct categories have distinct names |
| Properties.ToArray | bin/load_emissions.py:50-67 | the array's names are exactly the kept keys, in order: metadata placeholders are skipped, and so are `None` and empty-string values; each entry carries its input value; it carries metadata exactly when the dict holds `_<name>_metadata`, and that value is the metadata |
| Properties.Convert | bin/load_emissions.py:53-66 | the conversion loop emits the kept names in input order, never more entries than keys |
| Properties.Get | bin/load_emissions.py:64-65 | a lookup finds a value exactly when the key is present, and in a dict with distinct keys it finds that key's value |
| Properties.ConvertEntries | bin/load_emissions.py:53-66 | every produced entry is a kept input entry carrying the metadata the whole dict holds for its name |
| Properties.ToArrayPlain | bin/load_emissions.py:50-67 | a dict without placeholders whose values are all present converts entry for entry, with no metadata |
| Properties.NameOnly | bin/load_emissions.py:418 | the `{"name": v}` dict of a Well, Emissions or EmissionType node gives one entry when `v` is present and none otherwise |
| CsvRows.LongLines | bin/load_emissions.py:207-210 | every line kept has at least 21 cells, and no more lines are kept than were read |
| CsvRows.LongLinesSound | bin/load_emissions.py:207-210 | every kept line is an input line |
| CsvRows.LongLinesComplete | bin/load_emissions.py:207-210 | every input line of at least 21 cells is kept |
| CsvRows.KeepRows | bin/load_emissions.py:218-225 | row k is the k-th long line read into a row: its name, key, year, month and day are the stripped cells 0 to 4, and it keeps the line's full cells |
| CsvRows.ReadRows | bin/load_emissions.py:200-227 | a table without a header line fails; otherwise the rows are the long-enough data lines after the header |
| CsvRows.KeepRowsExactly | bin/load_emissions.py:207-225 | every kept row comes from an input line, and every input line of at least 21 cells becomes a kept row |
| CsvRows.KeptRowFields | bin/load_emissions.py:218-223 | on a line of at least 21 cells, the length guards of the field lookups pass, so the name, key, year, month and day are the stripped cells 0 to 4 |
| CsvRows.GroupByWell | bin/load_emissions.py:230-237 | the dictionary loop computes the reference grouping (groups in first-appearance order, each holding its key's rows in order) |
| CsvRows.GroupingShape | bin/load_emissions.py:230-237 | every group is non-empty and holds only input rows of its key; keys are non-empty, pairwise distinct, and exactly the non-empty keys some row carries |
| CsvRows.KeysFirstEncounter | bin/load_emissions.py:232-236 | groups are ordered by first appearance: a row carrying a later group's key comes after some row of each earlier group |
| CsvRows.GroupingTotal | bin/load_emissions.py:233-236 | the groups together hold exactly as many rows as there are rows with a non-empty key |
| Readings.JoinDate | bin/load_emissions.py:35 | the joined date is the year, a dash, `zfill(month, 2)`, a dash and `zfill(day, 2)`, so the month and day segments are at least two characters wide |
| Readings.IsoDateShape | bin/load_emissions.py:28-35 | a four-digit year and a one- or two-digit month and day give a `YYYY-MM-DD` string that denotes the same year, month and day |
| Readings.IsoDateOrderIsChronological | bin/load_emissions.py:408 | for ISO dates, the string order the sort uses is chronological order |
| Readings.UnpaddedYearMisorders | bin/load_emissions.py:32 | year 1000 compares below year 999 |
| Readings.KeptRowCells | bin/load_emissions.py:345-365 | on a row of at least 21 cells, the length guards of every category's four lookups pass: the units are the stripped cells, and a value is `float()` of its stripped cell, absent when that cell is empty |
| Readings.EntryFor | bin/load_emissions.py:367-401 | a row yields an entry for a category exactly when its volume or its mass parses; the entry carries the well, the category and the date |
| Readings.EntryForDict | bin/load_emissions.py:367-394 | an entry's dict starts with the date; it holds `volume` or `mass` exactly when that value parses, and then the parsed number; it holds the value's metadata placeholder exactly when, in addition, its unit cell is non-empty, and then the unit's metadata record |
| Readings.ReadingDictValues | bin/load_emissions.py:370-394 | the property dict stores the date under `date`, each parsed number under `volume` or `mass`, and the unit's metadata record under `_volume_metadata` or `_mass_metadata` exactly when the value parsed and its unit is non-empty |
| Readings.UnitMetadataRecord | bin/load_emissions.py:375-382 | the metadata record holds the unit under `custom_metadata.units`, the file's base name as `source`, assurance level 3 and the run's timestamp followed by `Z` as `verified_time`, and nothing else |
| Readings.ReadingArray | bin/load_emissions.py:370-394 | the dict converts to the array date, volume, mass: each parsed number appears once, carrying its unit's metadata record when the unit is non-empty; the placeholders are not posted as properties; an empty date is dropped |
| Readings.EntryForArray | bin/load_emissions.py:367-446 | the reading node of an entry posts the date, then the parsed volume and the parsed mass, each with its unit's metadata record when the unit cell is non-empty |
| Readings.BarrelReading | bin/load_emissions.py:370-394 | a reading of 100.0 in `bbl` with no mass posts its date and a volume of 100.0 whose metadata names `bbl` |
| Readings.Dated | bin/load_emissions.py:339-341 | each row is paired with its own `create_date_string(year, month, day)`, in row order |
| Readings.RowEntries | bin/load_emissions.py:339-401 | one category yields one entry per row whose volume or mass parses, as many as such rows, all for that well and category |
| Readings.RowEntriesAt | bin/load_emissions.py:339-401 | when row i yields an entry, that entry sits at the position given by the number of earlier rows that yield one: the entries keep row order and none is dropped |
| Readings.RowEntriesExactly | bin/load_emissions.py:339-401 | an entry is among a category's entries exactly when some row yields it |
| Readings.TypesEntriesFlatten | bin/load_emissions.py:332-401 | a well's entries are its categories' entry lists concatenated, category after category |
| Readings.WellEntriesExactly | bin/load_emissions.py:332-401 | an entry belongs to a well's entries exactly when one of the well's rows yields it for some category |
| Readings.CollectedExactly | bin/load_emissions.py:323-401 | an entry is collected exactly when some row of some grouped well yields it for some category, that is, when that row's volume or mass for the category parses |
| EntryOrder.Insert | bin/load_emissions.py:408 | one insertion step adds exactly the inserted entry |
| EntryOrder.InsertSorted | bin/load_emissions.py:408 | inserting into a descending sequence keeps it descending |
| EntryOrder.InsertStable | bin/load_emissions.py:408 | the inserted entry lands after every entry with an equal key |
| EntryOrder.Sort | bin/load_emissions.py:408 | the sort permutes the entries |
| EntryOrder.SortSorted | bin/load_emissions.py:408 | the sorted entries are in descending key order |
| EntryOrder.SortStable | bin/load_emissions.py:408 | entries with equal keys keep their collection order |
| EntryOrder.KeyLessTransitive | bin/load_emissions.py:408 | the tuple-key order is transitive |
| EntryOrder.KeyLessTotal | bin/load_emissions.py:408 | any two tuple keys are ordered one way or the other, or are equal |
| Graph.LastIndex | bin/load_emissions.py:494-530 | the previous entry of a series is of that series, and no entry between it and the current one is |
| Graph.LinkChain | bin/load_emissions.py:494-530 | the loop with its series-to-latest-node dictionary emits, for every entry, HAS_DATA from the EmissionType node when the entry opens its series, and otherwise NEXT_DATE from the series' previous entry |
| Graph.Load | bin/load_emissions.py:200-205 | the import fails exactly when the table has no header line |
| GraphCounts.NodeBreakdown | bin/load_emissions.py:413-447 | with W wells and E entries there are 6W + E nodes: W Well, W Emissions, 4W EmissionType, and E nodes labelled Emission |
| GraphCounts.EdgeBreakdown | bin/load_emissions.py:464-530 | there are 5W + E relationships: W HAS_EMISSIONS, 4W HAS_TYPE, and E HAS_DATA or NEXT_DATE |
| GraphCounts.SeriesEdges | bin/load_emissions.py:494-530 | a series of k entries gets one HAS_DATA edge when k > 0 and k − 1 NEXT_DATE edges |
| GraphClosure.AssembleClosed | bin/load_emissions.py:413-530 | when every entry belongs to a grouped well, every relationship starts and ends at an emitted node |
| GraphClosure.BuildClosed | bin/load_emissions.py:501 | the loader's graph has no dangling endpoint, so the EmissionType lookup for a series' first entry always succeeds |
| GraphClosure.ChainEdgeClosed | bin/load_emissions.py:495-530 | the edge into an entry ends at that entry's node and starts at its series' EmissionType node or at an earlier reading node |
| ChainShape.SeriesContiguous | bin/load_emissions.py:408 | in sorted order, each (well, category) series is one contiguous run |
| ChainShape.SortedChainEdge | bin/load_emissions.py:495-530 | in sorted order, HAS_DATA enters the first entry of each run, and NEXT_DATE links every other entry to the entry just before it |
| ChainShape.NextDateOlder | bin/load_emissions.py:515-529 | a NEXT_DATE edge goes from an entry to one of the same series whose date is not later, and strictly earlier when the dates differ |
| ChainShape.HasDataLatest | bin/load_emissions.py:499-513 | HAS_DATA enters the series' latest entry |
| ChainShape.DuplicateDateSelfLoop | bin/load_emissions.py:515-529 | two entries with equal keys give a NEXT_DATE edge from a node to itself |
| ChainShape.PathAdvances | bin/load_emissions.py:515-529 | with distinct identities, each step along a walk of chain edges moves to the next entry |
| ChainShape.ChainAcyclic | bin/load_emissions.py:495-530 | with distinct identities, no walk along chain edges returns to its start |
| Batching.Effective | bin/load_emissions.py:661-662 | a non-zero command-line value is used; a missing or zero one falls back to the setting |
| Batching.DefaultTuning | bin/load_emissions.py:24-25 | with nothing on the command line or in the environment, batches hold 250 items and 6 threads run |
| Batching.TuningPrecedence | bin/load_emissions.py:661-662 | a non-zero command-line value wins; a zero one is the same as none; without one the environment value is used, or 250 and 6 when unset |
| Batching.ChunksFlatten | bin/load_emissions.py:553-554 | the batches put back together are the list |
| Batching.ChunksSizes | bin/load_emissions.py:553-554 | every batch holds 1 to `size` items, and only the last may hold fewer than `size` |
| Batching.ChunksCount | bin/load_emissions.py:556 | there are `(n + size - 1) // size` batches |
| Batching.ChunkAt | bin/load_emissions.py:553-554 | batch k exists exactly when `k * size < n`, and is Python's slice `items[k*size : (k+1)*size]` |
| Batching.BatchesShape | bin/load_emissions.py:552-557 | the batches are numbered 1, 2, …, each carries the batch count, and they hold the list in order, in slices of the batch size |
| Batching.PrepareBatches | bin/load_emissions.py:552-557 | the preparation loop yields exactly those batches for a positive size, and none for a negative size |
| Batching.Payload | bin/load_emissions.py:80-82 | nodes are posted as `{"nodes": items}` and nothing else; relationships are posted as the bare array |
| Batching.TallyCounts | bin/load_emissions.py:570-584 | completed counts the successes, failed counts the failures, and together they count every batch once |
| Batching.TallyOrderFree | bin/load_emissions.py:572 | the tally does not depend on the order in which batches finish |
| Batching.FailedAreRejected | bin/load_emissions.py:570-584 | the completed count is the number of positions holding a success, and the failed count the number holding a failure |
| Batching.OutcomeSets | bin/load_emissions.py:562-584 | tallying the prepared batches counts as completed exactly the slices whose POST, as batch k + 1, the sink accepts, and as failed exactly those it refuses |
| Batching.Dispatch | bin/load_emissions.py:546-586 | an empty list is skipped; a zero or negative size, or a non-positive thread count, raises; otherwise the completed and failed batches number `ceil(n / size)`, completed is the number of slices the sink accepts and failed the number it refuses |
| Batching.DryRunCompletes | bin/load_emissions.py:94-96 | when the sink never fails, every batch completes and none fails |
| Batching.UploadAll | bin/load_emissions.py:544-630 | relationships are uploaded after the nodes, unless the node phase raised |
| Wire.PropJson | bin/load_emissions.py:58-65 | a property entry has `type` and `value`, and `metadata` exactly when the property has metadata |
| Wire.NodeJson | bin/load_emissions.py:442-447 | a node record has `external_id`, `type` and `properties`, and `labels` only for a reading |
| Wire.EdgeJson | bin/load_emissions.py:466-529 | a relationship record has `source`, `target` and `type`, and does not look like a node |
| Wire.NodeBatchReplays | bin/post_nodes_rels.py:151-172 | a node batch the loader posts is classified as nodes by the replay tool and re-posted unchanged |
| Wire.RelationshipBatchReplays | bin/post_nodes_rels.py:151-172 | a non-empty relationship batch is classified as relationships, counted as its length, and re-posted unchanged |
| Wire.EmptyBatchUnclassified | bin/post_nodes_rels.py:160-172 | an empty relationship array is not classified |
| Wire.Import | bin/load_emissions.py:286-630 | the whole import, with the batch size and thread count `main` resolves, fails before any upload exactly when the table has no header line |
| Wire.ZeroFlagsIgnored | bin/load_emissions.py:661-662 | an import given `--batch-size 0 --max-threads 0` runs exactly as one given neither flag |
| Wire.UploadBatchCounts | bin/load_emissions.py:546-630 | for a positive size and thread count, each phase runs `ceil(count / size)` batches, or is skipped when the count is zero; the relationship phase always runs |
| Wire.PhaseRan | bin/load_emissions.py:546-586 | with a positive size and thread count a phase tallies exactly when it has something to upload, and then runs `ceil(n / size)` batches |
| Wire.AssembleBatchCounts | bin/load_emissions.py:546-630 | with W wells and E entries the graph has 6W + E nodes and 5W + E relationships, the node phase runs `ceil((6W + E) / size)` batches and the relationship phase `ceil((5W + E) / size)` |
| Replay.DetectType | bin/post_nodes_rels.py:151-172 | only a list is ever classified as relationships; only a dict or a non-empty list is classified at all |
| Replay.DetectDict | bin/post_nodes_rels.py:153-159 | a dict is classified as nodes exactly when its `"nodes"` value is a list or it has `external_id` and `type`; it is never classified as relationships |
| Replay.DetectList | bin/post_nodes_rels.py:160-170 | a list is classified by its first element alone, with the node shape taking precedence over the relationship shape |
| Replay.DoublyWrappedUnclassified | bin/post_nodes_rels.py:155 | `{"nodes": {"nodes": [...]}}` is not auto-detected |
| Replay.Unwrap | bin/post_nodes_rels.py:233-234 | the unwrap loop ends at a value without a `"nodes"` key, which is part of the input |
| Replay.UnwrapIdempotent | bin/post_nodes_rels.py:233-234 | unwrapping twice is unwrapping once |
| Replay.UnwrapWrapped | bin/post_nodes_rels.py:233-234 | wrapping under `"nodes"` once more changes nothing |
| Replay.NodeItems | bin/post_nodes_rels.py:230-243 | the posted list is the unwrapped list; otherwise it is `[x]` for a truthy value and `[]` for a falsy one; it is always a list |
| Replay.NodeItemsRoundTrip | bin/post_nodes_rels.py:230-238 | unwrapping the posted node payload gives back the posted list |
| Replay.RelCount | bin/post_nodes_rels.py:96-101 | counting fails exactly when the `"relationships"` value is `null`, a boolean or a number; otherwise the count is that value's length, the length of a list, or 1 |
| Replay.PostAs | bin/post_nodes_rels.py:230-270 | status 0 exactly when a payload was posted and accepted; nodes go out as `{"nodes": items}`; relationships go out unchanged, unless counting them fails first |
| Replay.Run | bin/post_nodes_rels.py:219-227 | an explicit `--type` is used as given |
| Replay.AutoDetect | bin/post_nodes_rels.py:219-227 | without `--type` the detected kind is used, and an unclassified document ends with status 1 and nothing posted |

## Left out

- The HTTP layer (URLs, headers, the token, the host, SSL verification, response decoding, status codes). Posting is a sink that accepts or rejects a batch, given its number and payload. A non-2xx status, a network error and a raised exception are all a rejection.
- Printing, logging, the failed-payload dumps to standard error and tracebacks.
- SHA-256. The digest is a parameter; the model only slices the first 24 characters.
- Python's `float()` is a parameter `parse`. The model does not cover which strings it accepts, or floating-point values themselves; readings are reals.
- `os.path.basename` and `datetime.now().isoformat()` are plain string parameters.
- Reading files, and the CSV, JSON, command-line and `.env` parsers. The input is the table of cells `csv.reader` yields, or the decoded JSON document.
- An `int()` failure on a malformed `BATCH_SIZE` or `MAX_THREADS` is not modelled; `Batching.Tuning` holds the parsed values.
- The checks in `main` that come before any work: a missing CSV path, a missing file, a missing token or host, and the replay tool's unreadable or invalid JSON file. Each of these ends the run before anything this model covers.
- The thread pool's concurrency and the completion order of `as_completed`. The tally is a fold over the outcomes, and `Batching.TallyOrderFree` shows that the order does not matter.
- The except branches and the dead type check that cannot fire are not modelled. The except branches are at load_emissions.py lines 36-37, 402-404, 582-584 and 626-628; `process_batch` catches every error itself. The dead check is the `if not isinstance(items, list)` at post_nodes_rels.py lines 240-242.
- The `batch_size is not None` defaults of `process_emissions_data` are not modelled, because `main` always passes both values.
- `get_emission_type_display_name` and the node and relationship breakdown printouts are not modelled, because they affect nothing that is posted.
- JSON integers and floats are one `Num` kind, so `assurance_level` 3 is the number 3.
- Dicts in the replay tool are maps, because key order plays no part in classifying, unwrapping or counting. The loader's property dicts keep their insertion order.
- Batching.PrepareBatches: requires a non-zero size, because `range` raises on a zero step. `Batching.Dispatch` models that error as `Raised`.
- ChainShape.ChainAcyclic: assumes that distinct entries have distinct reading identities (`DistinctIds`), because the digest is a parameter. A repeated date breaks this, as `ChainShape.DuplicateDateSelfLoop` shows.
- ChainShape.PathAdvances: assumes the same distinct-identity hypothesis as `ChainShape.ChainAcyclic`.
- GraphClosure.AssembleClosed: requires that every entry belongs to a grouped well. `GraphClosure.BuildClosed` shows that the collected entries do.
- Wire.RelationshipBatchReplays: requires a non-empty batch. The loader never posts an empty one, and `Wire.EmptyBatchUnclassified` shows that an empty one would not be classified.
- Identity.SubjectInputInjective: requires well keys without an underscore. `Identity.UnderscoreKeysCanCollide` shows why.
