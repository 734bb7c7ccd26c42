# GenomicOps: the catalog, region and liftOver core in Dafny

This project models the parts of GenomicOps that can be reasoned about without the network:

- **Region parsing.** `parse_region` turns a UCSC region string such as `chr1:1,000-2,000` into a chromosome and two integer coordinates, or raises `ValueError` with a message that quotes the input.
- **The species catalog.** `extract_ucsc_genomes` groups the raw `/list/ucscGenomes` listing by scientific name. It gives each record the common name of the first entry filed under it and one assembly per entry, sets the counts, and sorts the records by scientific name.
- **Catalog helpers.**
  - `get_species` copies the catalog.
  - `fetch_ucsc_genomes` decides between a cached catalog and a fresh one.
  - `list_ucsc_tracks` reduces a track listing to its top-level tracks.
- **Assembly lookup.** `get_assemblies` answers a species query against the catalog. It runs a case-insensitive exact pass, then an optional substring pass.
- **liftOver.**
  - Building the chain-file name, choosing the platform folder, and provisioning the liftOver binary and the chain file (`ensure_liftover_binary`, `ensure_chain_file`).
  - `lift_over` itself: it parses the region, resolves both files, writes a one-line BED file with a 0-based start, runs the tool, and turns the first output line back into a 1-based region string.

Files, one module each:

| file | content |
|---|---|
| `wrappers.dfy` | `Option` and `Result` |
| `text.dfy` | the Python `str` operations the core uses, over ASCII: `lower`, `upper`, `strip`, `split`, `replace(",", "")`, `in`, `int()`, `str()` for integers, and comparison |
| `region.dfy` | `parse_region` |
| `genomes.dfy` | raw listing entries, assemblies, species records |
| `species_order.dfy` | `sorted(..., key=scientificName)` as an insertion sort |
| `catalog.dfy` | `extract_ucsc_genomes` (an imperative method over a dictionary, proved equal to a specification function), `get_species`, and the cache decision of `fetch_ucsc_genomes` |
| `matching.dfy` | `get_assemblies` (a method with two loops, proved equal to a specification function) |
| `tracks.dfy` | the filter and response of `list_ucsc_tracks` |
| `liftover.dfy` | the file src/server/liftover.py |

Python dictionaries keep insertion order, so the map built by `extract_ucsc_genomes` is modelled as a Dafny `map` together with a sequence recording its key order. Their specification (`NameOrder`, `AssembliesOf`, `FirstCommon`) is written by recursion from the end of the listing, so that each loop iteration extends it.

The liftOver side is modelled with pure functions over an `Env` record, which holds:

- the base directory;
- a file system: the set of existing paths and the set of executable paths;
- the value of `platform.system()` and the `PYTEST_CURRENT_TEST` flag;
- the result of `shutil.which`;
- the outcomes of the two downloads;
- the liftOver program, as a function from the binary path, the BED text and the chain path to a process outcome.

Places where the model follows the code rather than its description:

- **Common-name fallback.** The common name falls back to the entry's own `genome` field, not to its genome id (`info.get("organism") or info.get("genome")`). That field may be absent, which leaves `commonName` as `None`.
- **Non-zero exit.** `subprocess.run(..., check=True)` raises on every non-zero exit. So a non-zero exit is always reported as `Execution failed: …`, and the `liftOver failed: …` branch at liftover.py:148-149 cannot be reached. `NonzeroExitIsExecutionFailure` states this.
- **`None` common name in lookup.** `entry.get("commonName", "")` returns `None` when a record's common name is `None`. The following `.lower()` then raises `AttributeError`. The model returns the outcome `NullCommonName` for this case. The substring pass can only be reached once every record has passed the exact pass, so it never hits this (`NullCommonNameOnlyInFirstPass`).
- **Chain name without `ensure_chain`.** `lift_over` with `ensure_chain=False` looks for `{from}To{to}.over.chain.gz` as given, with no case change. That is not the name `ensure_chain_file` downloads (`UnensuredChainNameDiffers`).
- **Listing shapes.** The docstring of `fetch_ucsc_genomes` mentions list-shaped listings, but `extract_ucsc_genomes` iterates `genomes.items()`, so the model takes the dictionary shape only.

## Model

| member | source | states |
|---|---|---|
| Text.Lower | genomicops/ucsc_rest.py:219 | `str.lower` keeps the length and maps every character through the ASCII lowercase mapping |
| Text.LowerIdempotent | genomicops/ucsc_rest.py:223-226 | lowering twice is lowering once |
| Text.Trim | src/server/liftover.py:30-31 | `str.strip` leaves no whitespace at either end |
| Text.TrimDecompose | src/server/liftover.py:30-31 | `str.strip` removes only whitespace: the input is whitespace, then the stripped string, then whitespace |
| Text.TrimPadded | src/server/liftover.py:30-31 | a string without whitespace at its ends, padded with whitespace on either side, strips back to itself |
| Text.TrimChars | src/server/liftover.py:30-31 | every character of the stripped string is a character of the input |
| Text.TrimNoEdgeSpace | src/server/liftover.py:30-31 | a string without whitespace at its ends is unchanged by `strip` |
| Text.TrimIdempotent | src/server/liftover.py:30-31 | stripping twice is stripping once |
| Text.TrimLower | src/server/liftover.py:30-34 | stripping and lowering commute |
| Text.TrimTrailingNewline | src/server/liftover.py:155 | `readline().strip()` removes the line's newline and nothing else from a line with non-blank ends |
| Text.Split | genomicops/ucsc_rest.py:20-21 | `str.split(sep)` always yields at least one field |
| Text.SplitCount | genomicops/ucsc_rest.py:20-21 | the number of fields is the number of separators plus one |
| Text.SplitJoin | genomicops/ucsc_rest.py:20-21 | joining the fields with the separator gives back the input, and no field contains the separator |
| Text.SplitTwo | genomicops/ucsc_rest.py:20-21 | `a + sep + b` with no separator in `a` or `b` splits into exactly `[a, b]` |
| Text.RemoveAll | genomicops/ucsc_rest.py:21 | `replace(",", "")` leaves no comma and keeps every other character |
| Text.RemoveAllConcat | genomicops/ucsc_rest.py:21 | removing commas distributes over concatenation |
| Text.RemoveAllIdempotent | genomicops/ucsc_rest.py:21 | removing commas twice is removing them once |
| Text.ParseInt | genomicops/ucsc_rest.py:21 | `int()` succeeds only on a string that is not blank |
| Text.ParseIntShape | genomicops/ucsc_rest.py:21 | an accepted string is, once stripped, an optional `+` or `-` followed by at least one decimal digit, and its value is that of the digits, negated after `-` |
| Text.ParseIntToString | src/server/liftover.py:137-157 | `int(str(i)) == i` for every integer |
| Text.ParseIntDigits | genomicops/ucsc_rest.py:21 | a non-empty run of decimal digits parses to its decimal value |
| Text.ParseIntNegativeDigits | genomicops/ucsc_rest.py:21 | a minus sign followed by digits parses to the negated value |
| Text.ParseIntNonNegative | genomicops/ucsc_rest.py:21 | a string without `-` never parses to a negative integer |
| Text.NatToStringValue | src/server/liftover.py:137 | the decimal digits printed for `n` have the value `n` |
| Text.LessIrreflexive | genomicops/ucsc_rest.py:182 | string order is irreflexive |
| Text.LessTransitive | genomicops/ucsc_rest.py:182 | string order is transitive |
| Text.LessTotal | genomicops/ucsc_rest.py:182 | two distinct strings are ordered one way or the other |
| Region.ParseRegion | genomicops/ucsc_rest.py:14-24 | every failure carries the message `Invalid region format: <input>. Use e.g. 'chr1:1000-2000'.` |
| Region.InvalidRegionQuotesInput | genomicops/ucsc_rest.py:24 | the error message contains the original input |
| Region.ParseRegionAccepts | genomicops/ucsc_rest.py:19-22 | one colon, then once commas are removed, one dash between two integers: the result is the chromosome and the two `int` values |
| Region.ParseRegionDecompose | genomicops/ucsc_rest.py:19-22 | conversely, every accepted region is of that shape, and the coordinates are what `int` reads from the two parts |
| Region.ParsedCoordinatesNonNegative | genomicops/ucsc_rest.py:21 | splitting on `-` leaves no room for a sign, so parsed coordinates are never negative |
| Region.ParseRegionRejectsColonCount | genomicops/ucsc_rest.py:20-24 | a region with no colon or with more than one is rejected with the quoting message |
| Region.ParseRegionRejectsDashCount | genomicops/ucsc_rest.py:21-24 | coordinates that, without commas, have no dash or more than one are rejected |
| Region.ParseRegionRejectsNonInteger | genomicops/ucsc_rest.py:21-24 | a part that `int` refuses makes the region invalid |
| Region.ParseRegionOfPlainCoordinates | genomicops/ucsc_rest.py:19-22 | coordinates without separators parse to their `int` values |
| Region.ParseFormatRoundTrip | genomicops/ucsc_rest.py:14-24 | printing a region as `chrom:start-end` and parsing it back is the identity, for every chromosome without a colon and all non-negative coordinates, including start > end |
| Region.ParseRegionIgnoresCommas | genomicops/ucsc_rest.py:21 | commas in the coordinate part change neither acceptance nor the result |
| Region.ParseRegionExample | genomicops/ucsc_rest.py:14-22 | `chr1:1000-2000` parses to `("chr1", 1000, 2000)` |
| Region.ParseRegionReversedExample | genomicops/ucsc_rest.py:19-22 | `chr1:2000-1000` is accepted: no order check |
| Region.ParseRegionInvalidExample | genomicops/ucsc_rest.py:23-24 | `invalid_region` is rejected with the quoting message |
| Genomes.TotalCountIsFlatLength | genomicops/ucsc_rest.py:179-180 | when every count is its assembly list's length, the counts add up to the number of assemblies |
| SpeciesOrder.SortPermutes | genomicops/ucsc_rest.py:182 | sorting is a permutation of the records |
| SpeciesOrder.SortAscending | genomicops/ucsc_rest.py:182 | records with distinct names come out strictly ascending by scientific name |
| SpeciesOrder.SortKeepsTotals | genomicops/ucsc_rest.py:182 | sorting keeps the total count and the multiset of assemblies |
| Catalog.ValuesInOrder | genomicops/ucsc_rest.py:179-182 | `species_map.values()` lists the record of each key, in key order |
| Catalog.GroupEntries | genomicops/ucsc_rest.py:155-177 | the grouping loop: the keys are the grouped names in first-seen order, and each name's record has its first entry's common name, a zero count, and its assemblies in listing order |
| Catalog.SetCounts | genomicops/ucsc_rest.py:179-180 | the count loop keeps the keys and sets each count to its assembly list's length, changing nothing else |
| Catalog.ExtractUcscGenomes | genomicops/ucsc_rest.py:137-182 | the method computes the catalog specification exactly |
| Catalog.DraftSnoc | genomicops/ucsc_rest.py:160-177 | one more entry creates a record for a new name, appends to a known one, and leaves every other name alone |
| Catalog.NameOrderFacts | genomicops/ucsc_rest.py:158-172 | the key order has no repeated name and holds exactly the names some entry is grouped under |
| Catalog.AbsentHasNoAssemblies | genomicops/ucsc_rest.py:166-177 | a name no entry is grouped under has no assemblies |
| Catalog.EntryFiledUnderOwnName | genomicops/ucsc_rest.py:174-177 | every grouped entry's assembly is filed under its own scientific name |
| Catalog.AssemblyComesFromEntry | genomicops/ucsc_rest.py:174-177 | every filed assembly is that of an entry grouped under the name |
| Catalog.FirstCommonIsFirstEntry | genomicops/ucsc_rest.py:161-172 | a record's common name is that of the first entry grouped under it, not of later ones |
| Catalog.GroupingKeepsAssemblies | genomicops/ucsc_rest.py:158-177 | grouping neither drops nor duplicates an assembly: the multiset of all records' assemblies is that of the grouped entries |
| Catalog.CatalogRecords | genomicops/ucsc_rest.py:155-182 | every catalog record is well formed (key = scientific name, non-empty, count = length of assemblies) and is the record of a name some entry is grouped under; a missing listing gives an empty catalog |
| Catalog.CatalogAscending | genomicops/ucsc_rest.py:182 | the catalog is strictly ascending by scientific name, so each species appears once |
| Catalog.CatalogTotals | genomicops/ucsc_rest.py:179-182 | the counts add up to the number of grouped entries, and the catalog's assemblies are, as a multiset, those of the grouped entries |
| Catalog.CatalogCoversEntry | genomicops/ucsc_rest.py:158-182 | every grouped entry's assembly appears in the record of its species, whose common name is that of the first such entry |
| Catalog.CatalogAssemblyOrigin | genomicops/ucsc_rest.py:174-177 | every assembly of a record carries the id of an entry grouped under its species, and that entry's description, or the id when the description is missing or empty |
| Catalog.GetSpecies | genomicops/ucsc_rest.py:184-205 | rebuilding every record field by field gives back the catalog unchanged, in the same order |
| Catalog.FetchUcscGenomes | genomicops/ucsc_rest.py:99-134 | the cached catalog is served exactly when caching is on and the file is younger than the TTL, readable and non-empty; otherwise the live listing is normalised into a strictly ascending catalog, written back exactly when caching is on, or the request's exception is raised |
| Catalog.CacheFreshness | genomicops/ucsc_rest.py:106-124 | a readable non-empty cache written at `t` is served with no request before `t + 86400` seconds, and from `t + 86400` on the live listing is fetched and normalised (or its exception raised) |
| Catalog.CacheFailureIsCold | genomicops/ucsc_rest.py:106-117 | with caching off, no cache file, an unreadable file or an empty one, the result is that of a cold fetch |
| Matching.GetAssemblies | genomicops/ucsc_rest.py:208-245 | the two loops return exactly the lookup specification: the first exact hit, else (when not exact) the first substring hit, else the not-found error |
| Matching.ExactPassFirst | genomicops/ucsc_rest.py:222-230 | records before the first exact hit do not affect the exact pass |
| Matching.ExactPassMiss | genomicops/ucsc_rest.py:222-230 | the exact pass misses exactly when every record has a common name and none matches |
| Matching.FirstExactMatchWins | genomicops/ucsc_rest.py:221-230 | the earliest record equal (ignoring case) to the query by scientific or common name is returned, whatever `exact` is |
| Matching.FirstFuzzyMatchWins | genomicops/ucsc_rest.py:232-242 | when the exact pass misses and `exact` is off, the earliest record whose scientific or common name contains the query (ignoring case) is returned |
| Matching.FuzzyPassFirst | genomicops/ucsc_rest.py:233-242 | records before the first substring hit do not affect the substring pass |
| Matching.NullCommonNameFails | genomicops/ucsc_rest.py:223-224 | reaching a record whose common name is `None` in the exact pass fails |
| Matching.FuzzyPassFound | genomicops/ucsc_rest.py:233-242 | a substring-pass hit is a record whose scientific or common name contains the query |
| Matching.FuzzyPassMiss | genomicops/ucsc_rest.py:233-242 | a substring-pass miss means no record's names contain the query |
| Matching.ExactHitIsFuzzyHit | genomicops/ucsc_rest.py:226-238 | an exact match is also a substring match |
| Matching.LookupFoundMatches | genomicops/ucsc_rest.py:219-242 | every answer names a record whose names contain the query, and equal it when `exact` is set |
| Matching.ExactPassHitIndex | genomicops/ucsc_rest.py:222-230 | an exact-pass hit is a record with a common name that equals the query by one of its names |
| Matching.LookupNotFound | genomicops/ucsc_rest.py:219-245 | not found exactly when every record has a common name, none matches exactly and, unless `exact`, none contains the query; the error quotes the query |
| Matching.NullCommonNameOnlyInFirstPass | genomicops/ucsc_rest.py:222-242 | the lookup fails on a `None` common name exactly when the exact pass does |
| Matching.FuzzyPassNoCrash | genomicops/ucsc_rest.py:233-242 | once every record has a common name, the substring pass cannot fail |
| Matching.ExactIsNarrower | genomicops/ucsc_rest.py:232-242 | whenever the exact lookup answers, the non-exact one gives the same answer |
| Matching.LookupIgnoresCase | genomicops/ucsc_rest.py:219-245 | the query's case does not change whether it is found, nor what is found; only the not-found message, which quotes the query as given, differs |
| Matching.PassesIgnoreCase | genomicops/ucsc_rest.py:219-242 | both passes depend only on the lowercased query |
| Tracks.Simplify | genomicops/ucsc_rest.py:74-82 | a simplified track carries its name as id and its `type` |
| Tracks.SimplifyTracks | genomicops/ucsc_rest.py:70-82 | the loop keeps the top-level tracks, in listing order, reduced to the seven fields |
| Tracks.ListUcscTracks | genomicops/ucsc_rest.py:57-93 | the three error objects (request failure, invalid JSON, assembly absent from the response), otherwise the genome, the track count and the tracks |
| Tracks.SimplifiedConcat | genomicops/ucsc_rest.py:71-82 | the filter keeps the listing's order |
| Tracks.SimplifiedCount | genomicops/ucsc_rest.py:84-88 | `track_count` is the number of top-level tracks and at most the number of listed names |
| Tracks.ListedIsKept | genomicops/ucsc_rest.py:72-73 | every object with a `type` key is kept |
| Tracks.KeptIsListed | genomicops/ucsc_rest.py:72-82 | every kept track comes from an object with a `type` key |
| Tracks.NoneListedIsEmpty | genomicops/ucsc_rest.py:70-73 | a listing of composite containers only gives no tracks |
| Liftover.ChainName | src/server/liftover.py:26-35 | the chain name is undefined (IndexError) exactly when the stripped target assembly is empty |
| Liftover.ChainNameExample | src/server/liftover.py:26-35 | `hg19` to `hg38` gives `hg19ToHg38.over.chain.gz` |
| Liftover.ChainNameSpacedExample | src/server/liftover.py:26-35 | `"  Hg19 "` to `" mm10 "` gives `hg19ToMm10.over.chain.gz`: padding and capitals are dropped |
| Liftover.ChainNameIgnoresSpace | src/server/liftover.py:30-31 | surrounding whitespace of either assembly does not change the name |
| Liftover.ChainNameIgnoresCase | src/server/liftover.py:34 | the case of either assembly does not change the name |
| Liftover.UnensuredChainNameDiffers | src/server/liftover.py:125-126 | for stripped lowercase names the file looked up without `ensure_chain` is not the one `ensure_chain_file` names |
| Liftover.DetectPlatformFolder | src/server/liftover.py:37-44 | the folder is `linux.x86_64` or `macOSX.x86_64`; the error names the lowercased system |
| Liftover.PlatformIgnoresCase | src/server/liftover.py:39 | the decision depends only on the lowercased system name |
| Liftover.PlatformLinux | src/server/liftover.py:40-41 | `Linux` selects `linux.x86_64` |
| Liftover.PlatformDarwin | src/server/liftover.py:42-43 | `Darwin` selects `macOSX.x86_64` |
| Liftover.PlatformUnsupported | src/server/liftover.py:39-44 | a system name without the letters of the three markers is refused with the lowercased name |
| Liftover.PlatformWindows | src/server/liftover.py:39-44 | `Windows` is refused |
| Liftover.EnsureLiftoverBinary | src/server/liftover.py:47-76 | the binary is reused exactly when not forced and present and executable; on success the binary path exists (and is executable unless under pytest); no other path changes; an unforced reuse, an unsupported platform or a failed download leaves the file system as it was; an installed binary was downloaded from `https://hgdownload.soe.ucsc.edu/admin/exe/<folder>/liftOver` for the detected folder |
| Liftover.EnsureBinaryIdempotent | src/server/liftover.py:55-56 | after a successful install that left the binary executable, the next unforced call reuses it without downloading |
| Liftover.EnsureChainFile | src/server/liftover.py:79-94 | an empty target fails with IndexError; the file is reused exactly when present and not forced; on success the chain path exists; nothing else changes; a reuse or a failed download leaves the file system as it was; an installed file was downloaded from the chain URL of the source assembly and the chain name |
| Liftover.EnsureChainReuseAndFailure | src/server/liftover.py:84-92 | after a success the next call reuses the file; a failure reports the chain URL and the cause |
| Liftover.ResolveBinary | src/server/liftover.py:109-117 | a resolved binary path exists, and with `ensure_binary` it is the managed path |
| Liftover.ResolveChain | src/server/liftover.py:119-128 | with `ensure_chain` the path is the managed name's; without, it is the unmodified name's and it exists |
| Liftover.ReadLine | src/server/liftover.py:155 | `readline()` returns a prefix of the file that ends at its first newline or at the end |
| Liftover.ReadLineStopsAtNewline | src/server/liftover.py:155 | a line is read up to and including its newline |
| Liftover.MapOutputLine | src/server/liftover.py:156-157 | a mapped line has at least three tab-separated fields |
| Liftover.NumeralHasNoWhitespace | src/server/liftover.py:137 | printed coordinates contain no tab or newline and have non-blank ends |
| Liftover.SplitOutputFields | src/server/liftover.py:156 | the first three tab fields of `chrom\tstart\tend…` are `chrom`, `start` and `end` |
| Liftover.MapOutputLineShift | src/server/liftover.py:154-157 | an output line `chrom\tstart\tend…` is reported as `chrom:(start+1)-end`, the 0-based start made 1-based again |
| Liftover.LineWithoutFieldsRaises | src/server/liftover.py:156 | a line without tabs cannot be unpacked into three fields, so no region is read from it |
| Liftover.TablessOutputRaises | src/server/liftover.py:151-157 | a run that exits normally with a non-empty output file whose first line has no tab makes `lift_over` raise the unpacking `ValueError` |
| Liftover.MapOutputLineExample | src/server/liftover.py:154-157 | the output line `chr1\t150\t250` is read as `chr1:151-250` |
| Liftover.RunLiftoverExample | src/server/liftover.py:131-159 | a run that exits normally and writes `chr1\t150\t250` lifts to `chr1:151-250`, echoing the region and both assemblies |
| Liftover.RunLiftover | src/server/liftover.py:131-159 | a lifted result echoes the region and both assemblies; the only exception is a malformed output line |
| Liftover.LiftOver | src/server/liftover.py:101-159 | a lifted result echoes the inputs; the fault is `InvalidRegion` exactly when the region does not parse |
| Liftover.InvalidRegionRaises | src/server/liftover.py:106 | an invalid region raises the parser's error before anything else is done |
| Liftover.BinaryFailureStops | src/server/liftover.py:109-117 | a missing binary stops with `Missing liftOver binary: …` or `liftOver binary not found` |
| Liftover.ChainFailureStops | src/server/liftover.py:119-128 | a missing chain file stops with `Missing chain file: …` or `Chain file not found: <path>` |
| Liftover.BlankTargetAssembly | src/server/liftover.py:119-123 | a blank target assembly with `ensure_chain` reports the `IndexError` as a missing chain file |
| Liftover.RunsOnResolvedFiles | src/server/liftover.py:131-142 | once both files resolve, the tool runs on the resolved binary, the BED line and the resolved chain |
| Liftover.NonzeroExitIsExecutionFailure | src/server/liftover.py:141-149 | every non-zero exit is `Execution failed: ` with the stripped stderr or, when that is blank, the exception text; `liftOver failed` is never reported |
| Liftover.NoOutputIsNoMapping | src/server/liftover.py:151-152 | a missing or empty output file is `No mapping found for <region> (<from>-><to>)` |
| Liftover.IdentityRunMapsBack | src/server/liftover.py:136-157 | writing the BED line and reading it back gives the region's own `chrom:start-end` |
| Liftover.IdentityLiftRoundTrip | src/server/liftover.py:131-159 | with a tool that copies its input, `lift_over` returns the input region, printed canonically |
| Liftover.LiftedRegionParsesBack | src/server/liftover.py:157 | the printed form of a parsed region parses back to it |

## Left out

- Network access: each HTTP request and download becomes a parameter. This covers `requests.get` and `raise_for_status`, JSON decoding, and `urllib.request.urlretrieve` with the move into place. The parameter is the request's outcome: the decoded value, or an exception with its text.
- `get_annotations` (genomicops/ucsc_rest.py:26-45) is a request and nothing else, apart from the `parse_region` it calls, so it is not modelled.
- Files and clocks:
  - the clock (`time.time()`) and the cache file's modification time are parameters;
  - writing the cache and the warning printed when that fails are not modelled beyond the `FromNetwork(writesCache)` flag;
  - temporary directories, `mkdir` and the module-level `os.makedirs` are not modelled;
  - the file system is just the set of existing paths and the set of executable ones.
- Process environment: `platform.system()`, `os.getenv("PYTEST_CURRENT_TEST")` and `shutil.which` are parameters. Running liftOver is a function parameter (`Env.tool`).
- Liftover.EnsureLiftoverBinary: a failed `shutil.move`, `stat` or `chmod` is folded into the download outcome, because they share one `except` clause and one message.
- Liftover.RunLiftover: the text of `str(CalledProcessError)` is a parameter of the process outcome (`report`). The model does not build that text.
- Liftover.ChainPath: paths are joined with `/`. `Path` joining of an absolute chain name, and normalisation of `..` or a duplicated `/`, are not modelled.
- Text.Lower: only ASCII letters change case. Python's full Unicode case mapping is not modelled.
- Text.Trim: ASCII whitespace only, the characters `str.isspace` accepts below 128: space, `\t`, `\n`, `\x0b`, `\x0c`, `\r` and the separators `\x1c` to `\x1f`. The other Unicode whitespace `strip` removes is not modelled.
- Text.ParseInt: covers an optional sign and ASCII decimal digits, after stripping. Underscores and non-ASCII digits, which Python's `int()` also accepts, are not modelled.
- Liftover.ReadLine: `\n` only. Universal-newline translation of `\r` and `\r\n` is not modelled.
- Catalog.GetSpecies: records are typed, so a record lacking a key is not modelled. For such a record `.get` would give `None`.
- Tracks.ListUcscTracks:
  - `InvalidJson` is kept for the `ValueError` branch, though it is most likely unreachable: with requests 2.27 or later a JSON decoding error is also a `RequestException`, so the first `except` catches it and reports `Failed to fetch tracks for …`;
  - values in the track metadata are kept as text;
  - `data[genome]` is taken to be an object;
  - an `AttributeError` from a non-object value is not modelled.
- Catalog.FetchUcscGenomes: the cache file's contents are a catalog, an unreadable file or an empty one. Other truthy JSON in the file would simply be returned by the source; the model does not cover it.
- src/server/liftover.py:9 imports `parse_region` from `server.ucsc_rest`, a module that is not part of this model. The model uses the `parse_region` of genomicops/ucsc_rest.py in its place.
- The MCP server, REST API and tool wrappers (src/server/api.py, src/server/mcp_server.py, src/server/tools.py, src/server/main.py) are not part of this model.
