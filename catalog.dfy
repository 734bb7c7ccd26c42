/** The species catalog: `extract_ucsc_genomes`, which groups the raw
    `ucscGenomes` listing by scientific name, `get_species`, and the cache
    decision of `fetch_ucsc_genomes` (genomicops/ucsc_rest.py). */
module Catalog {
  import opened Wrappers
  import opened Text
  import opened Genomes
  import opened SpeciesOrder

  // ---------------------------------------------------------------
  // Specification of the normalised catalog
  // ---------------------------------------------------------------

  /** `data.get("ucscGenomes", {})`: a missing listing is an empty one. */
  function Entries(data: Option<seq<Entry>>): seq<Entry> {
    if data.Some? then data.value else []
  }

  /** The scientific names in the order they are first met: the key order
      of the dictionary the source builds. */
  function NameOrder(xs: seq<Entry>): seq<string> {
    if xs == [] then []
    else
      var pre := NameOrder(xs[..|xs| - 1]);
      var e := xs[|xs| - 1];
      if Grouped(e) && SciName(e) !in pre then pre + [SciName(e)] else pre
  }

  /** The assemblies of the entries grouped under `name`, in listing order. */
  function AssembliesOf(xs: seq<Entry>, name: string): seq<Assembly> {
    if xs == [] then []
    else
      var e := xs[|xs| - 1];
      AssembliesOf(xs[..|xs| - 1], name) + (if Named(e, name) then [AssemblyOf(e)] else [])
  }

  /** The common name taken from the first entry grouped under `name`. */
  function FirstCommon(xs: seq<Entry>, name: string): Option<string> {
    if xs == [] then None
    else
      var e := xs[|xs| - 1];
      if name in NameOrder(xs[..|xs| - 1]) then FirstCommon(xs[..|xs| - 1], name)
      else if Named(e, name) then CommonNameOf(e.1)
      else None
  }

  /** The record for `name` before its count is filled in. */
  function Draft(xs: seq<Entry>, name: string): Species {
    Species(name, name, FirstCommon(xs, name), 0, AssembliesOf(xs, name))
  }

  /** The finished record for `name`. */
  function SpeciesFor(xs: seq<Entry>, name: string): Species {
    Species(name, name, FirstCommon(xs, name), |AssembliesOf(xs, name)|, AssembliesOf(xs, name))
  }

  function Records(xs: seq<Entry>, names: seq<string>): (r: seq<Species>)
    ensures |r| == |names|
    ensures forall k :: 0 <= k < |names| ==> r[k] == SpeciesFor(xs, names[k])
  {
    if names == [] then [] else [SpeciesFor(xs, names[0])] + Records(xs, names[1..])
  }

  /** The normalised catalog of a `/list/ucscGenomes` response. */
  function Catalog(data: Option<seq<Entry>>): seq<Species> {
    var xs := Entries(data);
    SortByName(Records(xs, NameOrder(xs)))
  }

  /** One assembly per grouped entry, in listing order. */
  function GroupedAssemblies(xs: seq<Entry>): (r: seq<Assembly>)
    ensures |r| == CountGrouped(xs)
  {
    if xs == [] then []
    else
      var e := xs[|xs| - 1];
      GroupedAssemblies(xs[..|xs| - 1]) + (if Grouped(e) then [AssemblyOf(e)] else [])
  }

  /** The number of entries with a non-empty scientific name. */
  function CountGrouped(xs: seq<Entry>): nat {
    if xs == [] then 0
    else CountGrouped(xs[..|xs| - 1]) + (if Grouped(xs[|xs| - 1]) then 1 else 0)
  }

  // ---------------------------------------------------------------
  // extract_ucsc_genomes
  // ---------------------------------------------------------------

  /** `species_map.values()`: the records in key order. */
  function ValuesInOrder(m: map<string, Species>, order: seq<string>): (r: seq<Species>)
    requires forall k :: 0 <= k < |order| ==> order[k] in m
    ensures |r| == |order|
    ensures forall k :: 0 <= k < |order| ==> r[k] == m[order[k]]
  {
    if order == [] then [] else [m[order[0]]] + ValuesInOrder(m, order[1..])
  }

  /** The first loop of `extract_ucsc_genomes`: file every grouped entry's
      assembly under its scientific name, creating the record (with the
      entry's common name and a zero count) when the name is new. The
      dictionary's key order is returned beside it. */
  method GroupEntries(genomes: seq<Entry>) returns (speciesMap: map<string, Species>, order: seq<string>)
    ensures order == NameOrder(genomes)
    ensures forall n :: n in speciesMap <==> n in order
    ensures forall n :: n in speciesMap ==> speciesMap[n] == Draft(genomes, n)
  {
    speciesMap, order := map[], [];
    var i := 0;
    while i < |genomes|
      invariant 0 <= i <= |genomes|
      invariant order == NameOrder(genomes[..i])
      invariant forall n :: n in speciesMap <==> n in order
      invariant forall n :: n in speciesMap ==> speciesMap[n] == Draft(genomes[..i], n)
    {
      ghost var p, e := genomes[..i], genomes[i];
      var (genomeId, info) := genomes[i];
      var sci := info.scientificName;
      var common := CommonNameOf(info);
      assert genomes[..i + 1] == p + [e];
      forall n ensures Draft(genomes[..i + 1], n) == DraftAfter(p, e, n) {
        DraftSnoc(p, e, n);
      }
      NameOrderSnoc(p, e);
      if sci.Some? && sci.value != "" {
        var name := sci.value;
        assert Named(e, name);
        if name !in speciesMap {
          speciesMap := speciesMap[name := Species(name, name, common, 0, [])];
          order := order + [name];
        }
        var rec := speciesMap[name];
        var entry := Assembly(genomeId, if Truthy(info.description) then info.description.value else genomeId);
        assert entry == AssemblyOf(e);
        speciesMap := speciesMap[name := rec.(assemblies := rec.assemblies + [entry])];
        assert speciesMap[name] == DraftAfter(p, e, name);
      } else {
        assert forall n :: !Named(e, n);
      }
      i := i + 1;
    }
    assert genomes[..i] == genomes;
  }

  /** The second loop of `extract_ucsc_genomes`: set the count of every
      record, in key order, to the length of its assembly list. */
  method SetCounts(speciesMap: map<string, Species>, order: seq<string>) returns (counted: map<string, Species>)
    requires forall n :: n in speciesMap <==> n in order
    ensures counted.Keys == speciesMap.Keys
    ensures forall n :: n in counted ==>
      counted[n] == speciesMap[n].(count := |speciesMap[n].assemblies|)
  {
    counted := speciesMap;
    var j := 0;
    while j < |order|
      invariant 0 <= j <= |order|
      invariant counted.Keys == speciesMap.Keys
      invariant forall n :: n in counted ==>
        counted[n] == if n in order[..j] then speciesMap[n].(count := |speciesMap[n].assemblies|) else speciesMap[n]
    {
      var name := order[j];
      var rec := counted[name];
      counted := counted[name := rec.(count := |rec.assemblies|)];
      assert order[..j + 1] == order[..j] + [name];
      j := j + 1;
    }
    assert order[..j] == order;
  }

  /** `extract_ucsc_genomes`: group the entries by scientific name in a
      dictionary (recording its key order), append each entry's assembly to
      its record, then set every count and sort by scientific name. */
  method ExtractUcscGenomes(data: Option<seq<Entry>>) returns (catalog: seq<Species>)
    ensures catalog == Catalog(data)
  {
    var genomes := if data.Some? then data.value else [];
    var drafts, order := GroupEntries(genomes);
    var speciesMap := SetCounts(drafts, order);
    var values := ValuesInOrder(speciesMap, order);
    assert values == Records(genomes, order);
    catalog := SortByName(values);
  }

  // ---------------------------------------------------------------
  // Properties of the grouping
  // ---------------------------------------------------------------

  /** The draft record of `n` once entry `e` has been appended to `p`. */
  function DraftAfter(p: seq<Entry>, e: Entry, n: string): Species {
    if !Named(e, n) then Draft(p, n)
    else if n in NameOrder(p) then Draft(p, n).(assemblies := Draft(p, n).assemblies + [AssemblyOf(e)])
    else Species(n, n, CommonNameOf(e.1), 0, [AssemblyOf(e)])
  }

  /** One step of the grouping loop on the key order. */
  lemma NameOrderSnoc(p: seq<Entry>, e: Entry)
    ensures NameOrder(p + [e])
            == if Grouped(e) && SciName(e) !in NameOrder(p) then NameOrder(p) + [SciName(e)] else NameOrder(p)
  {
    assert (p + [e])[..|p|] == p;
  }

  /** One step of the grouping loop on the records: a new name starts a
      record with the entry's common name, a known one gains an assembly. */
  lemma DraftSnoc(p: seq<Entry>, e: Entry, n: string)
    ensures Draft(p + [e], n) == DraftAfter(p, e, n)
  {
    assert (p + [e])[..|p|] == p;
    if Named(e, n) && n !in NameOrder(p) {
      AbsentHasNoAssemblies(p, n);
    }
  }

  /** The key order lists each grouped name exactly once: a name is in it
      exactly when some entry is grouped under it. */
  lemma {:induction false} NameOrderFacts(xs: seq<Entry>)
    ensures forall i, j :: 0 <= i < j < |NameOrder(xs)| ==> NameOrder(xs)[i] != NameOrder(xs)[j]
    ensures forall n :: n in NameOrder(xs) <==> exists i :: 0 <= i < |xs| && Named(xs[i], n)
  {
    if xs != [] {
      var p := xs[..|xs| - 1];
      NameOrderFacts(p);
      forall n
        ensures n in NameOrder(xs) <==> exists i :: 0 <= i < |xs| && Named(xs[i], n)
      {
        if n in NameOrder(xs) && n in NameOrder(p) {
          var i :| 0 <= i < |p| && Named(p[i], n);
          assert xs[i] == p[i];
        }
        if i :| 0 <= i < |xs| && Named(xs[i], n) {
          if i < |p| {
            assert p[i] == xs[i];
          }
        }
      }
    }
  }

  /** A name no entry is grouped under has no assemblies. */
  lemma {:induction false} AbsentHasNoAssemblies(xs: seq<Entry>, name: string)
    requires name !in NameOrder(xs)
    ensures AssembliesOf(xs, name) == []
  {
    if xs != [] {
      var p := xs[..|xs| - 1];
      AbsentHasNoAssemblies(p, name);
    }
  }

  /** Every grouped entry's assembly is filed under that entry's own
      scientific name. */
  lemma {:induction false} EntryFiledUnderOwnName(xs: seq<Entry>, i: nat)
    requires i < |xs| && Grouped(xs[i])
    ensures AssemblyOf(xs[i]) in AssembliesOf(xs, SciName(xs[i]))
  {
    var p := xs[..|xs| - 1];
    if i < |p| {
      assert p[i] == xs[i];
      EntryFiledUnderOwnName(p, i);
    }
  }

  /** Conversely, every assembly filed under `name` is that of an entry
      grouped under `name`: its genome id, and its description or, failing
      that, its id. */
  lemma {:induction false} AssemblyComesFromEntry(xs: seq<Entry>, name: string, a: Assembly)
    requires a in AssembliesOf(xs, name)
    ensures exists i :: 0 <= i < |xs| && Named(xs[i], name) && a == AssemblyOf(xs[i])
  {
    var p := xs[..|xs| - 1];
    if a in AssembliesOf(p, name) {
      AssemblyComesFromEntry(p, name, a);
      var i :| 0 <= i < |p| && Named(p[i], name) && a == AssemblyOf(p[i]);
      assert xs[i] == p[i];
    } else {
      assert Named(xs[|xs| - 1], name) && a == AssemblyOf(xs[|xs| - 1]);
    }
  }

  /** The common name of a species is the one of the first entry grouped
      under it. */
  lemma {:induction false} FirstCommonIsFirstEntry(xs: seq<Entry>, i: nat)
    requires i < |xs| && Grouped(xs[i])
    requires forall k :: 0 <= k < i ==> !Named(xs[k], SciName(xs[i]))
    ensures FirstCommon(xs, SciName(xs[i])) == CommonNameOf(xs[i].1)
  {
    var p := xs[..|xs| - 1];
    var name := SciName(xs[i]);
    NameOrderFacts(p);
    if i < |p| {
      assert p[i] == xs[i];
      assert name in NameOrder(p);
      FirstCommonIsFirstEntry(p, i);
    }
  }

  lemma {:induction false} FlattenRecordsSnocName(xs: seq<Entry>, names: seq<string>, name: string)
    ensures Flatten(Records(xs, names + [name])) == Flatten(Records(xs, names)) + AssembliesOf(xs, name)
  {
    if names == [] {
      assert Records(xs, [name]) == [SpeciesFor(xs, name)];
    } else {
      assert (names + [name])[1..] == names[1..] + [name];
      FlattenRecordsSnocName(xs, names[1..], name);
    }
  }

  /** Adding one entry at the end of the listing adds its assembly, once,
      to the record of its name (when that name is among `names`). */
  lemma {:induction false} FlattenRecordsSnocEntry(p: seq<Entry>, e: Entry, names: seq<string>)
    requires forall i, j :: 0 <= i < j < |names| ==> names[i] != names[j]
    ensures multiset(Flatten(Records(p + [e], names)))
            == multiset(Flatten(Records(p, names)))
               + (if Grouped(e) && SciName(e) in names then multiset{AssemblyOf(e)} else multiset{})
  {
    if names != [] {
      var xs := p + [e];
      assert xs[..|xs| - 1] == p;
      FlattenRecordsSnocEntry(p, e, names[1..]);
      if Grouped(e) && SciName(e) == names[0] {
        assert SciName(e) !in names[1..];
      } else {
        assert Grouped(e) && SciName(e) in names ==> SciName(e) in names[1..];
      }
    }
  }

  /** Grouping neither drops nor duplicates a grouped entry: the assemblies
      of all records are, as a multiset, those of the grouped entries. */
  lemma {:induction false} GroupingKeepsAssemblies(xs: seq<Entry>)
    ensures multiset(Flatten(Records(xs, NameOrder(xs)))) == multiset(GroupedAssemblies(xs))
  {
    if xs != [] {
      var p := xs[..|xs| - 1];
      var e := xs[|xs| - 1];
      assert xs == p + [e];
      GroupingKeepsAssemblies(p);
      NameOrderFacts(p);
      FlattenRecordsSnocEntry(p, e, NameOrder(p));
      if Grouped(e) && SciName(e) !in NameOrder(p) {
        FlattenRecordsSnocName(xs, NameOrder(p), SciName(e));
        AbsentHasNoAssemblies(p, SciName(e));
      }
    }
  }

  // ---------------------------------------------------------------
  // Properties of the normalised catalog
  // ---------------------------------------------------------------

  /** Every record of the catalog is well formed (`speciesKey` is the
      scientific name, which is non-empty, and `count` is the number of
      assemblies), is the record of a name some entry is grouped under,
      and lists exactly that name's assemblies in listing order. A missing
      listing gives the empty catalog. */
  lemma CatalogRecords(data: Option<seq<Entry>>)
    ensures forall k :: 0 <= k < |Catalog(data)| ==>
      && WellFormed(Catalog(data)[k])
      && Catalog(data)[k] == SpeciesFor(Entries(data), Catalog(data)[k].scientificName)
      && Catalog(data)[k].scientificName in NameOrder(Entries(data))
    ensures data.None? ==> Catalog(data) == []
  {
    var xs := Entries(data);
    var recs := Records(xs, NameOrder(xs));
    SortPermutes(recs);
    NameOrderFacts(xs);
    forall k | 0 <= k < |Catalog(data)|
      ensures WellFormed(Catalog(data)[k])
      ensures Catalog(data)[k] == SpeciesFor(xs, Catalog(data)[k].scientificName)
      ensures Catalog(data)[k].scientificName in NameOrder(xs)
    {
      var r := Catalog(data)[k];
      assert r in multiset(recs);
      var m :| 0 <= m < |recs| && recs[m] == r;
      var name := NameOrder(xs)[m];
      assert name in NameOrder(xs);
      var i :| 0 <= i < |xs| && Named(xs[i], name);
    }
  }

  /** The catalog is strictly ascending by scientific name, so no two
      records share one. */
  lemma CatalogAscending(data: Option<seq<Entry>>)
    ensures StrictlyAscending(Catalog(data))
  {
    var xs := Entries(data);
    NameOrderFacts(xs);
    SortAscending(Records(xs, NameOrder(xs)));
  }

  /** The counts add up to the number of entries with a non-empty
      scientific name, and the assemblies of the catalog are, with their
      multiplicities, those of exactly these entries. */
  lemma CatalogTotals(data: Option<seq<Entry>>)
    ensures TotalCount(Catalog(data)) == CountGrouped(Entries(data))
    ensures multiset(Flatten(Catalog(data))) == multiset(GroupedAssemblies(Entries(data)))
  {
    var xs := Entries(data);
    var recs := Records(xs, NameOrder(xs));
    GroupingKeepsAssemblies(xs);
    SortKeepsTotals(recs);
    TotalCountIsFlatLength(recs);
    assert |multiset(Flatten(recs))| == |Flatten(recs)|;
    assert |multiset(GroupedAssemblies(xs))| == |GroupedAssemblies(xs)|;
  }

  /** Each entry with a non-empty scientific name shows up in the record of
      that name, with its genome id and its description (or its id when the
      description is missing or empty); if it is the first entry of its
      name, the record's common name is its organism (or its `genome`
      field). */
  lemma CatalogCoversEntry(data: Option<seq<Entry>>, i: nat)
    requires i < |Entries(data)| && Grouped(Entries(data)[i])
    ensures exists j :: (0 <= j < |Catalog(data)|
      && Catalog(data)[j].scientificName == SciName(Entries(data)[i])
      && AssemblyOf(Entries(data)[i]) in Catalog(data)[j].assemblies)
    ensures (forall k :: 0 <= k < i ==> !Named(Entries(data)[k], SciName(Entries(data)[i]))) ==>
      forall j :: 0 <= j < |Catalog(data)| && Catalog(data)[j].scientificName == SciName(Entries(data)[i]) ==>
        Catalog(data)[j].commonName == CommonNameOf(Entries(data)[i].1)
  {
    var xs := Entries(data);
    var name := SciName(xs[i]);
    var recs := Records(xs, NameOrder(xs));
    NameOrderFacts(xs);
    assert name in NameOrder(xs);
    var m :| 0 <= m < |NameOrder(xs)| && NameOrder(xs)[m] == name;
    SortPermutes(recs);
    assert recs[m] in multiset(Catalog(data));
    var j :| 0 <= j < |Catalog(data)| && Catalog(data)[j] == recs[m];
    EntryFiledUnderOwnName(xs, i);
    CatalogRecords(data);
    if forall k :: 0 <= k < i ==> !Named(xs[k], name) {
      FirstCommonIsFirstEntry(xs, i);
    }
  }

  /** Every assembly in a record comes from an entry grouped under that
      record's scientific name. */
  lemma CatalogAssemblyOrigin(data: Option<seq<Entry>>, j: nat, a: Assembly)
    requires j < |Catalog(data)| && a in Catalog(data)[j].assemblies
    ensures exists i :: (0 <= i < |Entries(data)|
      && Named(Entries(data)[i], Catalog(data)[j].scientificName)
      && a.genome == Entries(data)[i].0
      && a.assemblyName == (if Truthy(Entries(data)[i].1.description)
                            then Entries(data)[i].1.description.value
                            else Entries(data)[i].0))
  {
    CatalogRecords(data);
    AssemblyComesFromEntry(Entries(data), Catalog(data)[j].scientificName, a);
  }

  // ---------------------------------------------------------------
  // get_species
  // ---------------------------------------------------------------

  /** `get_species`: a fresh list with a copy of every record, in order. */
  method GetSpecies(genomes: seq<Species>) returns (species: seq<Species>)
    ensures species == genomes
  {
    species := [];
    var i := 0;
    while i < |genomes|
      invariant 0 <= i <= |genomes|
      invariant species == genomes[..i]
    {
      var s := genomes[i];
      var assemblies := seq(|s.assemblies|, k requires 0 <= k < |s.assemblies| =>
        Assembly(s.assemblies[k].genome, s.assemblies[k].assemblyName));
      assert assemblies == s.assemblies;
      species := species + [Species(s.speciesKey, s.scientificName, s.commonName, s.count, assemblies)];
      i := i + 1;
    }
  }

  // ---------------------------------------------------------------
  // The cache decision of fetch_ucsc_genomes
  // ---------------------------------------------------------------

  /** `CACHE_TTL`: 24 hours, in seconds. */
  const CacheTtl: real := 86400.0

  /** The cache file as `fetch_ucsc_genomes` finds it: absent, or present
      with its modification time and what reading it gives (`None` when the
      file cannot be read or parsed). */
  datatype CacheFile = NoCacheFile | CacheFile(mtime: real, contents: Option<seq<Species>>)

  datatype Source = FromCache | FromNetwork(writesCache: bool)

  datatype Fetched = Served(catalog: seq<Species>, source: Source) | Raised(reason: string)

  /** `fetch_ucsc_genomes` at time `now`: the cache is used only when asked
      for, younger than the TTL, readable and non-empty; otherwise the live
      listing (or the request's exception) decides, and a fresh catalog is
      written back when caching is on (a failed write only warns). */
  function FetchUcscGenomes(useCache: bool, cache: CacheFile, now: real,
                            live: Result<Option<seq<Entry>>, string>): (r: Fetched)
    ensures r.Served? && r.source.FromCache? <==> CacheUsable(useCache, cache, now)
    ensures r.Served? && r.source.FromCache? ==> r.catalog == cache.contents.value && r.catalog != []
    ensures r.Served? && r.source.FromNetwork? ==>
      live.Ok? && r.catalog == Catalog(live.value) && r.source.writesCache == useCache
      && StrictlyAscending(r.catalog)
    ensures r.Raised? <==> !CacheUsable(useCache, cache, now) && live.Err?
    ensures r.Raised? ==> r.reason == live.error
  {
    if CacheUsable(useCache, cache, now)
    then Served(cache.contents.value, FromCache)
    else match live
      case Ok(data) => CatalogAscending(data); Served(Catalog(data), FromNetwork(useCache))
      case Err(reason) => Raised(reason)
  }

  /** The cache is used when asked for, younger than the TTL, readable and
      non-empty. */
  predicate CacheUsable(useCache: bool, cache: CacheFile, now: real) {
    useCache && cache.CacheFile? && now - cache.mtime < CacheTtl
    && cache.contents.Some? && cache.contents.value != []
  }

  /** A cache file written at `t` is served, with no network access, at any
      time before `t + CACHE_TTL`, and is stale from `t + CACHE_TTL` on: then
      the live listing is fetched and normalised. */
  lemma CacheFreshness(cache: seq<Species>, t: real, eps: real,
                       live: Result<Option<seq<Entry>>, string>)
    requires cache != [] && eps > 0.0
    ensures FetchUcscGenomes(true, CacheFile(t, Some(cache)), t + CacheTtl - eps, live)
            == Served(cache, FromCache)
    ensures FetchUcscGenomes(true, CacheFile(t, Some(cache)), t + CacheTtl, live)
            == FetchUcscGenomes(true, CacheFile(t, Some(cache)), t + CacheTtl + eps, live)
    ensures FetchUcscGenomes(true, CacheFile(t, Some(cache)), t + CacheTtl + eps, live)
            == (match live
                case Ok(data) => Served(Catalog(data), FromNetwork(true))
                case Err(reason) => Raised(reason))
  {
  }

  /** An unreadable or empty cache, or caching turned off, falls back to
      the network exactly as if there were no cache file. */
  lemma CacheFailureIsCold(useCache: bool, cache: CacheFile, now: real,
                           live: Result<Option<seq<Entry>>, string>)
    requires !useCache || cache.NoCacheFile? || cache.contents.None? || cache.contents == Some([])
    ensures FetchUcscGenomes(useCache, cache, now, live) == FetchUcscGenomes(useCache, NoCacheFile, now, live)
  {
  }
}
