/** `get_assemblies` (genomicops/ucsc_rest.py): look a species up in the
    normalised catalog by scientific or common name, case-insensitively,
    first exactly and then, unless `exact` is set, by substring. */
module Matching {
  import opened Wrappers
  import opened Text
  import opened Genomes

  /** The outcome of a lookup. `NullCommonName` stands for the
      `AttributeError` the source raises when it lowercases a record whose
      `commonName` is null. */
  datatype Match =
    | Found(matchedSpecies: string, assemblies: seq<Assembly>)
    | NotFound(error: string)
    | NullCommonName

  /** The query equals the scientific or the common name, ignoring case. */
  predicate ExactHit(query: string, s: Species)
    requires s.commonName.Some?
  {
    Lower(query) == Lower(s.scientificName) || Lower(query) == Lower(s.commonName.value)
  }

  /** The query occurs in the scientific or the common name, ignoring case. */
  predicate FuzzyHit(query: string, s: Species)
    requires s.commonName.Some?
  {
    IsSubstring(Lower(query), Lower(s.scientificName)) || IsSubstring(Lower(query), Lower(s.commonName.value))
  }

  function NotFoundMessage(query: string): string {
    "No assemblies found for species matching '" + query + "'"
  }

  /** What one pass over the catalog comes to. */
  datatype Pass = Hit(entry: Species) | Crash | Miss

  /** The first pass: each record is lowercased (which fails on a null
      common name) and then compared for equality. */
  function ExactPass(query: string, genomes: seq<Species>): Pass {
    if genomes == [] then Miss
    else if genomes[0].commonName.None? then Crash
    else if ExactHit(query, genomes[0]) then Hit(genomes[0])
    else ExactPass(query, genomes[1..])
  }

  /** The second pass, by substring. */
  function FuzzyPass(query: string, genomes: seq<Species>): Pass {
    if genomes == [] then Miss
    else if genomes[0].commonName.None? then Crash
    else if FuzzyHit(query, genomes[0]) then Hit(genomes[0])
    else FuzzyPass(query, genomes[1..])
  }

  function Answer(p: Pass, query: string): Match {
    match p
    case Hit(e) => Found(e.scientificName, e.assemblies)
    case Crash => NullCommonName
    case Miss => NotFound(NotFoundMessage(query))
  }

  /** The result of `get_assemblies(query, genomes, exact)`. */
  function Lookup(query: string, genomes: seq<Species>, exact: bool): Match {
    var first := ExactPass(query, genomes);
    if first.Miss? && !exact then Answer(FuzzyPass(query, genomes), query)
    else Answer(first, query)
  }

  /** `get_assemblies`: two loops over the catalog, each returning on its
      first hit. */
  method GetAssemblies(speciesName: string, genomes: seq<Species>, exact: bool) returns (r: Match)
    ensures r == Lookup(speciesName, genomes, exact)
  {
    var q := Lower(speciesName);
    LowerIdempotent(speciesName);
    var i := 0;
    while i < |genomes|
      invariant 0 <= i <= |genomes|
      invariant ExactPass(speciesName, genomes[i..]) == ExactPass(speciesName, genomes)
    {
      var entry := genomes[i];
      if entry.commonName.None? {
        return NullCommonName;
      }
      var sci := Lower(entry.scientificName);
      var common := Lower(entry.commonName.value);
      if q == sci || q == common {
        return Found(entry.scientificName, entry.assemblies);
      }
      assert genomes[i..][1..] == genomes[i + 1..];
      i := i + 1;
    }
    if !exact {
      i := 0;
      while i < |genomes|
        invariant 0 <= i <= |genomes|
        invariant FuzzyPass(speciesName, genomes[i..]) == FuzzyPass(speciesName, genomes)
      {
        var entry := genomes[i];
        if entry.commonName.None? {
          return NullCommonName;
        }
        var sci := Lower(entry.scientificName);
        var common := Lower(entry.commonName.value);
        if IsSubstring(q, sci) || IsSubstring(q, common) {
          return Found(entry.scientificName, entry.assemblies);
        }
        assert genomes[i..][1..] == genomes[i + 1..];
        i := i + 1;
      }
    }
    return NotFound(NotFoundMessage(speciesName));
  }

  // ---------------------------------------------------------------
  // Properties of the lookup
  // ---------------------------------------------------------------

  /** The records a pass walks past before record `k`. */
  predicate PassedBefore(query: string, genomes: seq<Species>, k: int)
    requires 0 <= k <= |genomes|
  {
    forall j :: 0 <= j < k ==> genomes[j].commonName.Some? && !ExactHit(query, genomes[j])
  }

  lemma {:induction false} ExactPassFirst(query: string, genomes: seq<Species>, k: nat)
    requires k <= |genomes| && PassedBefore(query, genomes, k)
    ensures ExactPass(query, genomes) == ExactPass(query, genomes[k..])
  {
    if k > 0 {
      assert genomes[0].commonName.Some? && !ExactHit(query, genomes[0]);
      assert genomes[1..][k - 1..] == genomes[k..];
      ExactPassFirst(query, genomes[1..], k - 1);
    }
  }

  /** The exact pass characterised: it misses exactly when every record has
      a common name and none matches exactly. */
  lemma {:induction false} ExactPassMiss(query: string, genomes: seq<Species>)
    ensures ExactPass(query, genomes).Miss? <==> PassedBefore(query, genomes, |genomes|)
  {
    if genomes != [] {
      ExactPassMiss(query, genomes[1..]);
      if genomes[0].commonName.Some? && !ExactHit(query, genomes[0]) {
        assert forall j :: 0 <= j < |genomes| - 1 ==> genomes[1..][j] == genomes[j + 1];
      }
    }
  }

  /** An exact match wins: the first record that matches exactly, with
      every record before it having a common name, is returned, whatever
      `exact` says and even when an earlier record matched by substring. */
  lemma FirstExactMatchWins(query: string, genomes: seq<Species>, exact: bool, k: nat)
    requires k < |genomes| && PassedBefore(query, genomes, k)
    requires genomes[k].commonName.Some? && ExactHit(query, genomes[k])
    ensures Lookup(query, genomes, exact) == Found(genomes[k].scientificName, genomes[k].assemblies)
  {
    ExactPassFirst(query, genomes, k);
  }

  /** A record with a null common name, reached by the first pass before any
      exact match, makes the lookup fail, whatever `exact` says. */
  lemma NullCommonNameFails(query: string, genomes: seq<Species>, exact: bool, k: nat)
    requires k < |genomes| && PassedBefore(query, genomes, k)
    requires genomes[k].commonName.None?
    ensures Lookup(query, genomes, exact) == NullCommonName
  {
    ExactPassFirst(query, genomes, k);
  }

  lemma {:induction false} FuzzyPassFound(query: string, genomes: seq<Species>)
    requires FuzzyPass(query, genomes).Hit?
    ensures exists k :: (0 <= k < |genomes| && genomes[k] == FuzzyPass(query, genomes).entry
      && genomes[k].commonName.Some? && FuzzyHit(query, genomes[k]))
  {
    if !(genomes[0].commonName.Some? && FuzzyHit(query, genomes[0])) {
      FuzzyPassFound(query, genomes[1..]);
      var k :| 0 <= k < |genomes| - 1 && genomes[1..][k] == FuzzyPass(query, genomes[1..]).entry
        && genomes[1..][k].commonName.Some? && FuzzyHit(query, genomes[1..][k]);
      assert genomes[k + 1] == genomes[1..][k];
    }
  }

  lemma {:induction false} FuzzyPassMiss(query: string, genomes: seq<Species>)
    requires FuzzyPass(query, genomes).Miss?
    ensures forall k :: 0 <= k < |genomes| ==> genomes[k].commonName.Some? && !FuzzyHit(query, genomes[k])
  {
    if genomes != [] {
      FuzzyPassMiss(query, genomes[1..]);
      assert forall k :: 1 <= k < |genomes| ==> genomes[k] == genomes[1..][k - 1];
    }
  }

  /** The records the substring pass walks past before record `k`. */
  predicate FuzzyPassedBefore(query: string, genomes: seq<Species>, k: int)
    requires 0 <= k <= |genomes|
  {
    forall j :: 0 <= j < k ==> genomes[j].commonName.Some? && !FuzzyHit(query, genomes[j])
  }

  lemma {:induction false} FuzzyPassFirst(query: string, genomes: seq<Species>, k: nat)
    requires k <= |genomes| && FuzzyPassedBefore(query, genomes, k)
    ensures FuzzyPass(query, genomes) == FuzzyPass(query, genomes[k..])
  {
    if k > 0 {
      assert genomes[0].commonName.Some? && !FuzzyHit(query, genomes[0]);
      assert genomes[1..][k - 1..] == genomes[k..];
      FuzzyPassFirst(query, genomes[1..], k - 1);
    }
  }

  /** Without an exact match and with `exact` unset, the first record whose
      names contain the query is returned. */
  lemma FirstFuzzyMatchWins(query: string, genomes: seq<Species>, k: nat)
    requires PassedBefore(query, genomes, |genomes|)
    requires k < |genomes| && FuzzyPassedBefore(query, genomes, k)
    requires genomes[k].commonName.Some? && FuzzyHit(query, genomes[k])
    ensures Lookup(query, genomes, false) == Found(genomes[k].scientificName, genomes[k].assemblies)
  {
    ExactPassMiss(query, genomes);
    FuzzyPassFirst(query, genomes, k);
  }

  /** An exact match is also a substring match. */
  lemma ExactHitIsFuzzyHit(query: string, s: Species)
    requires s.commonName.Some? && ExactHit(query, s)
    ensures FuzzyHit(query, s)
  {
    SubstringOfSelf(Lower(query));
  }

  /** A lookup that finds something returns the scientific name and the
      assemblies of one catalog record that matches: exactly, when `exact`
      is set; otherwise at least by substring. */
  lemma LookupFoundMatches(query: string, genomes: seq<Species>, exact: bool)
    requires Lookup(query, genomes, exact).Found?
    ensures exists k :: (0 <= k < |genomes| && genomes[k].commonName.Some?
      && Lookup(query, genomes, exact) == Found(genomes[k].scientificName, genomes[k].assemblies)
      && FuzzyHit(query, genomes[k])
      && (exact ==> ExactHit(query, genomes[k])))
  {
    var first := ExactPass(query, genomes);
    if first.Hit? {
      var k := ExactPassHitIndex(query, genomes);
      ExactHitIsFuzzyHit(query, genomes[k]);
    } else {
      FuzzyPassFound(query, genomes);
    }
  }

  lemma {:induction false} ExactPassHitIndex(query: string, genomes: seq<Species>) returns (k: nat)
    requires ExactPass(query, genomes).Hit?
    ensures k < |genomes| && genomes[k] == ExactPass(query, genomes).entry
    ensures genomes[k].commonName.Some? && ExactHit(query, genomes[k])
  {
    if genomes[0].commonName.Some? && ExactHit(query, genomes[0]) {
      k := 0;
    } else {
      var k' := ExactPassHitIndex(query, genomes[1..]);
      k := k' + 1;
      assert genomes[k] == genomes[1..][k'];
    }
  }

  /** Nothing is found exactly when no record matches (exactly, when
      `exact` is set; by substring otherwise) and no common name is null;
      the error then quotes the query as given. */
  lemma LookupNotFound(query: string, genomes: seq<Species>, exact: bool)
    ensures Lookup(query, genomes, exact).NotFound? <==>
      forall k :: 0 <= k < |genomes| ==>
        genomes[k].commonName.Some? && !ExactHit(query, genomes[k]) && (exact || !FuzzyHit(query, genomes[k]))
    ensures Lookup(query, genomes, exact).NotFound? ==>
      Lookup(query, genomes, exact).error == NotFoundMessage(query) && IsSubstring(query, Lookup(query, genomes, exact).error)
  {
    ExactPassMiss(query, genomes);
    var first := ExactPass(query, genomes);
    if first.Miss? && !exact {
      var second := FuzzyPass(query, genomes);
      if second.Miss? {
        FuzzyPassMiss(query, genomes);
      } else if second.Hit? {
        FuzzyPassFound(query, genomes);
      } else {
        FuzzyPassNoCrash(query, genomes);
      }
    }
    SubstringOfConcat("No assemblies found for species matching '", query, "'");
  }

  /** The second pass never fails on a null common name: the first pass
      would have failed already. */
  lemma NullCommonNameOnlyInFirstPass(query: string, genomes: seq<Species>, exact: bool)
    ensures Lookup(query, genomes, exact) == NullCommonName <==> ExactPass(query, genomes).Crash?
  {
    if ExactPass(query, genomes).Miss? && !exact {
      ExactPassMiss(query, genomes);
      FuzzyPassNoCrash(query, genomes);
    }
  }

  lemma {:induction false} FuzzyPassNoCrash(query: string, genomes: seq<Species>)
    requires forall k :: 0 <= k < |genomes| ==> genomes[k].commonName.Some?
    ensures !FuzzyPass(query, genomes).Crash?
  {
    if genomes != [] {
      assert forall k :: 0 <= k < |genomes| - 1 ==> genomes[1..][k] == genomes[k + 1];
      FuzzyPassNoCrash(query, genomes[1..]);
    }
  }

  /** Turning `exact` off only widens the search: whatever the exact lookup
      finds (or fails on), the fuzzy lookup returns too. */
  lemma ExactIsNarrower(query: string, genomes: seq<Species>)
    ensures !Lookup(query, genomes, true).NotFound? ==> Lookup(query, genomes, false) == Lookup(query, genomes, true)
  {
  }

  /** Matching ignores case: a query and its lowercase form find the same
      record (only the wording of the not-found message differs). */
  lemma LookupIgnoresCase(query: string, genomes: seq<Species>, exact: bool)
    ensures Lookup(Lower(query), genomes, exact).NotFound? == Lookup(query, genomes, exact).NotFound?
    ensures !Lookup(query, genomes, exact).NotFound? ==> Lookup(Lower(query), genomes, exact) == Lookup(query, genomes, exact)
  {
    LowerIdempotent(query);
    PassesIgnoreCase(query, genomes);
  }

  lemma {:induction false} PassesIgnoreCase(query: string, genomes: seq<Species>)
    requires Lower(Lower(query)) == Lower(query)
    ensures ExactPass(Lower(query), genomes) == ExactPass(query, genomes)
    ensures FuzzyPass(Lower(query), genomes) == FuzzyPass(query, genomes)
  {
    if genomes != [] {
      PassesIgnoreCase(query, genomes[1..]);
    }
  }
}
