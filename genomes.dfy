/** The records of the genome catalog: the raw `ucscGenomes` listing as
    UCSC returns it, and the species records built from it
    (genomicops/ucsc_rest.py). */
module Genomes {
  import opened Wrappers

  /** The fields of one raw listing entry that the catalog reads; each may
      be missing (`info.get(...)` returns `None`). */
  datatype Info = Info(
    scientificName: Option<string>,
    organism: Option<string>,
    genome: Option<string>,
    description: Option<string>)

  /** One `genome_id: info` item of the listing; the listing is the
      sequence of these in dictionary order. */
  type Entry = (string, Info)

  datatype Assembly = Assembly(genome: string, assemblyName: string)

  /** A species record. `commonName` is `None` when the first entry of the
      species had neither an organism nor a `genome` field. */
  datatype Species = Species(
    speciesKey: string,
    scientificName: string,
    commonName: Option<string>,
    count: nat,
    assemblies: seq<Assembly>)

  /** Python truthiness of an optional string: present and non-empty. */
  predicate Truthy(o: Option<string>) {
    o.Some? && o.value != ""
  }

  /** The entry takes part in grouping: its scientific name is present and
      non-empty (`if not sci: continue`). */
  predicate Grouped(e: Entry) {
    Truthy(e.1.scientificName)
  }

  function SciName(e: Entry): string
    requires Grouped(e)
  {
    e.1.scientificName.value
  }

  /** The entry is grouped under `name`. */
  predicate Named(e: Entry, name: string) {
    Grouped(e) && SciName(e) == name
  }

  /** `info.get("organism") or info.get("genome")`: the entry's own `genome`
      field, not its id, is the fallback, and it may itself be missing. */
  function CommonNameOf(info: Info): Option<string> {
    if Truthy(info.organism) then info.organism else info.genome
  }

  /** `{"genome": genome_id, "assemblyName": info.get("description") or genome_id}` */
  function AssemblyOf(e: Entry): Assembly {
    Assembly(e.0, if Truthy(e.1.description) then e.1.description.value else e.0)
  }

  /** All assemblies of a catalog, record after record. */
  function Flatten(catalog: seq<Species>): seq<Assembly> {
    if catalog == [] then [] else catalog[0].assemblies + Flatten(catalog[1..])
  }

  /** The sum of the `count` fields. */
  function TotalCount(catalog: seq<Species>): nat {
    if catalog == [] then 0 else catalog[0].count + TotalCount(catalog[1..])
  }

  /** What every record of a normalised catalog satisfies. */
  predicate WellFormed(s: Species) {
    && s.speciesKey == s.scientificName
    && s.scientificName != ""
    && s.count == |s.assemblies|
  }

  /** When every count is the length of its assembly list, the counts add
      up to the number of assemblies. */
  lemma {:induction false} TotalCountIsFlatLength(catalog: seq<Species>)
    requires forall k :: 0 <= k < |catalog| ==> catalog[k].count == |catalog[k].assemblies|
    ensures TotalCount(catalog) == |Flatten(catalog)|
  {
    if catalog != [] {
      TotalCountIsFlatLength(catalog[1..]);
    }
  }
}
