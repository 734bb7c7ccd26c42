/** `sorted(..., key=lambda x: x["scientificName"])` over species records:
    an insertion sort by Python's string order. */
module SpeciesOrder {
  import opened Text
  import opened Genomes

  /** Place `x` before the first record whose name is not smaller. */
  function Insert(x: Species, s: seq<Species>): seq<Species> {
    if s == [] then [x]
    else if Less(s[0].scientificName, x.scientificName) then [s[0]] + Insert(x, s[1..])
    else [x] + s
  }

  function SortByName(s: seq<Species>): seq<Species> {
    if s == [] then [] else Insert(s[0], SortByName(s[1..]))
  }

  predicate StrictlyAscending(s: seq<Species>) {
    forall i, j :: 0 <= i < j < |s| ==> Less(s[i].scientificName, s[j].scientificName)
  }

  predicate DistinctNames(s: seq<Species>) {
    forall i, j :: 0 <= i < j < |s| ==> s[i].scientificName != s[j].scientificName
  }

  lemma {:induction false} InsertPermutes(x: Species, s: seq<Species>)
    ensures multiset(Insert(x, s)) == multiset(s) + multiset{x}
  {
    if s != [] && Less(s[0].scientificName, x.scientificName) {
      InsertPermutes(x, s[1..]);
      assert s == [s[0]] + s[1..];
    }
  }

  /** Sorting permutes the records. */
  lemma {:induction false} SortPermutes(s: seq<Species>)
    ensures multiset(SortByName(s)) == multiset(s)
  {
    if s != [] {
      SortPermutes(s[1..]);
      InsertPermutes(s[0], SortByName(s[1..]));
      assert s == [s[0]] + s[1..];
    }
  }

  lemma {:induction false} InsertAscending(x: Species, s: seq<Species>)
    requires StrictlyAscending(s)
    requires forall k :: 0 <= k < |s| ==> s[k].scientificName != x.scientificName
    ensures StrictlyAscending(Insert(x, s))
  {
    if s == [] {
    } else if Less(s[0].scientificName, x.scientificName) {
      InsertAscending(x, s[1..]);
      var t := Insert(x, s[1..]);
      InsertPermutes(x, s[1..]);
      forall k | 0 <= k < |t|
        ensures Less(s[0].scientificName, t[k].scientificName)
      {
        assert t[k] in multiset(s[1..]) + multiset{x};
        if t[k] != x {
          assert t[k] in s[1..];
          var m :| 0 <= m < |s[1..]| && s[1..][m] == t[k];
          assert s[m + 1] == t[k];
        }
      }
    } else {
      LessTotal(s[0].scientificName, x.scientificName);
      forall k | 1 <= k < |s| + 1
        ensures Less(x.scientificName, ([x] + s)[k].scientificName)
      {
        if k > 1 {
          LessTransitive(x.scientificName, s[0].scientificName, s[k - 1].scientificName);
        }
      }
    }
  }

  /** Records with distinct names sort into strictly ascending order. */
  lemma {:induction false} SortAscending(s: seq<Species>)
    requires DistinctNames(s)
    ensures StrictlyAscending(SortByName(s))
  {
    if s != [] {
      var rest := SortByName(s[1..]);
      SortAscending(s[1..]);
      SortPermutes(s[1..]);
      forall k | 0 <= k < |rest|
        ensures rest[k].scientificName != s[0].scientificName
      {
        assert rest[k] in multiset(s[1..]);
        var m :| 0 <= m < |s[1..]| && s[1..][m] == rest[k];
        assert s[m + 1] == rest[k];
      }
      InsertAscending(s[0], rest);
    }
  }

  lemma {:induction false} InsertKeepsTotals(x: Species, s: seq<Species>)
    ensures TotalCount(Insert(x, s)) == x.count + TotalCount(s)
    ensures multiset(Flatten(Insert(x, s))) == multiset(x.assemblies) + multiset(Flatten(s))
  {
    if s != [] && Less(s[0].scientificName, x.scientificName) {
      InsertKeepsTotals(x, s[1..]);
    }
  }

  /** Sorting neither adds nor loses an assembly, and keeps the sum of the
      counts. */
  lemma {:induction false} SortKeepsTotals(s: seq<Species>)
    ensures TotalCount(SortByName(s)) == TotalCount(s)
    ensures multiset(Flatten(SortByName(s))) == multiset(Flatten(s))
  {
    if s != [] {
      SortKeepsTotals(s[1..]);
      InsertKeepsTotals(s[0], SortByName(s[1..]));
    }
  }
}
