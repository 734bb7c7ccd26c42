/** Parsing of UCSC-style region strings `chrom:start-end`
    (`parse_region` in genomicops/ucsc_rest.py). */
module Region {
  import opened Wrappers
  import opened Text

  /** A parsed region; the coordinates are taken as written, with no
      check that `start <= end`. */
  datatype Region = Region(chrom: string, start: int, end: int)

  /** The one message every malformed region is rejected with. */
  function InvalidRegionMessage(region: string): string {
    "Invalid region format: " + region + ". Use e.g. 'chr1:1000-2000'."
  }

  /** `parse_region`: split once on `:`, drop the commas of the coordinate
      part, split once on `-`, and read both halves with `int`. Any step
      that fails (a split into other than two pieces, a half that is not an
      integer) raises the same `ValueError`. */
  function ParseRegion(region: string): (r: Result<Region, string>)
    ensures r.Err? ==> r.error == InvalidRegionMessage(region)
  {
    var parts := Split(region, ':');
    if |parts| != 2 then Err(InvalidRegionMessage(region))
    else
      var nums := Split(RemoveAll(parts[1], ','), '-');
      if |nums| != 2 then Err(InvalidRegionMessage(region))
      else
        match (ParseInt(nums[0]), ParseInt(nums[1]))
        case (Some(s), Some(e)) => Ok(Region(parts[0], s, e))
        case _ => Err(InvalidRegionMessage(region))
  }

  /** The display form `chrom:start-end`, as the f-strings of the source
      write it. */
  function FormatRegion(chrom: string, start: int, end: int): string {
    chrom + ":" + IntToString(start) + "-" + IntToString(end)
  }

  /** The error raised for a malformed region quotes the input. */
  lemma InvalidRegionQuotesInput(region: string)
    ensures IsSubstring(region, InvalidRegionMessage(region))
  {
    SubstringOfConcat("Invalid region format: ", region, ". Use e.g. 'chr1:1000-2000'.");
  }

  lemma NumeralHasNoSeparators(n: nat)
    ensures ':' !in NatToString(n) && ',' !in NatToString(n) && '-' !in NatToString(n)
  {
    var m := NatToString(n);
    AllDigitsAt(m);
  }

  /** Any split of `chrom:coords` with one colon whose coordinate part,
      once its commas are gone, is `a-b` with two integers, parses; the
      coordinates are those integers, in the order written. */
  lemma ParseRegionAccepts(chrom: string, coords: string, a: string, b: string)
    requires ':' !in chrom && ':' !in coords
    requires RemoveAll(coords, ',') == a + "-" + b && '-' !in a && '-' !in b
    requires ParseInt(a).Some? && ParseInt(b).Some?
    ensures ParseRegion(chrom + ":" + coords)
            == Ok(Region(chrom, ParseInt(a).value, ParseInt(b).value))
  {
    SplitTwo(chrom, coords, ':');
    SplitTwo(a, b, '-');
  }

  /** Conversely, a region that parses is `chrom:coords` with exactly one
      colon, and its comma-free coordinate part is `a-b` with exactly one
      dash and two integers `a`, `b` that are the parsed coordinates. */
  lemma ParseRegionDecompose(region: string) returns (coords: string, a: string, b: string)
    requires ParseRegion(region).Ok?
    ensures var r := ParseRegion(region).value;
            && region == r.chrom + ":" + coords
            && ':' !in r.chrom && ':' !in coords
            && RemoveAll(coords, ',') == a + "-" + b && '-' !in a && '-' !in b
            && ParseInt(a) == Some(r.start) && ParseInt(b) == Some(r.end)
  {
    var parts := Split(region, ':');
    SplitJoin(region, ':');
    assert |parts| == 2;
    assert Join(parts, ':') == parts[0] + [':'] + parts[1];
    coords := parts[1];
    var stripped := RemoveAll(coords, ',');
    var nums := Split(stripped, '-');
    SplitJoin(stripped, '-');
    assert |nums| == 2;
    assert Join(nums, '-') == nums[0] + ['-'] + nums[1];
    a, b := nums[0], nums[1];
  }

  /** The parsed coordinates are never negative: a `-` inside either number
      would have made the dash split produce more than two pieces. */
  lemma ParsedCoordinatesNonNegative(region: string)
    requires ParseRegion(region).Ok?
    ensures ParseRegion(region).value.start >= 0 && ParseRegion(region).value.end >= 0
  {
    var coords, a, b := ParseRegionDecompose(region);
    ParseIntNonNegative(a);
    ParseIntNonNegative(b);
  }

  /** A region string with other than one colon is rejected. */
  lemma ParseRegionRejectsColonCount(region: string)
    requires Count(region, ':') != 1
    ensures ParseRegion(region) == Err(InvalidRegionMessage(region))
  {
    SplitCount(region, ':');
  }

  /** A coordinate part with other than one dash, once its commas are
      gone, is rejected. */
  lemma ParseRegionRejectsDashCount(chrom: string, coords: string)
    requires ':' !in chrom && ':' !in coords
    requires Count(RemoveAll(coords, ','), '-') != 1
    ensures ParseRegion(chrom + ":" + coords) == Err(InvalidRegionMessage(chrom + ":" + coords))
  {
    SplitTwo(chrom, coords, ':');
    SplitCount(RemoveAll(coords, ','), '-');
  }

  /** A half that `int` refuses makes the region invalid. */
  lemma ParseRegionRejectsNonInteger(chrom: string, coords: string, a: string, b: string)
    requires ':' !in chrom && ':' !in coords
    requires RemoveAll(coords, ',') == a + "-" + b && '-' !in a && '-' !in b
    requires ParseInt(a).None? || ParseInt(b).None?
    ensures ParseRegion(chrom + ":" + coords) == Err(InvalidRegionMessage(chrom + ":" + coords))
  {
    SplitTwo(chrom, coords, ':');
    SplitTwo(a, b, '-');
  }

  /** Coordinates written without commas, colons or dashes parse to
      what `int` reads them as. */
  lemma ParseRegionOfPlainCoordinates(chrom: string, s: string, e: string, start: int, end: int)
    requires ':' !in chrom && ':' !in s && ':' !in e
    requires ',' !in s && ',' !in e && '-' !in s && '-' !in e
    requires ParseInt(s) == Some(start) && ParseInt(e) == Some(end)
    ensures ParseRegion(chrom + ":" + (s + "-" + e)) == Ok(Region(chrom, start, end))
  {
    var coords := s + "-" + e;
    assert ':' !in coords && ',' !in coords;
    RemoveAllAbsent(coords, ',');
    ParseRegionAccepts(chrom, coords, s, e);
  }

  /** Printing a region and parsing it back is the identity, for every
      chromosome name without a colon and any two non-negative coordinates,
      including `start > end`. */
  lemma ParseFormatRoundTrip(chrom: string, start: nat, end: nat)
    requires ':' !in chrom
    ensures ParseRegion(FormatRegion(chrom, start, end)) == Ok(Region(chrom, start, end))
  {
    var s, e := NatToString(start), NatToString(end);
    NumeralHasNoSeparators(start);
    NumeralHasNoSeparators(end);
    ParseIntToString(start);
    ParseIntToString(end);
    assert IntToString(start) == s && IntToString(end) == e;
    assert FormatRegion(chrom, start, end) == chrom + ":" + (s + "-" + e);
    ParseRegionOfPlainCoordinates(chrom, s, e, start, end);
  }

  /** Thousands separators are ignored: removing the commas of the
      coordinate part changes neither whether a region parses nor what it
      parses to. */
  lemma ParseRegionIgnoresCommas(chrom: string, coords: string)
    requires ':' !in chrom && ':' !in coords
    ensures ParseRegion(chrom + ":" + coords).Ok?
            <==> ParseRegion(chrom + ":" + RemoveAll(coords, ',')).Ok?
    ensures ParseRegion(chrom + ":" + coords).Ok?
            ==> ParseRegion(chrom + ":" + coords) == ParseRegion(chrom + ":" + RemoveAll(coords, ','))
  {
    var stripped := RemoveAll(coords, ',');
    SplitTwo(chrom, coords, ':');
    SplitTwo(chrom, stripped, ':');
    RemoveAllIdempotent(coords, ',');
  }

  lemma ParseRegionExample(region: string)
    requires region == "chr1:1000-2000"
    ensures ParseRegion(region) == Ok(Region("chr1", 1000, 2000))
  {
    assert IntToString(1000) == "1000" && IntToString(2000) == "2000";
    assert FormatRegion("chr1", 1000, 2000) == "chr1" + ":" + "1000" + "-" + "2000" == region;
    ParseFormatRoundTrip("chr1", 1000, 2000);
  }

  /** No check that the start precedes the end. */
  lemma ParseRegionReversedExample(region: string)
    requires region == "chr1:2000-1000"
    ensures ParseRegion(region) == Ok(Region("chr1", 2000, 1000))
  {
    assert IntToString(2000) == "2000" && IntToString(1000) == "1000";
    assert FormatRegion("chr1", 2000, 1000) == "chr1" + ":" + "2000" + "-" + "1000" == region;
    ParseFormatRoundTrip("chr1", 2000, 1000);
  }

  lemma ParseRegionInvalidExample(region: string)
    requires region == "invalid_region"
    ensures ParseRegion(region) == Err(InvalidRegionMessage(region))
  {
    CountZero(region, ':');
    ParseRegionRejectsColonCount(region);
  }
}
