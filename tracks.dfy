/** The track listing of `list_ucsc_tracks` (genomicops/ucsc_rest.py): the
    `/list/tracks` response keeps only the top-level tracks, those whose
    metadata is an object with a `type` key, reduced to a fixed set of
    fields. */
module Tracks {
  import opened Wrappers

  /** The metadata the response gives for one track name: an object (its
      keys and their values, each value kept as its JSON text) or anything
      else, such as a composite container's nested listing. */
  datatype TrackInfo = NotObject | Object(fields: map<string, string>)

  /** One `(track_name, track_info)` pair of `tracks.items()`. */
  type TrackItem = (string, TrackInfo)

  /** A simplified track; a missing field is `None` (`info.get(key)`). */
  datatype Track = Track(
    trackId: string,
    shortLabel: Option<string>,
    longLabel: Option<string>,
    trackType: Option<string>,
    group: Option<string>,
    bigDataUrl: Option<string>,
    html: Option<string>)

  /** The listing returned to the caller, or the error object. */
  datatype TrackListing =
    | Listing(genome: string, trackCount: nat, tracks: seq<Track>)
    | ListingError(error: string)

  /** What the request comes to: the decoded response (assembly name to
      its tracks), a `RequestException` with its text, or a body that is
      not JSON. */
  datatype Response =
    | Decoded(data: map<string, seq<TrackItem>>)
    | RequestFailed(reason: string)
    | InvalidJson

  /** `isinstance(track_info, dict) and "type" in track_info` */
  predicate Listed(t: TrackItem) {
    t.1.Object? && "type" in t.1.fields
  }

  /** `track_info.get(key)` */
  function Field(fields: map<string, string>, key: string): Option<string> {
    if key in fields then Some(fields[key]) else None
  }

  function Simplify(t: TrackItem): (r: Track)
    requires Listed(t)
    ensures r.trackId == t.0 && r.trackType == Some(t.1.fields["type"])
  {
    var f := t.1.fields;
    Track(t.0, Field(f, "shortLabel"), Field(f, "longLabel"), Field(f, "type"),
          Field(f, "group"), Field(f, "bigDataUrl"), Field(f, "html"))
  }

  /** The simplified tracks, in the order of the listing. */
  function Simplified(ts: seq<TrackItem>): seq<Track> {
    if ts == [] then []
    else
      var t := ts[|ts| - 1];
      Simplified(ts[..|ts| - 1]) + (if Listed(t) then [Simplify(t)] else [])
  }

  /** The number of listed tracks. */
  function CountListed(ts: seq<TrackItem>): nat {
    if ts == [] then 0
    else CountListed(ts[..|ts| - 1]) + (if Listed(ts[|ts| - 1]) then 1 else 0)
  }

  /** The filtering loop of `list_ucsc_tracks`. */
  method SimplifyTracks(tracks: seq<TrackItem>) returns (simplified: seq<Track>)
    ensures simplified == Simplified(tracks)
  {
    simplified := [];
    var i := 0;
    while i < |tracks|
      invariant 0 <= i <= |tracks|
      invariant simplified == Simplified(tracks[..i])
    {
      var (trackName, trackInfo) := tracks[i];
      assert tracks[..i + 1][..i] == tracks[..i];
      if trackInfo.Object? && "type" in trackInfo.fields {
        var f := trackInfo.fields;
        simplified := simplified + [Track(trackName, Field(f, "shortLabel"), Field(f, "longLabel"),
                                          Field(f, "type"), Field(f, "group"),
                                          Field(f, "bigDataUrl"), Field(f, "html"))];
      }
      i := i + 1;
    }
    assert tracks[..i] == tracks;
  }

  /** `list_ucsc_tracks` after the request: the error objects for a failed
      request, a non-JSON body and an assembly missing from the response,
      and otherwise the genome, the number of simplified tracks and the
      tracks themselves. */
  method ListUcscTracks(genome: string, response: Response) returns (r: TrackListing)
    ensures response.RequestFailed? ==>
      r == ListingError("Failed to fetch tracks for " + genome + ": " + response.reason)
    ensures response.InvalidJson? ==> r == ListingError("Invalid JSON returned for " + genome + " tracks")
    ensures response.Decoded? && genome !in response.data ==>
      r == ListingError("No track data found for " + genome)
    ensures response.Decoded? && genome in response.data ==>
      r == Listing(genome, |Simplified(response.data[genome])|, Simplified(response.data[genome]))
  {
    match response
    case RequestFailed(reason) =>
      r := ListingError("Failed to fetch tracks for " + genome + ": " + reason);
    case InvalidJson =>
      r := ListingError("Invalid JSON returned for " + genome + " tracks");
    case Decoded(data) =>
      if genome !in data {
        r := ListingError("No track data found for " + genome);
        return;
      }
      var simplified := SimplifyTracks(data[genome]);
      r := Listing(genome, |simplified|, simplified);
  }

  // ---------------------------------------------------------------
  // Properties of the filter
  // ---------------------------------------------------------------

  /** Filtering a listing in two parts filters each and keeps their order. */
  lemma {:induction false} SimplifiedConcat(a: seq<TrackItem>, b: seq<TrackItem>)
    ensures Simplified(a + b) == Simplified(a) + Simplified(b)
  {
    if b == [] {
      assert a + b == a;
    } else {
      var b' := b[..|b| - 1];
      assert (a + b)[..|a + b| - 1] == a + b';
      assert (a + b)[|a + b| - 1] == b[|b| - 1];
      SimplifiedConcat(a, b');
    }
  }

  /** The count is the number of top-level tracks, and no more than the
      number of names in the listing. */
  lemma {:induction false} SimplifiedCount(ts: seq<TrackItem>)
    ensures |Simplified(ts)| == CountListed(ts) <= |ts|
  {
    if ts != [] {
      SimplifiedCount(ts[..|ts| - 1]);
    }
  }

  /** Every top-level track is kept. */
  lemma {:induction false} ListedIsKept(ts: seq<TrackItem>, i: nat)
    requires i < |ts| && Listed(ts[i])
    ensures Simplify(ts[i]) in Simplified(ts)
  {
    var p := ts[..|ts| - 1];
    if i < |p| {
      assert p[i] == ts[i];
      ListedIsKept(p, i);
    }
  }

  /** Every kept track is the simplification of a top-level track of the
      listing: its id is a track name of the listing and its `type` is
      present. */
  lemma {:induction false} KeptIsListed(ts: seq<TrackItem>, t: Track)
    requires t in Simplified(ts)
    ensures exists i :: 0 <= i < |ts| && Listed(ts[i]) && t == Simplify(ts[i])
    ensures t.trackType.Some?
  {
    var p := ts[..|ts| - 1];
    if t in Simplified(p) {
      KeptIsListed(p, t);
      var i :| 0 <= i < |p| && Listed(p[i]) && t == Simplify(p[i]);
      assert ts[i] == p[i];
    } else {
      assert Listed(ts[|ts| - 1]) && t == Simplify(ts[|ts| - 1]);
    }
  }

  /** A listing without a single top-level track gives an empty list. */
  lemma {:induction false} NoneListedIsEmpty(ts: seq<TrackItem>)
    requires forall i :: 0 <= i < |ts| ==> !Listed(ts[i])
    ensures Simplified(ts) == []
  {
    if ts != [] {
      NoneListedIsEmpty(ts[..|ts| - 1]);
    }
  }
}
