/**
  Played tracks: the raw history items the provider returns, the flattened
  PlayedTrack records the program keeps (main.ts:15-26, 170-183), and the final
  date-range filter (main.ts:211-215).

  A play time is an already-parsed instant in epoch milliseconds; None stands
  for a played_at that is null or the empty string, both of which the program
  treats as absent.
 */
module PlayedTracks {
  import opened Wrappers

  /** The provider's context metadata, kept verbatim and never inspected. */
  type Context = string

  datatype RawArtist = RawArtist(name: string)
  datatype RawAlbum = RawAlbum(name: string, spotifyUrl: string)
  datatype RawTrack = RawTrack(spotifyUrl: string, name: string, artists: seq<RawArtist>, album: RawAlbum, id: string)
  datatype RawItem = RawItem(context: Context, playedAt: Option<int>, track: RawTrack)

  datatype Track = Track(url: string, name: string, artists: seq<string>, album: string, albumUrl: string, id: string)
  datatype PlayedTrack = PlayedTrack(context: Context, playedAt: Option<int>, track: Track)

  /** The artists' names, one per artist, in the artists' order (main.ts:177). */
  function ArtistNames(artists: seq<RawArtist>): (r: seq<string>)
    ensures |r| == |artists|
    ensures forall i :: 0 <= i < |artists| ==> r[i] == artists[i].name
  {
    seq(|artists|, i requires 0 <= i < |artists| => artists[i].name)
  }

  /** Flatten one raw item into the record the program keeps. */
  function ToPlayedTrack(item: RawItem): (r: PlayedTrack)
    ensures r.context == item.context && r.playedAt == item.playedAt
    ensures r.track.url == item.track.spotifyUrl && r.track.name == item.track.name && r.track.id == item.track.id
    ensures r.track.album == item.track.album.name && r.track.albumUrl == item.track.album.spotifyUrl
    ensures r.track.artists == ArtistNames(item.track.artists)
  {
    var t := item.track;
    PlayedTrack(item.context, item.playedAt,
      Track(t.spotifyUrl, t.name, ArtistNames(t.artists), t.album.name, t.album.spotifyUrl, t.id))
  }

  /** The page's items mapped one for one, in order (main.ts:170-183). */
  function MapPage(items: seq<RawItem>): (r: seq<PlayedTrack>)
    ensures |r| == |items|
    ensures forall i {:trigger ToPlayedTrack(items[i])} :: 0 <= i < |items| ==> r[i] == ToPlayedTrack(items[i])
  {
    seq(|items|, i requires 0 <= i < |items| => ToPlayedTrack(items[i]))
  }

  /** Mapping distributes over concatenation of pages. */
  lemma MapPageConcat(a: seq<RawItem>, b: seq<RawItem>)
    ensures MapPage(a + b) == MapPage(a) + MapPage(b)
  {
  }

  /** A track is kept when its play time is present and lies in [after, before], both ends included. */
  predicate InRange(t: PlayedTrack, after: int, before: int)
  {
    t.playedAt.Some? && after <= t.playedAt.value <= before
  }

  /** The final filter: the tracks in range, in their original order. */
  function FilterRange(tracks: seq<PlayedTrack>, after: int, before: int): (r: seq<PlayedTrack>)
    ensures |r| <= |tracks|
    ensures forall i :: 0 <= i < |r| ==> InRange(r[i], after, before)
  {
    if tracks == [] then []
    else if InRange(tracks[0], after, before) then [tracks[0]] + FilterRange(tracks[1..], after, before)
    else FilterRange(tracks[1..], after, before)
  }

  /** The filter keeps exactly the tracks in range: a track occurs in the output iff it occurs in the input in range. */
  lemma {:induction false} FilterRangeMembers(tracks: seq<PlayedTrack>, after: int, before: int)
    ensures forall t :: t in FilterRange(tracks, after, before) <==> t in tracks && InRange(t, after, before)
  {
    if tracks != [] {
      FilterRangeMembers(tracks[1..], after, before);
      assert tracks == [tracks[0]] + tracks[1..];
    }
  }

  /** Filtering distributes over concatenation, so it keeps relative order across pages. */
  lemma {:induction false} FilterRangeConcat(a: seq<PlayedTrack>, b: seq<PlayedTrack>, after: int, before: int)
    ensures FilterRange(a + b, after, before) == FilterRange(a, after, before) + FilterRange(b, after, before)
  {
    if a != [] {
      assert (a + b)[0] == a[0];
      assert (a + b)[1..] == a[1..] + b;
      FilterRangeConcat(a[1..], b, after, before);
    } else {
      assert a + b == b;
    }
  }

  /** Filtering twice with the same bounds gives what filtering once gives. */
  lemma {:induction false} FilterRangeIdempotent(tracks: seq<PlayedTrack>, after: int, before: int)
    ensures FilterRange(FilterRange(tracks, after, before), after, before) == FilterRange(tracks, after, before)
  {
    if tracks != [] {
      FilterRangeIdempotent(tracks[1..], after, before);
    }
  }

  /** Nothing is kept from tracks that all lie outside the range. */
  lemma {:induction false} FilterRangeNone(tracks: seq<PlayedTrack>, after: int, before: int)
    requires forall i :: 0 <= i < |tracks| ==> !InRange(tracks[i], after, before)
    ensures FilterRange(tracks, after, before) == []
  {
    if tracks != [] {
      FilterRangeNone(tracks[1..], after, before);
    }
  }

  /** The positions at or after `from` whose tracks are in range, in increasing order. */
  ghost function KeptPositions(tracks: seq<PlayedTrack>, after: int, before: int, from: nat): (r: seq<nat>)
    requires from <= |tracks|
    decreases |tracks| - from
    ensures forall i :: 0 <= i < |r| ==> from <= r[i] < |tracks| && InRange(tracks[r[i]], after, before)
    ensures forall i, j :: 0 <= i < j < |r| ==> r[i] < r[j]
    ensures forall p :: from <= p < |tracks| && InRange(tracks[p], after, before) ==> p in r
  {
    if from == |tracks| then []
    else if InRange(tracks[from], after, before) then [from] + KeptPositions(tracks, after, before, from + 1)
    else KeptPositions(tracks, after, before, from + 1)
  }

  /** The filter of the suffix from `from` is that suffix read at its kept positions. */
  ghost predicate ReadsKept(tracks: seq<PlayedTrack>, after: int, before: int, from: nat)
    requires from <= |tracks|
  {
    && |FilterRange(tracks[from..], after, before)| == |KeptPositions(tracks, after, before, from)|
    && forall i :: 0 <= i < |KeptPositions(tracks, after, before, from)| ==>
      FilterRange(tracks[from..], after, before)[i] == tracks[KeptPositions(tracks, after, before, from)[i]]
  }

  /** Reading at positions survives putting one more position in front of the positions and its track in front of the reading. */
  lemma ReadsConsed(tracks: seq<PlayedTrack>, p: nat, read: seq<PlayedTrack>, at: seq<nat>)
    requires p < |tracks| && |read| == |at|
    requires forall i :: 0 <= i < |at| ==> at[i] < |tracks| && read[i] == tracks[at[i]]
    ensures |[tracks[p]] + read| == |[p] + at|
    ensures forall i :: 0 <= i < |[p] + at| ==> ([p] + at)[i] < |tracks| && ([tracks[p]] + read)[i] == tracks[([p] + at)[i]]
  {
    forall i | 0 < i < |[p] + at| ensures ([p] + at)[i] < |tracks| && ([tracks[p]] + read)[i] == tracks[([p] + at)[i]] {
      assert ([tracks[p]] + read)[i] == read[i - 1] && ([p] + at)[i] == at[i - 1];
    }
  }

  /** One step of ReadsKept at a track in range: both sides gain that track in front. */
  lemma ReadsKeptAtKept(tracks: seq<PlayedTrack>, after: int, before: int, from: nat)
    requires from < |tracks| && InRange(tracks[from], after, before)
    requires ReadsKept(tracks, after, before, from + 1)
    ensures ReadsKept(tracks, after, before, from)
  {
    var suffix := tracks[from..];
    assert suffix[0] == tracks[from] && suffix[1..] == tracks[from + 1..];
    var rest := FilterRange(tracks[from + 1..], after, before);
    var kept := KeptPositions(tracks, after, before, from + 1);
    assert FilterRange(suffix, after, before) == [tracks[from]] + rest;
    assert KeptPositions(tracks, after, before, from) == [from] + kept;
    ReadsConsed(tracks, from, rest, kept);
  }

  /** One step of ReadsKept at a track out of range: neither side changes. */
  lemma ReadsKeptAtDropped(tracks: seq<PlayedTrack>, after: int, before: int, from: nat)
    requires from < |tracks| && !InRange(tracks[from], after, before)
    requires ReadsKept(tracks, after, before, from + 1)
    ensures ReadsKept(tracks, after, before, from)
  {
    var suffix := tracks[from..];
    assert suffix[0] == tracks[from] && suffix[1..] == tracks[from + 1..];
    assert FilterRange(suffix, after, before) == FilterRange(tracks[from + 1..], after, before);
    assert KeptPositions(tracks, after, before, from) == KeptPositions(tracks, after, before, from + 1);
  }

  /** Helper for FilterRangePositions: the filter of a suffix reads the suffix's kept positions. */
  lemma {:induction false} FilterRangeReadsKept(tracks: seq<PlayedTrack>, after: int, before: int, from: nat)
    requires from <= |tracks|
    decreases |tracks| - from
    ensures ReadsKept(tracks, after, before, from)
  {
    if from < |tracks| {
      FilterRangeReadsKept(tracks, after, before, from + 1);
      if InRange(tracks[from], after, before) {
        ReadsKeptAtKept(tracks, after, before, from);
      } else {
        ReadsKeptAtDropped(tracks, after, before, from);
      }
    } else {
      assert tracks[from..] == [];
    }
  }

  /**
    The output is an order-preserving subsequence of the input: it is the input read
    at strictly increasing positions idx, and idx holds exactly the positions of the
    tracks in range.
   */
  lemma FilterRangePositions(tracks: seq<PlayedTrack>, after: int, before: int) returns (idx: seq<nat>)
    ensures |idx| == |FilterRange(tracks, after, before)|
    ensures forall i :: 0 <= i < |idx| ==> idx[i] < |tracks| && FilterRange(tracks, after, before)[i] == tracks[idx[i]]
    ensures forall i, j :: 0 <= i < j < |idx| ==> idx[i] < idx[j]
    ensures forall p :: 0 <= p < |tracks| ==> (p in idx <==> InRange(tracks[p], after, before))
  {
    idx := KeptPositions(tracks, after, before, 0);
    FilterRangeReadsKept(tracks, after, before, 0);
    assert tracks[0..] == tracks;
  }

  /** Two upper bounds that agree on every track filter alike. */
  lemma {:induction false} FilterRangeSameBounds(tracks: seq<PlayedTrack>, after: int, hi1: int, hi2: int)
    requires forall i :: 0 <= i < |tracks| ==> (InRange(tracks[i], after, hi1) <==> InRange(tracks[i], after, hi2))
    ensures FilterRange(tracks, after, hi1) == FilterRange(tracks, after, hi2)
  {
    if tracks != [] {
      FilterRangeSameBounds(tracks[1..], after, hi1, hi2);
    }
  }
}
