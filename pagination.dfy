/**
  The backward cursor walk over the playback history (main.ts:154-209).

  The cursor starts at `before`. Each round fetches the page of plays before
  the cursor, keeps the whole page, and then either stops or moves the cursor
  to the last item's play time:
    - no "before" cursor offered, or an empty page: stop, the history is exhausted;
    - the last item has no play time: stop, the cursor cannot advance;
    - otherwise the cursor becomes that play time, and the walk stops once it
      lies before `after`.
  The provider, a function from cursor to page, stands for the history endpoint.
  The program's loop has no bound of its own; here `maxPages` bounds the number of
  fetches and OutOfPages reports that the bound, not the walk, ended the loop.
 */
module Pagination {
  import opened Wrappers
  import opened PlayedTracks

  /** One answer of the history endpoint: its items and whether it offered a "before" cursor. */
  datatype Page = Page(items: seq<RawItem>, hasBefore: bool)

  /** Why the walk ended; the first three are the program's, the last is the page bound's. */
  datatype StopReason = Exhausted | NullCursor | BoundaryCrossed | OutOfPages

  /** The decision after a page: fetch again from a new cursor, or stop. */
  datatype Next = Continue(cursor: int) | Stop(reason: StopReason)

  /** A whole walk: every track fetched in fetch order, why it ended, and the cursor of each fetch. */
  datatype Run = Run(tracks: seq<PlayedTrack>, reason: StopReason, cursors: seq<int>)

  /** The step rule of main.ts:194-206, for a page with the given cursor flag and mapped tracks. */
  function NextStep(hasBefore: bool, tracks: seq<PlayedTrack>, after: int): (r: Next)
    ensures r != Stop(OutOfPages)
    ensures r == Stop(Exhausted) <==> !hasBefore || tracks == []
    ensures r == Stop(NullCursor) <==> hasBefore && tracks != [] && tracks[|tracks| - 1].playedAt.None?
    ensures r.Continue? ==> hasBefore && tracks != [] && tracks[|tracks| - 1].playedAt == Some(r.cursor) && after <= r.cursor
    ensures r == Stop(BoundaryCrossed) ==>
      tracks != [] && tracks[|tracks| - 1].playedAt.Some? && tracks[|tracks| - 1].playedAt.value < after
  {
    if hasBefore && |tracks| > 0 then
      match tracks[|tracks| - 1].playedAt
      case None => Stop(NullCursor)
      case Some(t) => if t < after then Stop(BoundaryCrossed) else Continue(t)
    else
      Stop(Exhausted)
  }

  /** The decision after fetching the page at `cursor`. */
  function StepAt(provider: int -> Page, after: int, cursor: int): Next
  {
    var page := provider(cursor);
    NextStep(page.hasBefore, MapPage(page.items), after)
  }

  /** The walk from `cursor`, fetching at most `fuel` pages. */
  function Paginate(provider: int -> Page, after: int, cursor: int, fuel: nat): (r: Run)
    ensures |r.cursors| <= fuel
    ensures 0 < fuel ==> r.cursors != [] && r.cursors[0] == cursor
    ensures r.reason == OutOfPages ==> |r.cursors| == fuel
    decreases fuel
  {
    if fuel == 0 then Run([], OutOfPages, [])
    else
      var tracks := MapPage(provider(cursor).items);
      match StepAt(provider, after, cursor)
      case Stop(reason) => Run(tracks, reason, [cursor])
      case Continue(next) =>
        var rest := Paginate(provider, after, next, fuel - 1);
        Run(tracks + rest.tracks, rest.reason, [cursor] + rest.cursors)
  }

  /** One round of the walk: the page at `cursor` is kept, then the step rule decides. */
  lemma PaginateUnroll(provider: int -> Page, after: int, cursor: int, fuel: nat)
    requires 0 < fuel
    ensures var run := Paginate(provider, after, cursor, fuel);
      match StepAt(provider, after, cursor)
      case Stop(reason) => run.tracks == MapPage(provider(cursor).items) && run.reason == reason
      case Continue(next) =>
        && run.tracks == MapPage(provider(cursor).items) + Paginate(provider, after, next, fuel - 1).tracks
        && run.reason == Paginate(provider, after, next, fuel - 1).reason
  {
  }

  /** The pages fetched at the given cursors, mapped and concatenated in fetch order. */
  function Gathered(provider: int -> Page, cursors: seq<int>): seq<PlayedTrack>
  {
    if cursors == [] then [] else MapPage(provider(cursors[0]).items) + Gathered(provider, cursors[1..])
  }

  /** A walk of at most `fuel` fetches starts at its cursor and keeps every fetched page in full, in fetch order. */
  lemma {:induction false} PaginateKeepsPages(provider: int -> Page, after: int, cursor: int, fuel: nat)
    ensures var run := Paginate(provider, after, cursor, fuel);
      && |run.cursors| <= fuel
      && (0 < fuel ==> 0 < |run.cursors| && run.cursors[0] == cursor)
      && run.tracks == Gathered(provider, run.cursors)
    decreases fuel
  {
    if 0 < fuel {
      var step := StepAt(provider, after, cursor);
      if step.Continue? {
        PaginateKeepsPages(provider, after, step.cursor, fuel - 1);
        var rest := Paginate(provider, after, step.cursor, fuel - 1);
        var cs := [cursor] + rest.cursors;
        assert Paginate(provider, after, cursor, fuel) == Run(MapPage(provider(cursor).items) + rest.tracks, rest.reason, cs);
        assert cs[1..] == rest.cursors;
      } else {
        assert Paginate(provider, after, cursor, fuel).cursors == [cursor];
        assert Gathered(provider, [cursor]) == MapPage(provider(cursor).items) + Gathered(provider, []);
      }
    }
  }

  /**
    Each fetch after the first is at the cursor the step rule chose after the previous
    page; the last page's decision is the reported stop, or, when the bound of `fuel`
    pages ended the walk, a decision to go on.
   */
  ghost predicate FollowsStepRule(provider: int -> Page, after: int, run: Run, fuel: nat)
  {
    && (forall i :: 0 <= i < |run.cursors| - 1 ==> StepAt(provider, after, run.cursors[i]) == Continue(run.cursors[i + 1]))
    && (run.reason != OutOfPages ==> 0 < |run.cursors| && StepAt(provider, after, run.cursors[|run.cursors| - 1]) == Stop(run.reason))
    && (run.reason == OutOfPages ==> |run.cursors| == fuel && (0 < fuel ==> StepAt(provider, after, run.cursors[fuel - 1]).Continue?))
  }

  /** A walk whose first page stops it follows the step rule. */
  lemma FollowsAtStop(provider: int -> Page, after: int, cursor: int, fuel: nat)
    requires 0 < fuel && StepAt(provider, after, cursor).Stop?
    ensures FollowsStepRule(provider, after, Paginate(provider, after, cursor, fuel), fuel)
  {
    var step := StepAt(provider, after, cursor);
    assert Paginate(provider, after, cursor, fuel) == Run(MapPage(provider(cursor).items), step.reason, [cursor]);
  }

  /** A walk that goes on after its first page follows the step rule when the rest of it does. */
  lemma FollowsAfterContinue(provider: int -> Page, after: int, cursor: int, fuel: nat)
    requires 0 < fuel && StepAt(provider, after, cursor).Continue?
    requires FollowsStepRule(provider, after, Paginate(provider, after, StepAt(provider, after, cursor).cursor, fuel - 1), fuel - 1)
    ensures FollowsStepRule(provider, after, Paginate(provider, after, cursor, fuel), fuel)
  {
    var next := StepAt(provider, after, cursor).cursor;
    PaginateKeepsPages(provider, after, next, fuel - 1);
    var rest := Paginate(provider, after, next, fuel - 1);
    var cs := [cursor] + rest.cursors;
    assert Paginate(provider, after, cursor, fuel).cursors == cs && Paginate(provider, after, cursor, fuel).reason == rest.reason;
    forall i | 0 <= i < |cs| - 1 ensures StepAt(provider, after, cs[i]) == Continue(cs[i + 1]) {
      if 0 < i { assert cs[i] == rest.cursors[i - 1]; }
    }
  }

  /** Every walk follows the step rule. */
  lemma {:induction false} PaginateFollowsStepRule(provider: int -> Page, after: int, cursor: int, fuel: nat)
    ensures FollowsStepRule(provider, after, Paginate(provider, after, cursor, fuel), fuel)
    decreases fuel
  {
    if 0 < fuel {
      var step := StepAt(provider, after, cursor);
      if step.Continue? {
        PaginateFollowsStepRule(provider, after, step.cursor, fuel - 1);
        FollowsAfterContinue(provider, after, cursor, fuel);
      } else {
        FollowsAtStop(provider, after, cursor, fuel);
      }
    }
  }

  /** What the loop ends with: the accumulated tracks and why it stopped. */
  datatype Outcome = Outcome(tracks: seq<PlayedTrack>, reason: StopReason)

  /**
    The walk in the loop's own shape: `acc` holds the tracks accumulated so far,
    each page is appended to it, and the step rule decides whether to go on.
   */
  function Walk(provider: int -> Page, after: int, cursor: int, fuel: nat, acc: seq<PlayedTrack>): (r: Outcome)
    ensures acc <= r.tracks
    decreases fuel
  {
    if fuel == 0 then Outcome(acc, OutOfPages)
    else
      var page := provider(cursor);
      var tracks := MapPage(page.items);
      match NextStep(page.hasBefore, tracks, after)
      case Stop(reason) => Outcome(acc + tracks, reason)
      case Continue(next) => Walk(provider, after, next, fuel - 1, acc + tracks)
  }

  /** The accumulating walk appends to `acc` exactly what the walk from the same cursor gathers, and stops for the same reason. */
  lemma {:induction false} WalkIsPaginate(provider: int -> Page, after: int, cursor: int, fuel: nat, acc: seq<PlayedTrack>)
    ensures Walk(provider, after, cursor, fuel, acc)
      == Outcome(acc + Paginate(provider, after, cursor, fuel).tracks, Paginate(provider, after, cursor, fuel).reason)
    decreases fuel
  {
    if fuel == 0 {
      assert acc + [] == acc;
    } else {
      var tracks := MapPage(provider(cursor).items);
      match StepAt(provider, after, cursor)
      case Stop(reason) =>
      case Continue(next) =>
        WalkIsPaginate(provider, after, next, fuel - 1, acc + tracks);
        var rest := Paginate(provider, after, next, fuel - 1);
        assert (acc + tracks) + rest.tracks == acc + (tracks + rest.tracks);
    }
  }

  /**
    getPlayedTracksInTimeRange with the dates already parsed: walk backward from
    `before`, accumulating every page, then keep the tracks that lie in [after, before].
    `fetched` is the whole accumulated list, `inRange` the returned one.
   */
  method GetPlayedTracksInTimeRange(provider: int -> Page, after: int, before: int, maxPages: nat)
    returns (fetched: seq<PlayedTrack>, inRange: seq<PlayedTrack>, reason: StopReason)
    ensures fetched == Paginate(provider, after, before, maxPages).tracks
    ensures reason == Paginate(provider, after, before, maxPages).reason
    ensures inRange == FilterRange(fetched, after, before)
  {
    ghost var outcome := Walk(provider, after, before, maxPages, []);
    var recentlyPlayed: seq<PlayedTrack> := [];
    var earliestPlayedAt := before;
    var done := false;
    var pagesLeft := maxPages;
    reason := OutOfPages;
    while !done && pagesLeft > 0
      invariant !done ==> reason == OutOfPages && Walk(provider, after, earliestPlayedAt, pagesLeft, recentlyPlayed) == outcome
      invariant done ==> Outcome(recentlyPlayed, reason) == outcome
      decreases pagesLeft
    {
      var response := provider(earliestPlayedAt);
      var tracks := MapPage(response.items);
      recentlyPlayed := recentlyPlayed + tracks;
      if response.hasBefore && |tracks| > 0 {
        match tracks[|tracks| - 1].playedAt
        case Some(t) =>
          earliestPlayedAt := t;
          if earliestPlayedAt < after {
            done := true;
            reason := BoundaryCrossed;
          }
        case None =>
          done := true;
          reason := NullCursor;
      } else {
        done := true;
        reason := Exhausted;
      }
      pagesLeft := pagesLeft - 1;
    }
    WalkIsPaginate(provider, after, before, maxPages, []);
    assert [] + Paginate(provider, after, before, maxPages).tracks == Paginate(provider, after, before, maxPages).tracks;
    fetched := recentlyPlayed;
    inRange := FilterRange(recentlyPlayed, after, before);
  }
}
