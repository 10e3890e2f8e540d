/**
  The walk against a provider that serves a fixed play history the way the
  history endpoint does: at most `limit` plays (the program asks for 50) that
  were played strictly before the cursor, newest first, with a "before" cursor
  offered whenever the page is non-empty.

  For a history whose play times are present and strictly decreasing, a walk
  with enough pages ends on its own, and filtering what it gathered gives exactly
  the plays of the history in the requested range. Because the first cursor is
  `before` and the endpoint excludes the cursor itself, a play at exactly
  `before` is never fetched, although the filter would keep it.
 */
module HistoryProvider {
  import opened Wrappers
  import opened PlayedTracks
  import opened Pagination

  /** The page size the program requests (main.ts:165). */
  const PageSize: nat := 50

  predicate PlayedBefore(item: RawItem, cursor: int)
  {
    item.playedAt.Some? && item.playedAt.value < cursor
  }

  /** The plays of the history strictly before the cursor, in history order. */
  function Older(history: seq<RawItem>, cursor: int): (r: seq<RawItem>)
    ensures |r| <= |history|
    ensures forall i :: 0 <= i < |r| ==> PlayedBefore(r[i], cursor)
  {
    if history == [] then []
    else (if PlayedBefore(history[0], cursor) then [history[0]] else []) + Older(history[1..], cursor)
  }

  /** Older keeps exactly the plays of the history strictly before the cursor. */
  lemma {:induction false} OlderMembers(history: seq<RawItem>, cursor: int)
    ensures forall x :: x in Older(history, cursor) <==> x in history && PlayedBefore(x, cursor)
  {
    if history != [] {
      OlderMembers(history[1..], cursor);
      assert history == [history[0]] + history[1..];
    }
  }

  /** The endpoint's answer at `cursor`. */
  function HistoryPage(history: seq<RawItem>, limit: nat, cursor: int): (p: Page)
    ensures |p.items| <= limit
    ensures p.hasBefore <==> p.items != []
  {
    var older := Older(history, cursor);
    var items := if |older| <= limit then older else older[..limit];
    Page(items, items != [])
  }

  /** The provider answers at `cursor` as the endpoint over `history` does. */
  ghost predicate Serves(provider: int -> Page, history: seq<RawItem>, limit: nat, cursor: int)
  {
    provider(cursor) == HistoryPage(history, limit, cursor)
  }

  /** The play at position j happened strictly before the play at position i. */
  ghost predicate PlayedAfter(history: seq<RawItem>, i: nat, j: nat)
    requires i < |history| && j < |history|
    requires history[i].playedAt.Some? && history[j].playedAt.Some?
  {
    history[j].playedAt.value < history[i].playedAt.value
  }

  /** Every play time is present and the history is ordered newest first, without ties. */
  ghost predicate Descending(history: seq<RawItem>)
  {
    && (forall i :: 0 <= i < |history| ==> history[i].playedAt.Some?)
    && (forall i: nat, j: nat :: i < j < |history| ==> PlayedAfter(history, i, j))
  }

  lemma {:induction false} OlderOfAllOlder(history: seq<RawItem>, cursor: int)
    requires forall i :: 0 <= i < |history| ==> PlayedBefore(history[i], cursor)
    ensures Older(history, cursor) == history
  {
    if history != [] {
      OlderOfAllOlder(history[1..], cursor);
    }
  }

  /** In a descending history the plays before a cursor form a suffix, preceded by the plays at or after it. */
  lemma {:induction false} OlderIsSuffix(history: seq<RawItem>, cursor: int) returns (k: nat)
    requires Descending(history)
    ensures k <= |history| && Older(history, cursor) == history[k..]
    ensures forall i :: 0 <= i < k ==> cursor <= history[i].playedAt.value
    ensures forall i :: k <= i < |history| ==> history[i].playedAt.value < cursor
  {
    if history == [] {
      k := 0;
    } else if PlayedBefore(history[0], cursor) {
      forall i | 0 <= i < |history| ensures PlayedBefore(history[i], cursor) {
        if 0 < i { assert PlayedAfter(history, 0, i); }
      }
      OlderOfAllOlder(history, cursor);
      k := 0;
    } else {
      var tail := history[1..];
      assert Descending(tail) by {
        forall i: nat, j: nat | i < j < |tail| ensures PlayedAfter(tail, i, j) {
          assert tail[i] == history[i + 1] && tail[j] == history[j + 1];
          assert PlayedAfter(history, i + 1, j + 1);
        }
      }
      var k' := OlderIsSuffix(tail, cursor);
      k := k' + 1;
      assert history[k..] == tail[k'..];
      forall i | 0 <= i < k ensures cursor <= history[i].playedAt.value {
        if 0 < i { assert history[i] == tail[i - 1]; }
      }
      forall i | k <= i < |history| ensures history[i].playedAt.value < cursor {
        assert history[i] == tail[i - 1];
      }
    }
  }

  /** The plays before the play at position j are exactly those after it. */
  lemma OlderThanPlay(history: seq<RawItem>, j: nat)
    requires Descending(history) && j < |history|
    ensures Older(history, history[j].playedAt.value) == history[j + 1..]
  {
    var t := history[j].playedAt.value;
    var k := OlderIsSuffix(history, t);
    assert j + 1 < |history| ==> PlayedAfter(history, j, j + 1);
    assert k == j + 1;
  }

  /** Filtering mapped plays that all precede `after` keeps nothing. */
  lemma MappedBelowNone(items: seq<RawItem>, after: int, hi: int)
    requires forall i :: 0 <= i < |items| ==> PlayedBefore(items[i], after)
    ensures FilterRange(MapPage(items), after, hi) == []
  {
    forall i | 0 <= i < |MapPage(items)| ensures !InRange(MapPage(items)[i], after, hi) {
    }
    FilterRangeNone(MapPage(items), after, hi);
  }

  /** Past a play that precedes `after`, nothing of a descending history is in range. */
  lemma OlderThanCrossingNone(history: seq<RawItem>, j: nat, after: int, hi: int)
    requires Descending(history) && j < |history| && history[j].playedAt.value < after
    ensures FilterRange(MapPage(history[j + 1..]), after, hi) == []
  {
    var suffix := history[j + 1..];
    forall i | 0 <= i < |suffix| ensures PlayedBefore(suffix[i], after) {
      assert suffix[i] == history[j + 1 + i];
      assert PlayedAfter(history, j, j + 1 + i);
    }
    MappedBelowNone(suffix, after, hi);
  }

  /** After a non-empty page offering a cursor, the step rule looks only at the last play's time. */
  lemma StepAfterPage(items: seq<RawItem>, after: int)
    requires items != [] && items[|items| - 1].playedAt.Some?
    ensures var t := items[|items| - 1].playedAt.value;
      NextStep(true, MapPage(items), after) == if t < after then Stop(BoundaryCrossed) else Continue(t)
  {
    assert MapPage(items)[|items| - 1] == ToPlayedTrack(items[|items| - 1]);
  }

  /**
    At a cursor whose older plays are the non-empty remainder history[k..] of a descending
    history, the page holds the next m plays; the plays before its last play time t are
    the ones after the page.
   */
  lemma FirstPage(history: seq<RawItem>, limit: nat, cursor: int, k: nat) returns (m: nat, t: int)
    requires Descending(history) && 1 <= limit
    requires k < |history| && Older(history, cursor) == history[k..]
    ensures 1 <= m && k + m <= |history|
    ensures HistoryPage(history, limit, cursor) == Page(history[k..k + m], true)
    ensures t == history[k + m - 1].playedAt.value && Older(history, t) == history[k + m..]
  {
    if |history[k..]| <= limit {
      m := |history| - k;
      assert history[k..k + m] == history[k..];
    } else {
      m := limit;
      assert history[k..][..m] == history[k..k + m];
    }
    assert HistoryPage(history, limit, cursor).items == history[k..k + m];
    t := history[k + m - 1].playedAt.value;
    OlderThanPlay(history, k + m - 1);
    assert k + m - 1 + 1 == k + m;
  }

  /** The filter sees a remainder of the history as its first page followed by the rest. */
  lemma FilterSplitsAtPage(history: seq<RawItem>, k: nat, m: nat, after: int, hi: int)
    requires k + m <= |history|
    ensures FilterRange(MapPage(history[k..]), after, hi) ==
      FilterRange(MapPage(history[k..k + m]), after, hi) + FilterRange(MapPage(history[k + m..]), after, hi)
  {
    var page, rest := history[k..k + m], history[k + m..];
    assert history[k..] == page + rest;
    MapPageConcat(page, rest);
    FilterRangeConcat(MapPage(page), MapPage(rest), after, hi);
  }

  /** When a page ends before `after`, the filter keeps nothing of the history past it. */
  lemma FilterStopsAtCrossing(history: seq<RawItem>, k: nat, m: nat, after: int, hi: int)
    requires Descending(history) && 1 <= m && k + m <= |history|
    requires history[k + m - 1].playedAt.value < after
    ensures FilterRange(MapPage(history[k..]), after, hi) == FilterRange(MapPage(history[k..k + m]), after, hi)
  {
    OlderThanCrossingNone(history, k + m - 1, after, hi);
    FilterSplitsAtPage(history, k, m, after, hi);
    assert history[k + m - 1 + 1..] == history[k + m..];
    assert FilterRange(MapPage(history[k..k + m]), after, hi) + [] == FilterRange(MapPage(history[k..k + m]), after, hi);
  }

  /** A page followed by the plays after it, mapped, is the mapped prefix they make up together. */
  lemma PrefixGrows(older: seq<RawItem>, m: nat, n: nat)
    requires m + n <= |older|
    ensures MapPage(older[..m]) + MapPage(older[m..][..n]) == MapPage(older[..m + n])
  {
    assert older[..m + n] == older[..m] + older[m..][..n];
    MapPageConcat(older[..m], older[m..][..n]);
  }

  /**
    The walk gathered exactly the first n of the plays `older` and ended on its own:
    with all of them, or on a block whose last play lies before `after`.
   */
  ghost predicate GathersPrefix(run: Run, older: seq<RawItem>, after: int, n: nat)
  {
    && n <= |older|
    && run.tracks == MapPage(older[..n])
    && (run.reason == Exhausted || run.reason == BoundaryCrossed)
    && (run.reason == Exhausted ==> n == |older|)
    && (run.reason == BoundaryCrossed ==>
          0 < n && older[n - 1].playedAt.Some? && older[n - 1].playedAt.value < after)
  }

  /** The provider serves `history` as the endpoint does, the history is descending and pages are non-empty. */
  ghost predicate ServesHistory(provider: int -> Page, history: seq<RawItem>, limit: nat)
  {
    Descending(history) && 1 <= limit && forall c :: Serves(provider, history, limit, c)
  }

  /**
    The page served at `cursor` holds the first m of the plays before it, offers a
    "before" cursor, and the plays before its last play time t are the ones after it.
   */
  ghost predicate PageEndsAt(history: seq<RawItem>, limit: nat, cursor: int, m: nat, t: int)
  {
    var older := Older(history, cursor);
    && 1 <= m <= |older|
    && HistoryPage(history, limit, cursor) == Page(older[..m], true)
    && older[m - 1].playedAt == Some(t)
    && Older(history, t) == older[m..]
  }

  /** A cursor with plays before it is served a page as PageEndsAt describes. */
  lemma PageAt(provider: int -> Page, history: seq<RawItem>, limit: nat, cursor: int) returns (m: nat, t: int)
    requires ServesHistory(provider, history, limit)
    requires Older(history, cursor) != []
    ensures PageEndsAt(history, limit, cursor, m, t)
    ensures |Older(history, t)| < |Older(history, cursor)|
  {
    var s := OlderIsSuffix(history, cursor);
    m, t := FirstPage(history, limit, cursor, s);
    var older := Older(history, cursor);
    assert older[..m] == history[s..s + m];
    assert older[m - 1] == history[s + m - 1];
    assert older[m..] == history[s + m..];
  }

  /** A round whose page ends before `after` ends the walk: it gathered exactly that page. */
  lemma RoundStops(provider: int -> Page, history: seq<RawItem>, limit: nat, after: int, cursor: int, fuel: nat, m: nat, t: int)
    requires 0 < fuel && ServesHistory(provider, history, limit)
    requires PageEndsAt(history, limit, cursor, m, t) && t < after
    ensures GathersPrefix(Paginate(provider, after, cursor, fuel), Older(history, cursor), after, m)
  {
    var older := Older(history, cursor);
    PaginateUnroll(provider, after, cursor, fuel);
    assert Serves(provider, history, limit, cursor);
    assert older[..m][m - 1] == older[m - 1];
    StepAfterPage(older[..m], after);
    assert StepAt(provider, after, cursor) == Stop(BoundaryCrossed);
    assert older[..m][..m] == older[..m];
  }

  /** A round whose page ends at or after `after` goes on from t, and what the rest gathers extends the page. */
  lemma RoundContinues(
    provider: int -> Page, history: seq<RawItem>, limit: nat, after: int, cursor: int, fuel: nat, m: nat, t: int, n: nat)
    requires 0 < fuel && ServesHistory(provider, history, limit)
    requires PageEndsAt(history, limit, cursor, m, t) && after <= t
    requires GathersPrefix(Paginate(provider, after, t, fuel - 1), Older(history, t), after, n)
    ensures GathersPrefix(Paginate(provider, after, cursor, fuel), Older(history, cursor), after, m + n)
  {
    var older := Older(history, cursor);
    PaginateUnroll(provider, after, cursor, fuel);
    assert Serves(provider, history, limit, cursor);
    assert older[..m][m - 1] == older[m - 1];
    StepAfterPage(older[..m], after);
    assert StepAt(provider, after, cursor) == Continue(t);
    ExtendPrefix(Paginate(provider, after, cursor, fuel), Paginate(provider, after, t, fuel - 1), older, after, m, n);
  }

  /** A walk from a cursor with no plays before it fetches one empty page and reports the history exhausted. */
  lemma RoundAtEnd(provider: int -> Page, history: seq<RawItem>, limit: nat, after: int, cursor: int, fuel: nat)
    requires 0 < fuel && ServesHistory(provider, history, limit)
    requires Older(history, cursor) == []
    ensures GathersPrefix(Paginate(provider, after, cursor, fuel), Older(history, cursor), after, 0)
  {
    PaginateUnroll(provider, after, cursor, fuel);
    assert Serves(provider, history, limit, cursor);
    assert StepAt(provider, after, cursor) == Stop(Exhausted);
  }

  /** A round that keeps the first m plays and goes on to a walk gathering a prefix of the rest gathers both. */
  lemma ExtendPrefix(run: Run, rest: Run, older: seq<RawItem>, after: int, m: nat, n: nat)
    requires 1 <= m <= |older| && GathersPrefix(rest, older[m..], after, n)
    requires run.tracks == MapPage(older[..m]) + rest.tracks && run.reason == rest.reason
    ensures GathersPrefix(run, older, after, m + n)
  {
    PrefixGrows(older, m, n);
    assert 0 < n ==> older[m..][n - 1] == older[m + n - 1];
  }

  /**
    From any cursor, a walk with more pages than there are plays before the cursor
    gathers exactly the first n of those plays, for some n: it ends because the history
    is exhausted (n covers them all) or because the n-th lies before `after`.
   */
  lemma {:induction false} WalkGathersPrefix(
    provider: int -> Page, history: seq<RawItem>, limit: nat, after: int, cursor: int, fuel: nat)
    returns (n: nat)
    requires ServesHistory(provider, history, limit)
    requires |Older(history, cursor)| < fuel
    ensures GathersPrefix(Paginate(provider, after, cursor, fuel), Older(history, cursor), after, n)
    decreases fuel
  {
    if Older(history, cursor) != [] {
      var m, t := PageAt(provider, history, limit, cursor);
      if t < after {
        n := m;
        RoundStops(provider, history, limit, after, cursor, fuel, m, t);
      } else {
        var n' := WalkGathersPrefix(provider, history, limit, after, t, fuel - 1);
        n := m + n';
        RoundContinues(provider, history, limit, after, cursor, fuel, m, t, n');
      }
    } else {
      n := 0;
      RoundAtEnd(provider, history, limit, after, cursor, fuel);
    }
  }

  /** What the filter keeps of a prefix gathered by a walk is what it keeps of all the plays before the cursor. */
  lemma FilterPrefix(history: seq<RawItem>, k: nat, n: nat, after: int, hi: int)
    requires Descending(history) && k + n <= |history|
    requires k + n == |history| || (0 < n && history[k + n - 1].playedAt.value < after)
    ensures FilterRange(MapPage(history[k..][..n]), after, hi) == FilterRange(MapPage(history[k..]), after, hi)
  {
    assert history[k..][..n] == history[k..k + n];
    if k + n < |history| {
      FilterStopsAtCrossing(history, k, n, after, hi);
    } else {
      assert history[k..k + n] == history[k..];
    }
  }

  /** Plays at or after `before` fall outside [after, before) and the rest may use the closed bound before - 1. */
  lemma FilterBelowBefore(history: seq<RawItem>, k: nat, after: int, before: int)
    requires k <= |history|
    requires forall i :: 0 <= i < k ==> history[i].playedAt.Some? && before <= history[i].playedAt.value
    requires forall i :: k <= i < |history| ==> history[i].playedAt.Some? && history[i].playedAt.value < before
    ensures FilterRange(MapPage(history[k..]), after, before) == FilterRange(MapPage(history), after, before - 1)
  {
    assert history == history[..k] + history[k..];
    MapPageConcat(history[..k], history[k..]);
    FilterRangeConcat(MapPage(history[..k]), MapPage(history[k..]), after, before - 1);
    forall i | 0 <= i < |MapPage(history[..k])| ensures !InRange(MapPage(history[..k])[i], after, before - 1) {
      assert history[..k][i] == history[i];
    }
    FilterRangeNone(MapPage(history[..k]), after, before - 1);
    forall i | 0 <= i < |MapPage(history[k..])|
      ensures InRange(MapPage(history[k..])[i], after, before) <==> InRange(MapPage(history[k..])[i], after, before - 1)
    {
      assert history[k..][i] == history[k + i];
    }
    FilterRangeSameBounds(MapPage(history[k..]), after, before, before - 1);
  }

  /**
    The end-to-end property of the walk and the filter: for a descending history and
    more pages than plays, fetching from `before` ends on its own, and the tracks kept
    are exactly the history's plays in [after, before), in history order.
   */
  lemma FetchRangeComplete(provider: int -> Page, history: seq<RawItem>, limit: nat, after: int, before: int, fuel: nat)
    requires Descending(history) && 1 <= limit
    requires forall c :: Serves(provider, history, limit, c)
    requires |history| < fuel
    ensures var run := Paginate(provider, after, before, fuel);
      && (run.reason == Exhausted || run.reason == BoundaryCrossed)
      && FilterRange(run.tracks, after, before) == FilterRange(MapPage(history), after, before - 1)
  {
    var k := OlderIsSuffix(history, before);
    var n := WalkGathersPrefix(provider, history, limit, after, before, fuel);
    if 0 < n && k + n < |history| {
      assert history[k..][n - 1] == history[k + n - 1];
    }
    FilterPrefix(history, k, n, after, before);
    FilterBelowBefore(history, k, after, before);
  }

  /** The same guarantee at the page size the program requests. */
  lemma FetchRangeCompleteAtPageSize(provider: int -> Page, history: seq<RawItem>, after: int, before: int, fuel: nat)
    requires Descending(history)
    requires forall c :: Serves(provider, history, PageSize, c)
    requires |history| < fuel
    ensures var run := Paginate(provider, after, before, fuel);
      && (run.reason == Exhausted || run.reason == BoundaryCrossed)
      && FilterRange(run.tracks, after, before) == FilterRange(MapPage(history), after, before - 1)
  {
    FetchRangeComplete(provider, history, PageSize, after, before, fuel);
  }
}
