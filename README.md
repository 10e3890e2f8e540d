# playlist-maker: a Dafny model of its core

playlist-maker is a small command-line program, written in TypeScript, for Spotify users.
It obtains an access token, then walks the user's recently-played history backwards from an end date.
Finally it keeps the plays that lie between a start date and the end date.
This project models the logic inside that program's I/O glue (`main.ts`) and proves properties of it.

- `auth_code.dfy` (`AuthCode`) covers `extractCode`, which turns the pasted redirect URL into an authorization code.
  The model follows the literal semantics of the regular expression `/code=([^&]+)/`.
  That is a leftmost substring search, so `xcode=1` matches and `code=&code=A` yields `A`.
- `token_cache.dfy` (`TokenCache`) covers `getAuthCode`:
  - when a cached `{code, expires_at}` record is accepted;
  - the whole seconds of lifetime recomputed from it;
  - the record written after a token exchange;
  - the two fatal errors.
  The clock, the pasted text and the token endpoint are parameters.
- `played_tracks.dfy` (`PlayedTracks`) covers:
  - the raw history items;
  - the flattened `PlayedTrack` records and the page map that builds them;
  - the final inclusive date-range filter.
- `pagination.dfy` (`Pagination`) covers the backward cursor walk.
  - `NextStep` is the step rule applied after each page.
  - `Paginate` is the whole walk as a recursive specification function.
  - `Walk` is the same walk in the loop's accumulating shape.
  - `GetPlayedTracksInTimeRange` is the imperative loop. It is proved to gather what `Paginate` gathers, and then it filters.
- `history_provider.dfy` (`HistoryProvider`) instantiates the provider with an endpoint that serves a fixed play history.
  - Each page holds at most `limit` plays strictly older than the cursor, newest first.
  - A "before" cursor is offered whenever the page is non-empty.
  - For a strictly descending history and enough pages, the walk ends on its own. The tracks then kept are exactly the history's plays in `[after, before)`, in order.
  - A play at exactly `before` is never fetched, although the filter would accept it. The first request already excludes the cursor itself.
- `wrappers.dfy` (`Wrappers`) holds `Option` and `Result`.

Times are epoch milliseconds held in `int`. A `played_at` that is null or empty is `None`.

## Model

| member | source | states |
|---|---|---|
| AuthCode.ExtractCode | main.ts:41-51 | Input not starting with "http" is returned unchanged. For "http" input, it fails exactly when no position holds "code=" followed by a non-'&'. Otherwise it returns the capture of the leftmost such match. The only failure is AuthCodeNotFound. |
| AuthCode.FindMatch | main.ts:45 | Returns the leftmost match position at or after `from`, with no match before it. Returns None exactly when no match exists from `from` on. |
| AuthCode.NonAmpersandRun | main.ts:45 | The greedy `[^&]+` run: it is a substring at `j` with no '&', and it ends at the end of the input or just before a '&'. |
| AuthCode.LeftmostCaptureUnique | main.ts:45-47 | The leftmost capture is determined: any two texts that are both leftmost captures are equal. |
| AuthCode.ExtractCodeExact | main.ts:45-50 | For "http" input, extraction succeeds with c if and only if c is the leftmost capture of the regular expression. |
| AuthCode.ExtractedCodeShape | main.ts:45-47 | A code extracted from a URL is non-empty and contains no '&'. |
| AuthCode.ExtractCodeRawCode | main.ts:42-44 | "abc123" is passed through as the code. |
| AuthCode.ExtractCodeMissing | main.ts:48-50 | A redirect URL without "code=" fails with AuthCodeNotFound. |
| AuthCode.ExtractCodeSkipsEmptyValue | main.ts:45-47 | "code=" followed directly by '&' is skipped, and the later "code=A" gives "A". |
| AuthCode.ExtractCodeFromRedirect | main.ts:45-47 | "https://x/cb?code=XYZ&state=foo" gives "XYZ". |
| TokenCache.Usable | main.ts:58-62 | The acceptance test itself, as a predicate without a contract of its own: the record was read, its code is a non-empty string and its expires_at lies strictly after now. `LoadCached` and `UsableUntilExpiry` state its consequences. |
| TokenCache.LoadCached | main.ts:58-69 | Returns a session exactly when the record exists, its code is non-empty and expires_at > now. The session carries the stored code and an empty refresh token. Its expires_in is floor((expires_at - now)/1000), so it is at least 0. |
| TokenCache.Save | main.ts:130-137 | The written record holds the new token and expires_at = now + 1000 * expires_in. |
| TokenCache.FailureDetail | main.ts:115-121 | The error detail is error_description unless that is absent or empty, in which case it is error. Both directions are stated. |
| TokenCache.ExchangeFailureDetail | main.ts:114-120 | When acquisition fails at the exchange, the endpoint answered not-ok. The failure carries error_description when it was sent non-empty, and error otherwise. |
| TokenCache.UsableUntilExpiry | main.ts:58-62 | Expiry is a deadline. A record accepted at some instant is accepted at every earlier instant, and it is rejected at its own expires_at. |
| TokenCache.GetAuthCode | main.ts:53-140 | A usable cache is resumed as the session `LoadCached` builds, and nothing is written. A failure happens only when the cache is unusable. The returned token is the session's access token. After an exchange, the endpoint answered ok. The session then holds the endpoint's access_token and expires_in, and its refresh_token or "" when it sent none. The written record is `Save` of that token and that expires_in at the saving instant. |
| TokenCache.SaveThenLoad | main.ts:58-137 | A record saved at t for e seconds is accepted at a later load exactly when the token is non-empty and now < t + 1000*e. The recomputed lifetime is at most e, and, for a positive e, it equals e at the saving instant. |
| TokenCache.CachedTokenSkipsExchange | main.ts:58-70 | With a usable cache, acquisition succeeds with the cached code and writes nothing. The outcome does not depend on the pasted text or the endpoint. |
| TokenCache.UnusableCacheIsAbsent | main.ts:53-75 | An expired, empty or unreadable cache behaves exactly like no cache. |
| TokenCache.AcquisitionFailures | main.ts:87-121 | Acquisition fails with AuthCodeNotFound exactly when the cache is unusable and the pasted URL has no match. It fails with TokenExchangeFailed exactly when the cache is unusable, a code was extracted and the endpoint answered not-ok. |
| TokenCache.FreshTokenIsCached | main.ts:123-139 | A freshly exchanged token is written so that a later load at now resumes it exactly when it is non-empty and now < savedAt + 1000*expires_in, where expires_in is the endpoint's answer. |
| PlayedTracks.ArtistNames | main.ts:177 | There is one name per artist, and the name at each position is that artist's name. |
| PlayedTracks.ToPlayedTrack | main.ts:171-182 | The record keeps the item's context and played_at. Its track has the track's Spotify URL, name and id, the album's name and Spotify URL, and the artists' names in order. |
| PlayedTracks.MapPage | main.ts:170-183 | Mapping a page keeps its item count, and the record at each position is the flattened item at that position. |
| PlayedTracks.MapPageConcat | main.ts:170-185 | Mapping distributes over concatenation, so mapping pages one at a time equals mapping them together. |
| PlayedTracks.FilterRange | main.ts:211-215 | The output is no longer than the input, and every kept track has a play time in [after, before]. |
| PlayedTracks.FilterRangeMembers | main.ts:211-215 | A track is in the output if and only if it is in the input with a present play time in [after, before]. |
| PlayedTracks.FilterRangePositions | main.ts:211-215 | The output is the input read at strictly increasing positions. Those positions are exactly the in-range ones, so the filter is an order-preserving subsequence. |
| PlayedTracks.FilterRangeConcat | main.ts:211-215 | Filtering distributes over concatenation. |
| PlayedTracks.FilterRangeIdempotent | main.ts:211-215 | Filtering twice equals filtering once. |
| PlayedTracks.FilterRangeNone | main.ts:211-215 | Tracks all out of range are all dropped. |
| PlayedTracks.FilterRangeSameBounds | main.ts:211-215 | Two upper bounds that agree on every track give the same output. |
| Pagination.NextStep | main.ts:194-206 | The walk stops on Exhausted exactly when no cursor is offered or the page is empty. It stops on NullCursor exactly when the page offers a cursor but its last item has no play time. It continues only from a non-empty page that offers a cursor; the next cursor is the last item's play time and is not before `after`. BoundaryCrossed is reported only when that time is before `after`. The page bound is never the step rule's decision. |
| Pagination.Paginate | main.ts:154-209 | At most `fuel` fetches happen. With fuel left, the first fetch is at the start cursor. A walk reported as cut by the bound made exactly `fuel` fetches. |
| Pagination.PaginateUnroll | main.ts:158-206 | One round: the page at the cursor is kept in full. Then the walk stops with the step rule's reason, or the rest of the walk follows from the new cursor. |
| Pagination.PaginateKeepsPages | main.ts:154-209 | The first fetch is at the start cursor. At most `fuel` fetches happen. The accumulated tracks are the fetched pages concatenated in fetch order, including the page that crosses `after`. |
| Pagination.PaginateFollowsStepRule | main.ts:155-206 | Each fetch after the first is at the cursor the step rule chose after the previous page. The last page's decision is the reported stop reason. A walk cut by the bound used every page, and its last decision was to continue. |
| Pagination.FollowsAtStop | main.ts:194-206 | A walk whose first page stops it follows the step rule. |
| Pagination.FollowsAfterContinue | main.ts:194-200 | A walk that continues follows the step rule when its remainder does. |
| Pagination.Walk | main.ts:158-185 | The accumulating walk only appends: what it held at the start is a prefix of what it returns. |
| Pagination.WalkIsPaginate | main.ts:154-209 | The accumulating walk appends to what it holds exactly the tracks of the recursive walk, and it stops for the same reason. |
| Pagination.GetPlayedTracksInTimeRange | main.ts:154-215 | Starting from cursor `before`, the loop accumulates exactly the walk's tracks and stops for the walk's reason. It returns the range filter of what it accumulated. |
| HistoryProvider.Older | main.ts:165-168 | The result is no longer than the history, and each of its plays is strictly before the cursor. |
| HistoryProvider.OlderMembers | main.ts:165-168 | A play is in the result if and only if it is in the history and was played strictly before the cursor. |
| HistoryProvider.HistoryPage | main.ts:165-168 | A page holds at most `limit` items and offers a "before" cursor exactly when it is non-empty. |
| HistoryProvider.OlderIsSuffix | main.ts:165-168 | In a descending history, the plays before a cursor form a suffix. Every play before that suffix is at or after the cursor. |
| HistoryProvider.OlderThanPlay | main.ts:197 | The plays before the play at position j are exactly those after position j. |
| HistoryProvider.FirstPage | main.ts:165-195 | At a cursor with older plays, the page holds the next m >= 1 plays. The plays before its last play time are the ones after the page. |
| HistoryProvider.PageAt | main.ts:165-197 | The same fact, stated over the plays before the cursor. |
| HistoryProvider.RoundStops | main.ts:194-200 | A page whose last play is before `after` ends the walk on BoundaryCrossed, having gathered exactly that page. |
| HistoryProvider.RoundContinues | main.ts:185-200 | A page whose last play is at or after `after` is kept, and what the rest of the walk gathers extends it. |
| HistoryProvider.RoundAtEnd | main.ts:194-206 | A cursor with no older plays gets an empty page and ends the walk on Exhausted. |
| HistoryProvider.ExtendPrefix | main.ts:185 | A page of the first m plays followed by a walk gathering n more gathers the first m+n. |
| HistoryProvider.WalkGathersPrefix | main.ts:154-209 | With more pages than older plays, the walk gathers exactly the first n plays before the cursor, for some n. It ends on Exhausted with all of them, or on BoundaryCrossed at a play before `after`. |
| HistoryProvider.FilterPrefix | main.ts:211-215 | Filtering the gathered prefix keeps what filtering all the older plays keeps. |
| HistoryProvider.FilterBelowBefore | main.ts:211-215 | When the plays at or after `before` precede the older ones, filtering the older ones with [after, before] equals filtering the whole history with [after, before - 1]. |
| HistoryProvider.FetchRangeComplete | main.ts:154-215 | For a descending history and enough pages, the walk from `before` ends on its own, on Exhausted or BoundaryCrossed. What the filter keeps is exactly the history's plays in [after, before), in history order. |
| HistoryProvider.FetchRangeCompleteAtPageSize | main.ts:165-215 | The same guarantee at the page size of 50 that the program requests. |

## Left out

- The Spotify Web API client is not modelled. `SpotifyApi.withAccessToken` becomes the `Session` value. `getRecentlyPlayedTracks` becomes the `provider` function from cursor to page.
- The token exchange's HTTP POST, the base64 Basic-auth header and the form body are foreign code and network. The exchange is a function parameter from code to response.
- The authorize URL (main.ts:77-83) is only printed, and its construction depends on `encodeURIComponent`. It is not modelled.
- File reads and writes and JSON parsing are not modelled. A failed read or parse of authCode.json is `None`. The final write of recentlyPlayed.json is dropped.
- The debug dump to response.json (main.ts:192) is not modelled. A successful write leaves the result unchanged. The write is awaited, so a failing write throws and ends the run; the model assumes every write succeeds.
- Thrown errors other than the two fatal acquisition errors are not modelled. The `provider` and `exchange` parameters are total functions. So the model does not capture these failures:
  - the history call (main.ts:165-168) throwing;
  - the token request (main.ts:90-104) rejecting;
  - `tokenResponse.json()` (main.ts:106) throwing on a body that is not JSON, before `ok` is tested.
- `Save` holds the declared content of authCode.json. That the write is not awaited is not modelled.
- The prompts, the environment configuration and the console output are interactive I/O and are not modelled.
- Date parsing is not modelled. Dates and `played_at` strings are already-parsed epoch milliseconds. An unparseable date (NaN) is not modelled.
- The one-second delay between fetches (main.ts:208) is timing only and is not modelled.
- The module-level `spotifyApi` and `rl` objects are not modelled.
- `LoadCached` reads the clock once. main.ts reads it twice, at lines 61 and 66; an instant passing between the two reads is not modelled.
- `Pagination.GetPlayedTracksInTimeRange`: it is bounded by `maxPages` fetches, while the loop of main.ts has no bound. When the bound ends the walk, the model reports `OutOfPages`. `HistoryProvider.FetchRangeComplete` proves that, over a descending history, a bound above the history's length is never reached.
- `HistoryProvider.FetchRangeComplete`: it assumes what the real endpoint does with its cursor. The cursor is exclusive, pages are newest first, and play times are strictly decreasing without ties. With ties at a page boundary, the real endpoint could skip or repeat plays; this is not modelled.
- A cached `code` that is present but not a string is read as `None`. main.ts:60 would accept a truthy non-string value, such as a number, and return it. The model's `string` field cannot hold it.
- Untyped fields (`context`) are kept as opaque text. The rest of the SDK's item record is not modelled.
