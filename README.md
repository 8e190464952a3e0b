# Event timeline windowing and pagination, modelled in Dafny

The service loads a log of API-call events once, at start-up. It then answers
`/events?userId=…&eventId=…&limit=…&page=…` with a contiguous, time-ordered
window of that user's events. This project models and proves the three parts
of `main.go` that hold the logic:

- **`prepareDb`** (`Store.PrepareDb`): an imperative method.
  - It groups the events by user in a loop that appends to a map of lists (`Store.GroupByUser`).
  - It sorts each list in place by timestamp (`Store.SortByTimestamp`, an insertion sort on an `array` standing in for `sort.Slice`).
  - It writes every event id's position into the global `eventIndex` in a nested loop (`Store.IndexPositions`).
  - The outer loop over the users picks them in an arbitrary order (`:|`), as Go's map iteration does.
- **`getEventList`** (`Query.GetEventList`): a function returning a `Result`.
  1. Look up the user.
  2. Resolve the anchor event through the index.
  3. Re-centre the range when `limit` parses (`Paging.Window`).
  4. Paginate.
  5. Slice.

  A slice whose bounds Go would reject at run time is the error `SliceOutOfRange`.
- **`paginate`** (`Paging.Paginate`): a pure function that shifts a range by `page * limit` and clamps it to `[0, max]`.

`strconv.Atoi` is modelled as a decimal parser with an optional sign (`Strconv.Atoi`, `None` on a syntax error). On a syntax error Go's `Atoi` yields 0, so the limit passed to `paginate` is then 0. Go's truncating `limit/2` is `Paging.Half`.

Modules:

| module | file | contents |
|---|---|---|
| `Wrappers` | `wrappers.dfy` | `Option` and `Result` |
| `Strconv` | `strconv.dfy` | `Atoi`, and `FormatInt` as its inverse |
| `Events` | `events.dfy` | the event record; per-user selection (`EventsOf`, `ByUser`); id uniqueness |
| `Store` | `store.dfy` | `prepareDb` and its loops, invariants and step lemmas |
| `Paging` | `paging.dfy` | the window and `paginate` arithmetic |
| `Query` | `query.dfy` | `getEventList` as written, the corrected query, and the findings |
| `Scenarios` | `scenarios.dfy` | the requests of the service's test table, over any timeline long enough for the table's windows (15 or more events), plus a ten-event scenario |

## Model

| member | source | states |
|---|---|---|
| Strconv.Atoi | main.go:287 | the text parses exactly when it is an optional sign followed by one or more digits; a leading '-' gives a value <= 0, anything else a value >= 0 |
| Strconv.AtoiFormatInt | main.go:307-308 | parsing the decimal form of any integer gives that integer back (Atoi inverts Itoa) |
| Events.EventsOfCount | main.go:234-240 | a user's events contain every input event of that user as often as the input does, and no event of another user |
| Events.EventsOfEmpty | main.go:235-238 | a user has no events exactly when the user does not occur in the input (when a new list is created) |
| Events.ByUserSnoc | main.go:234-240 | appending one event to the input appends it to its own user's list and changes no other list |
| Events.SameIdSameEvent | main.go:250-253 | with distinct ids, two input events with the same id are the same event |
| Store.GroupByUser | main.go:234-240 | the map's keys are exactly the users in the input, and each list is exactly that user's events in input order |
| Store.SortByTimestamp | main.go:245-247 | the array ends non-decreasing by timestamp and is a permutation of its old contents |
| Store.InsertAt | main.go:245-247 | one insertion step extends the sorted prefix by one element, keeps the multiset of elements and leaves every element after position i where it was |
| Store.SortedCopy | main.go:245-248 | the stored list is sorted by timestamp and a permutation of the grouped list |
| Store.IndexPositions | main.go:250-253 | the index gains exactly the ids of the list; each maps to its last position in the list; other entries are unchanged; with distinct ids every position maps back to itself |
| Store.IndexedUpToStep | main.go:250-253 | one index write keeps "each id seen so far maps to its last position seen" |
| Store.StoredEventOf | main.go:234-248 | every event in a stored list is an input event of that list's user |
| Store.OtherUsersId | main.go:250-253 | with distinct ids, no id of one user's list occurs in another user's list, so a later user never overwrites an earlier user's entries |
| Store.IndexStep | main.go:242-254 | one user's index pass keeps every index entry a position holding that id in an already-visited user's list |
| Store.ExactStep | main.go:242-254 | with distinct ids, one user's pass keeps "every position of every visited list is what the index stores for its id" |
| Store.VisitUser | main.go:242-254 | one iteration of the outer loop (sort, store, index) keeps the loop invariant with the user removed from those still to visit |
| Store.FinishLoop | main.go:242-259 | once every user has been visited, the invariant gives everything `PrepareDb` promises |
| Store.PrepareDb | main.go:228-260 | for any input: every user has a list that is a sorted permutation of exactly their events; the index keys are exactly the event ids; every index entry is a position holding that id in some list; with distinct ids, `eventIndex[L[i].id] == i` for every list L and position i |
| Paging.Half | main.go:289 | the quotient of Go's `limit/2`, rounded toward zero for negative limits |
| Paging.Window | main.go:287-298 | for an anchor in `[0, N)` and limit > 0 the window holds the anchor and is exactly `min(limit, N)` long within `[0, N]`; a limit >= 0 from a start in `[0, N]` stays in bounds; a negative limit always inverts the range |
| Paging.WindowIsClamped | main.go:287-298 | for limit >= 0 the window equals an independent closed form: start `max(0, min(s - limit/2, N - limit))`, end `min(N, start + limit)` |
| Paging.WindowZero | main.go:287-298 | a limit of 0 collapses the window to the empty range at the anchor |
| Paging.PageOffset | main.go:307-309 | an offset exists exactly when the page parses, and it is page * limit |
| Paging.Paginate | main.go:305-315 | an unparseable page leaves the range unchanged; otherwise both ends lie in `[0, max]` and an ordered range stays ordered |
| Paging.PaginateShifts | main.go:309-311 | a page that keeps the range inside `[0, max]` shifts both ends by exactly page * limit |
| Paging.PaginateOutside | main.go:309-311 | a page past the end gives `(max, max)`; a page before the start gives `(0, 0)` |
| Paging.PaginateZeroLimit | main.go:300 | with limit 0 (no limit parsed) any in-range range is returned unchanged, whatever the page |
| Paging.PaginateNarrows | main.go:309-311 | clamping never makes the range longer than it was |
| Query.Slice | main.go:302 | `events[lo:hi]` succeeds exactly when `0 <= lo <= hi <= len` and then holds events lo to hi-1; otherwise it fails with those bounds |
| Query.GetEventList | main.go:263-303 | fails with UserNotFound exactly for an unknown user; fails with EventNotFound exactly for a non-empty eventId missing from the index, whatever the limit and page; any success is a contiguous slice of the user's timeline |
| Query.AnchorOnly | main.go:273-285 | an anchor at k in the timeline and no limit give exactly the event at k, whatever the page |
| Query.WholeTimeline | main.go:273 | no eventId and no limit give the user's whole sorted timeline, whatever the page |
| Query.CentredWindow | main.go:287-298 | limit L > 0, no page and an anchor k in the timeline give the `min(L, N)` events starting at `max(0, min(k - L/2, N - L))`, which include k |
| Query.FirstEvents | main.go:287-298 | limit L > 0, no anchor and no page give the first `min(L, N)` events |
| Query.PagedWindow | main.go:300 | with a limit and a page that keeps the window inside the timeline, the result is the window shifted by page * limit |
| Query.InRangeSucceeds | main.go:263-303 | an anchor inside the timeline (or none) and a limit that is absent or >= 0 always give a successful slice |
| Query.NegativeLimitFails | main.go:287-302 | a negative limit that parses, with an anchor >= 0 (or none) and no page, always ends in out-of-range slice bounds |
| Query.NegativeLimitExample | main.go:287-302 | limit "-2" without anchor or page gives the bounds `[1:-1]` on any user's timeline |
| Query.PositiveLimit | main.go:287 | the limit is kept exactly when it parses to a positive value, and then with that value |
| Query.GetEventListIntended | main.go:263-303 | the corrected query: UserNotFound exactly for an unknown user; EventNotFound exactly when the eventId does not name an event of that user's own timeline; never out-of-range bounds |
| Query.IntendedHoldsAnchor | main.go:273-298 | in the corrected query the anchored event is in the answer whenever no page moves the window: no limit, no parsable page, or a page that parses to 0 |
| Query.RangeHoldsAnchor | main.go:283-300 | the range around an anchor k in `[0, N)` stays inside `[0, N]` and holds k when there is no limit, or a positive limit with no parsable page or a page that parses to 0 |
| Query.IntendedAgrees | main.go:263-303 | when the anchor is the user's own event (or absent) and the limit is absent or positive, the two queries agree |
| Query.IntendedRejectsForeign | main.go:278-280 | in a store built from events with distinct ids, the corrected query answers EventNotFound for another user's event id |
| Query.OwnEventFound | main.go:273-285 | in a store built from events with distinct ids, asking for a user's own event without a limit returns exactly that event, in both queries |
| Query.TwoUsersStore | main.go:228-260 | every store built from one event of user a and one of user b has exactly those two one-event lists, with a's event at index 0 |
| Query.ForeignEventIdExample | main.go:278-285 | asking user b's timeline for user a's event id returns b's own event; the corrected query reports EventNotFound |
| Scenarios.Literals | main_test.go:83-146 | the test table's limit "5" and pages "2", "-2" and "20" parse to 5, 2, -2 and 20; the ten-event scenario's limit "4" and page "1" parse to 4 and 1 |
| Scenarios.AnchorAtStart | main_test.go:83-107 | anchor at position 0 of a timeline of at least 15 events with limit 5: positions 0-4; page 2: positions 10-14; page -2: no events; page 20: no events when the timeline has at most 100 events (with more, Go returns positions 100 to min(104, N - 1)) |
| Scenarios.AnchorInMiddle | main_test.go:108-127 | anchor at k with limit 5: positions k-2 to k+2; page 2: k+8 to k+12; page -2: k-12 to k-8 |
| Scenarios.AnchorAtEnd | main_test.go:129-147 | anchor at the last of N events with limit 5: the last five; page 2: no events; page -2: positions N-15 to N-11 |
| Scenarios.TenEvents | main.go:287-311 | ten events anchored at position 5 with limit 4 give positions 3-6; page 1 gives positions 7-9 |

## Left out

- HTTP serving (`newServer`, `ListenAndServe`, `eventsHandler`, `main`, flags, status codes), logging, and `readEventFile`: these are I/O.
- JSON and time (un)marshalling in main.go:65-118, and model.go as a whole. model.go is not part of this model.
- A timestamp is an integer, and `Timestamp.Before` is `<` on it. `Details` keeps only the nine descriptive fields of the response projection (main.go:67-79), which the core never reads. The other input fields (`RequestContentType`, `RequestSize`, `ResponseContentType`, `ResponseSize`, `AuthType` and the five `Attributes*` slices, main.go:31-45) are dropped.
- The `float64` round-trips of `math.Max`/`math.Min` are integer max and min. They are exact for integers below 2^53.
- Strconv.Atoi: Go's range error for values beyond 64 bits is not modelled (integers are unbounded). The same goes for the wrap-around of `page * limit`.
- Query.Slice: Go checks the high bound of `events[s:e]` against the slice's capacity, not its length. The model uses the length. The two differ only on the out-of-range paths of a foreign event id, where Go's result depends on how the slice grew under `append`.
- Store.SortByTimestamp: `sort.Slice` is neither stable nor specified beyond "sorted". The model promises only some sorted permutation, and its insertion sort is not Go's pdqsort.
- Store.PrepareDb: with colliding event ids, the index entry that wins depends on Go's map iteration order. The model leaves that order open. It promises only that every entry is a position holding that id in some list (exact positions need distinct ids).
- In two places the code departs from the intended behaviour; the model follows the code:
  - A page without a limit is meant to be ignored. The code calls `paginate` with limit 0, which only clamps the range (a no-op on an in-range range, `Paging.PaginateZeroLimit`).
  - An eventId outside the user's own timeline is meant to fail with EventNotFound. The code consults the global index only (second finding).
- A limit of 0 is accepted by the code and yields an empty window (`Paging.WindowZero`). The corrected query treats it as absent, like any non-positive limit.

## Findings

| source | as written | input that shows it | evidently intended | confidence | as-written member | corrected member |
|---|---|---|---|---|---|---|
| main.go:287-302 | A limit that parses to a negative number is used as the window size, so `start > end` and `events[start:end]` panics unless a page clamps both ends | any user, eventId "", limit "-2", page "": window start 1, end -1 | a limit must be a positive window size; anything else counts as no limit | not executed | Query.NegativeLimitExample | Query.GetEventListIntended |
| main.go:278-285 | The anchor is looked up in the global event index without checking that it belongs to the requested user, so its position is applied to another user's list | events a0 (user a) and b0 (user b); userId "b", eventId "a0", no limit: returns [b0] | EventNotFound for an event id outside the user's own timeline | not executed | Query.ForeignEventIdExample | Query.IntendedRejectsForeign |
