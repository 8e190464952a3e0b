/**
 * getEventList: look the user's timeline up in the store, resolve the anchor
 * event through the global event index, window the range around it for a
 * parsed limit, paginate, and slice.
 */
module Query {
  import opened Wrappers
  import opened Strconv
  import opened Events
  import opened Store
  import opened Paging

  /**
   * The failures of getEventList: the two lookups that can miss, and the
   * slice expression events[low:high] with bounds Go rejects at run time.
   */
  datatype Error =
    | UserNotFound(userId: string)
    | EventNotFound(eventId: string)
    | SliceOutOfRange(low: int, high: int)

  /**
   * The range getEventList slices: the anchor range (the whole timeline of n
   * events, or the single anchor position), re-centred by Window when a limit
   * is present, then shifted by paginate with that limit (0 when absent).
   */
  function Range(anchor: Option<int>, n: nat, limit: Option<int>, pageStr: string): (int, int) {
    var (s0, e0) := match anchor case None => (0, n) case Some(k) => (k, k + 1);
    var (s1, e1) := match limit case None => (s0, e0) case Some(l) => Window(s0, l, n);
    Paginate(s1, e1, limit.GetOr(0), n, pageStr)
  }

  /** The anchor position getEventList reads from the index; an empty eventId asks for none. */
  function Anchor(db: Db, eventId: string): Option<int>
    requires eventId == "" || eventId in db.eventIndex
  {
    if eventId == "" then None else Some(db.eventIndex[eventId])
  }

  /** events[lo:hi], or the run-time failure Go raises for bounds outside 0 <= lo <= hi <= len. */
  function Slice(events: seq<Event>, lo: int, hi: int): (r: Result<seq<Event>, Error>)
    ensures r.Success? <==> 0 <= lo <= hi <= |events|
    ensures r.Success? ==> |r.value| == hi - lo && forall i :: 0 <= i < hi - lo ==> r.value[i] == events[lo + i]
    ensures r.Failure? ==> r.error == SliceOutOfRange(lo, hi)
  {
    if 0 <= lo <= hi <= |events| then Success(events[lo..hi]) else Failure(SliceOutOfRange(lo, hi))
  }

  /** getEventList as written: the event index is global, and any parsed limit is used. */
  function GetEventList(db: Db, userId: string, eventId: string, limitStr: string, pageStr: string)
    : (r: Result<seq<Event>, Error>)
    ensures r == Failure(UserNotFound(userId)) <==> userId !in db.userEvents
    ensures (r.Failure? && r.error.EventNotFound?) <==>
              (userId in db.userEvents && eventId != "" && eventId !in db.eventIndex)
    ensures r.Failure? && r.error.EventNotFound? ==> r.error.eventId == eventId
    ensures r.Success? ==> (userId in db.userEvents &&
              exists lo, hi :: 0 <= lo <= hi <= |db.userEvents[userId]| && r.value == db.userEvents[userId][lo..hi])
  {
    if userId !in db.userEvents then Failure(UserNotFound(userId))
    else if eventId != "" && eventId !in db.eventIndex then Failure(EventNotFound(eventId))
    else
      var events := db.userEvents[userId];
      var (lo, hi) := Range(Anchor(db, eventId), |events|, Atoi(limitStr), pageStr);
      Slice(events, lo, hi)
  }

  /** Asking for an anchor without a limit returns exactly the anchored event, whatever the page. */
  lemma AnchorOnly(db: Db, userId: string, eventId: string, limitStr: string, pageStr: string)
    requires userId in db.userEvents && eventId != "" && eventId in db.eventIndex
    requires 0 <= db.eventIndex[eventId] < |db.userEvents[userId]|
    requires !IsDecimalLiteral(limitStr)
    ensures GetEventList(db, userId, eventId, limitStr, pageStr)
              == Success([db.userEvents[userId][db.eventIndex[eventId]]])
  {
    var k := db.eventIndex[eventId];
    PaginateZeroLimit(k, k + 1, |db.userEvents[userId]|, pageStr);
    assert db.userEvents[userId][k..k + 1] == [db.userEvents[userId][k]];
  }

  /** No anchor and no limit: the user's whole timeline, a page value notwithstanding. */
  lemma WholeTimeline(db: Db, userId: string, limitStr: string, pageStr: string)
    requires userId in db.userEvents && !IsDecimalLiteral(limitStr)
    ensures GetEventList(db, userId, "", limitStr, pageStr) == Success(db.userEvents[userId])
  {
    var events := db.userEvents[userId];
    PaginateZeroLimit(0, |events|, |events|, pageStr);
    assert events[0..|events|] == events;
  }

  /**
   * A window of a positive limit around an anchor in the user's timeline,
   * before any page: min(limit, n) consecutive events that include the anchor,
   * centred on it as far as the bounds allow.
   */
  lemma CentredWindow(db: Db, userId: string, eventId: string, limitStr: string, pageStr: string, limit: int)
    requires userId in db.userEvents && eventId != "" && eventId in db.eventIndex
    requires 0 <= db.eventIndex[eventId] < |db.userEvents[userId]|
    requires Atoi(limitStr) == Some(limit) && limit > 0 && !IsDecimalLiteral(pageStr)
    ensures var events, k := db.userEvents[userId], db.eventIndex[eventId];
            var lo := Max(0, Min(k - Half(limit), |events| - limit));
            && lo <= k < lo + Min(limit, |events|) <= |events|
            && GetEventList(db, userId, eventId, limitStr, pageStr) == Success(events[lo..lo + Min(limit, |events|)])
  {
    var events, k := db.userEvents[userId], db.eventIndex[eventId];
    WindowIsClamped(k, limit, |events|);
  }

  /** Without an anchor a positive limit selects the first min(limit, n) events. */
  lemma FirstEvents(db: Db, userId: string, limitStr: string, pageStr: string, limit: int)
    requires userId in db.userEvents
    requires Atoi(limitStr) == Some(limit) && limit > 0 && !IsDecimalLiteral(pageStr)
    ensures GetEventList(db, userId, "", limitStr, pageStr)
              == Success(db.userEvents[userId][..Min(limit, |db.userEvents[userId]|)])
  {
    WindowIsClamped(0, limit, |db.userEvents[userId]|);
  }

  /** A page that stays inside the timeline moves the window by exactly page * limit events. */
  lemma PagedWindow(db: Db, userId: string, eventId: string, limitStr: string, pageStr: string, limit: int, page: int)
    requires userId in db.userEvents && (eventId == "" || eventId in db.eventIndex)
    requires Atoi(limitStr) == Some(limit) && Atoi(pageStr) == Some(page)
    ensures var events := db.userEvents[userId];
            var base := match Anchor(db, eventId) case None => 0 case Some(k) => k;
            var w := Window(base, limit, |events|);
            0 <= w.0 + page * limit && w.0 <= w.1 && w.1 + page * limit <= |events| ==>
              GetEventList(db, userId, eventId, limitStr, pageStr) == Success(events[w.0 + page * limit..w.1 + page * limit])
  {
    var events := db.userEvents[userId];
    var base := match Anchor(db, eventId) case None => 0 case Some(k) => k;
    var w := Window(base, limit, |events|);
    if 0 <= w.0 + page * limit && w.0 <= w.1 && w.1 + page * limit <= |events| {
      PaginateShifts(w.0, w.1, limit, |events|, pageStr, page);
    }
  }

  /**
   * With an anchor that lies in the user's timeline (or none) and a limit that
   * is absent or not negative, the slice is always in range.
   */
  lemma InRangeSucceeds(db: Db, userId: string, eventId: string, limitStr: string, pageStr: string)
    requires userId in db.userEvents
    requires eventId == "" || (eventId in db.eventIndex && 0 <= db.eventIndex[eventId] < |db.userEvents[userId]|)
    requires !IsDecimalLiteral(limitStr) || Atoi(limitStr).value >= 0
    ensures GetEventList(db, userId, eventId, limitStr, pageStr).Success?
  {
    var events := db.userEvents[userId];
    var s0, e0 := if eventId == "" then 0 else db.eventIndex[eventId], if eventId == "" then |events| else db.eventIndex[eventId] + 1;
    if IsDecimalLiteral(limitStr) {
      var w := Window(s0, Atoi(limitStr).value, |events|);
      assert 0 <= w.0 <= w.1 <= |events|;
    } else {
      PaginateZeroLimit(s0, e0, |events|, pageStr);
    }
  }

  /**
   * A negative limit that parses inverts the window, so without a page the
   * slice bounds are rejected (a run-time panic in the source).
   */
  lemma NegativeLimitFails(db: Db, userId: string, eventId: string, limitStr: string, pageStr: string)
    requires userId in db.userEvents
    requires eventId == "" || (eventId in db.eventIndex && db.eventIndex[eventId] >= 0)
    requires IsDecimalLiteral(limitStr) && Atoi(limitStr).value < 0 && !IsDecimalLiteral(pageStr)
    ensures GetEventList(db, userId, eventId, limitStr, pageStr).Failure?
    ensures GetEventList(db, userId, eventId, limitStr, pageStr).error.SliceOutOfRange?
  {
  }

  /** The concrete case: limit "-2" on any user's timeline, no anchor, no page. */
  lemma NegativeLimitExample(db: Db, userId: string)
    requires userId in db.userEvents
    ensures GetEventList(db, userId, "", "-2", "") == Failure(SliceOutOfRange(1, -1))
  {
    assert Atoi("-2") == Some(-2) by {
      AtoiFormatInt(-2);
      assert FormatInt(-2) == "-2";
    }
    assert !IsDecimalLiteral("");
  }

  /** eventId is the id of the event at the position the index gives, in userId's own timeline. */
  predicate Owns(db: Db, userId: string, eventId: string)
    requires userId in db.userEvents && eventId in db.eventIndex
  {
    && 0 <= db.eventIndex[eventId] < |db.userEvents[userId]|
    && db.userEvents[userId][db.eventIndex[eventId]].id == eventId
  }

  /** A parsed limit, kept only when it is a positive window size. */
  function PositiveLimit(limitStr: string): (l: Option<int>)
    ensures l.Some? <==> IsDecimalLiteral(limitStr) && Atoi(limitStr).value > 0
    ensures l.Some? ==> l.value == Atoi(limitStr).value
  {
    match Atoi(limitStr)
    case Some(l) => if l > 0 then Some(l) else None
    case None => None
  }

  /**
   * getEventList as evidently intended: an event id resolves only within the
   * requested user's own timeline, and a limit that is not positive counts as
   * absent. It never produces out-of-range bounds.
   */
  function GetEventListIntended(db: Db, userId: string, eventId: string, limitStr: string, pageStr: string)
    : (r: Result<seq<Event>, Error>)
    ensures r == Failure(UserNotFound(userId)) <==> userId !in db.userEvents
    ensures (r.Failure? && r.error.EventNotFound?) <==>
              (userId in db.userEvents && eventId != "" && !(eventId in db.eventIndex && Owns(db, userId, eventId)))
    ensures r.Failure? ==> !r.error.SliceOutOfRange?
  {
    if userId !in db.userEvents then Failure(UserNotFound(userId))
    else if eventId != "" && !(eventId in db.eventIndex && Owns(db, userId, eventId)) then Failure(EventNotFound(eventId))
    else
      var events := db.userEvents[userId];
      var (lo, hi) := Range(Anchor(db, eventId), |events|, PositiveLimit(limitStr), pageStr);
      Slice(events, lo, hi)
  }

  /**
   * In the corrected query the anchored event is always part of the answer
   * unless a non-zero page moves the window away from it.
   */
  lemma IntendedHoldsAnchor(db: Db, userId: string, eventId: string, limitStr: string, pageStr: string)
    requires userId in db.userEvents && eventId in db.eventIndex && eventId != "" && Owns(db, userId, eventId)
    requires IsDecimalLiteral(pageStr) && PositiveLimit(limitStr).Some? ==> Atoi(pageStr).value == 0
    ensures var r := GetEventListIntended(db, userId, eventId, limitStr, pageStr);
            r.Success? && exists i :: 0 <= i < |r.value| && r.value[i].id == eventId
  {
    var events, k := db.userEvents[userId], db.eventIndex[eventId];
    RangeHoldsAnchor(k, |events|, PositiveLimit(limitStr), pageStr);
    var (lo, hi) := Range(Some(k), |events|, PositiveLimit(limitStr), pageStr);
    var r := GetEventListIntended(db, userId, eventId, limitStr, pageStr);
    assert r.value[k - lo] == events[k];
  }

  /** The range around an anchor k in [0, n) holds k unless a positive limit comes with a non-zero page. */
  lemma RangeHoldsAnchor(k: int, n: nat, limit: Option<int>, pageStr: string)
    requires 0 <= k < n && (limit.None? || limit.value > 0)
    requires IsDecimalLiteral(pageStr) && limit.Some? ==> Atoi(pageStr).value == 0
    ensures var (lo, hi) := Range(Some(k), n, limit, pageStr); 0 <= lo <= k < hi <= n
  {
    if limit.None? {
      PaginateZeroLimit(k, k + 1, n, pageStr);
    } else if IsDecimalLiteral(pageStr) {
      var w := Window(k, limit.value, n);
      PaginateShifts(w.0, w.1, limit.value, n, pageStr, 0);
    }
  }

  /** Where the as-written query has nothing to correct, both give the same answer. */
  lemma IntendedAgrees(db: Db, userId: string, eventId: string, limitStr: string, pageStr: string)
    requires eventId == "" || (eventId in db.eventIndex && userId in db.userEvents && Owns(db, userId, eventId))
    requires !IsDecimalLiteral(limitStr) || Atoi(limitStr).value > 0
    ensures GetEventListIntended(db, userId, eventId, limitStr, pageStr) == GetEventList(db, userId, eventId, limitStr, pageStr)
  {
  }

  /**
   * For a store prepareDb built from events with distinct ids, the corrected
   * query rejects an event id that belongs to another user.
   */
  lemma IntendedRejectsForeign(db: Db, events: seq<Event>, userId: string, e: Event, limitStr: string, pageStr: string)
    requires BuiltFrom(db, events) && UniqueIds(events)
    requires userId in db.userEvents && e in events && e.userId != userId && e.id != ""
    ensures GetEventListIntended(db, userId, e.id, limitStr, pageStr) == Failure(EventNotFound(e.id))
  {
    if e.id in db.eventIndex && Owns(db, userId, e.id) {
      var x := db.userEvents[userId][db.eventIndex[e.id]];
      StoredEventOf(events, userId, db.userEvents[userId], x);
      SameIdSameEvent(events, x, e);
      assert false;
    }
  }

  /**
   * In a store built from events with distinct ids, asking a user's timeline
   * for one of its own events without a limit returns that event.
   */
  lemma OwnEventFound(db: Db, events: seq<Event>, userId: string, i: int, pageStr: string)
    requires BuiltFrom(db, events) && UniqueIds(events)
    requires userId in db.userEvents && 0 <= i < |db.userEvents[userId]| && db.userEvents[userId][i].id != ""
    ensures var e := db.userEvents[userId][i];
            && GetEventList(db, userId, e.id, "", pageStr) == Success([e])
            && GetEventListIntended(db, userId, e.id, "", pageStr) == Success([e])
  {
    var e := db.userEvents[userId][i];
    assert !IsDecimalLiteral("");
    AnchorOnly(db, userId, e.id, "", pageStr);
  }

  const NoDetails := Details("", "", "", "", "", 0, "", "", "")
  const EventA := Event("a0", 0, "a", NoDetails)
  const EventB := Event("b0", 0, "b", NoDetails)

  /** A list whose multiset is that of one event is that event alone. */
  lemma Singleton(list: seq<Event>, e: Event)
    requires multiset(list) == multiset([e])
    ensures list == [e]
  {
    assert |list| == |multiset(list)| == 1;
    assert list[0] in multiset(list);
  }

  /** Each of EventA and EventB is the only event of its user in the pair. */
  lemma TwoUsersLists()
    ensures EventsOf([EventA, EventB], "a") == [EventA]
    ensures EventsOf([EventA, EventB], "b") == [EventB]
  {
    EventsOfSnoc([], EventA, "a");
    EventsOfSnoc([], EventA, "b");
    assert [] + [EventA] == [EventA];
    EventsOfSnoc([EventA], EventB, "a");
    EventsOfSnoc([EventA], EventB, "b");
    assert [EventA] + [EventB] == [EventA, EventB];
  }

  /** The pair has exactly the users a and b, and distinct ids. */
  lemma TwoUsersIds()
    ensures UniqueIds([EventA, EventB])
    ensures UserIds([EventA, EventB]) == {"a", "b"}
  {
    var events := [EventA, EventB];
    assert events[0].userId == "a" && events[1].userId == "b";
    assert events[0].id != events[1].id;
  }

  /** Any store prepareDb builds from EventA and EventB. */
  lemma TwoUsersStore(db: Db)
    requires BuiltFrom(db, [EventA, EventB])
    ensures db.userEvents.Keys == {"a", "b"}
    ensures db.userEvents["a"] == [EventA] && db.userEvents["b"] == [EventB]
    ensures "a0" in db.eventIndex && db.eventIndex["a0"] == 0
  {
    TwoUsersLists();
    TwoUsersIds();
    assert db.userEvents.Keys == {"a", "b"};
    assert multiset(db.userEvents["a"]) == multiset([EventA]);
    assert multiset(db.userEvents["b"]) == multiset([EventB]);
    Singleton(db.userEvents["a"], EventA);
    Singleton(db.userEvents["b"], EventB);
    assert IndexExact(db);
    assert db.userEvents["a"][0].id == "a0";
  }

  /**
   * Two users with one event each: asking user b's timeline for user a's event
   * returns b's own event, where the corrected query reports EventNotFound.
   */
  lemma ForeignEventIdExample(db: Db)
    requires BuiltFrom(db, [EventA, EventB])
    ensures GetEventList(db, "b", "a0", "", "") == Success([EventB])
    ensures GetEventListIntended(db, "b", "a0", "", "") == Failure(EventNotFound("a0"))
  {
    TwoUsersStore(db);
    assert !IsDecimalLiteral("");
    AnchorOnly(db, "b", "a0", "", "");
  }
}
