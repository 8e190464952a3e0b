/**
 * The event record of the timeline service and the facts about event
 * sequences that the store relies on.
 */
module Events {

  /** Descriptive fields carried through unchanged; the core never reads them. */
  datatype Details = Details(
    callerIp: string,
    url: string,
    httpMethod: string,
    callPath: string,
    serverUrl: string,
    statusCode: int,
    serviceName: string,
    endpointPath: string,
    endpointId: string)

  /** One logged call. The timestamp is an abstract instant (e.g. milliseconds since the epoch). */
  datatype Event = Event(id: string, timestamp: int, userId: string, details: Details)

  /** Non-decreasing by timestamp: the order sort.Slice with Timestamp.Before produces. */
  ghost predicate SortedByTimestamp(s: seq<Event>) {
    forall i, j :: 0 <= i < j < |s| ==> s[i].timestamp <= s[j].timestamp
  }

  /** The set of user ids occurring in a sequence of events. */
  function UserIds(events: seq<Event>): set<string> {
    set e | e in events :: e.userId
  }

  /** The set of event ids occurring in a sequence of events. */
  function EventIds(events: seq<Event>): set<string> {
    set e | e in events :: e.id
  }

  /** No two positions carry the same event id. */
  ghost predicate UniqueIds(events: seq<Event>) {
    forall i, j :: 0 <= i < j < |events| ==> events[i].id != events[j].id
  }

  /** The events of one user, in input order (what the grouping loop appends). */
  function EventsOf(events: seq<Event>, user: string): seq<Event>
    decreases |events|
  {
    if |events| == 0 then []
    else
      var init := events[..|events| - 1];
      var last := events[|events| - 1];
      assert events == init + [last];
      EventsOf(init, user) + (if last.userId == user then [last] else [])
  }

  /** Appending an event extends its own user's list and no other. */
  lemma EventsOfSnoc(events: seq<Event>, e: Event, user: string)
    ensures EventsOf(events + [e], user) == EventsOf(events, user) + (if e.userId == user then [e] else [])
  {
    assert (events + [e])[..|events|] == events;
  }

  /** Appending an event adds exactly its user to the users present. */
  lemma UserIdsSnoc(events: seq<Event>, e: Event)
    ensures UserIds(events + [e]) == UserIds(events) + {e.userId}
  {
    assert forall x :: x in events + [e] <==> x in events || x == e;
  }

  /** A user has events exactly when it occurs in the input. */
  lemma EventsOfEmpty(events: seq<Event>, user: string)
    ensures EventsOf(events, user) == [] <==> user !in UserIds(events)
  {
    if user in UserIds(events) {
      var e :| e in events && e.userId == user;
      EventsOfCount(events, user, e);
      assert e in multiset(EventsOf(events, user));
    }
  }

  /** Every user of the input mapped to its events in input order. */
  ghost function ByUser(events: seq<Event>): map<string, seq<Event>>
  {
    map u | u in UserIds(events) :: EventsOf(events, u)
  }

  /** Appending an event appends it to its user's entry, creating the entry if needed. */
  lemma ByUserSnoc(events: seq<Event>, e: Event)
    ensures ByUser(events + [e]) == ByUser(events)[e.userId := EventsOf(events, e.userId) + [e]]
  {
    var after, before := ByUser(events + [e]), ByUser(events)[e.userId := EventsOf(events, e.userId) + [e]];
    UserIdsSnoc(events, e);
    assert after.Keys == before.Keys;
    forall u | u in after ensures after[u] == before[u] {
      EventsOfSnoc(events, e, u);
      if u != e.userId {
        assert u in UserIds(events);
        assert before[u] == EventsOf(events, u);
      }
    }
  }

  /** Filtering keeps every copy of a matching event and no copy of any other. */
  lemma {:induction false} EventsOfCount(events: seq<Event>, user: string, x: Event)
    ensures multiset(EventsOf(events, user))[x] == if x.userId == user then multiset(events)[x] else 0
    decreases |events|
  {
    if |events| > 0 {
      var init := events[..|events| - 1];
      assert events == init + [events[|events| - 1]];
      EventsOfCount(init, user, x);
    }
  }

  /** With unique ids, every event occurs at most once. */
  lemma {:induction false} UniqueIdsAtMostOnce(events: seq<Event>, x: Event)
    requires UniqueIds(events)
    ensures multiset(events)[x] <= 1
    decreases |events|
  {
    if |events| > 0 {
      var init := events[..|events| - 1];
      var last := events[|events| - 1];
      assert events == init + [last];
      assert UniqueIds(init);
      UniqueIdsAtMostOnce(init, x);
      forall i | 0 <= i < |init| ensures init[i] != last {
        assert events[i] == init[i];
      }
    }
  }

  /** Two equal elements at different positions make the element's multiplicity at least two. */
  lemma TwiceCounted(s: seq<Event>, i: int, j: int)
    requires 0 <= i < j < |s|
    ensures s[i] == s[j] ==> multiset(s)[s[i]] >= 2
  {
    assert s == s[..j] + s[j..];
    assert s[i] in s[..j];
    assert s[j] in s[j..];
    assert multiset(s) == multiset(s[..j]) + multiset(s[j..]);
  }

  /** With unique ids, an event id names at most one event. */
  lemma SameIdSameEvent(events: seq<Event>, a: Event, b: Event)
    requires UniqueIds(events)
    requires a in events && b in events
    ensures a.id == b.id ==> a == b
  {
    var p :| 0 <= p < |events| && events[p] == a;
    var q :| 0 <= q < |events| && events[q] == b;
    if p < q {
      assert events[p].id != events[q].id;
    } else if q < p {
      assert events[q].id != events[p].id;
    }
  }

  /** Any sequence whose multiset lies inside that of a unique-id sequence has unique ids too. */
  lemma SubMultisetUniqueIds(events: seq<Event>, s: seq<Event>)
    requires UniqueIds(events)
    requires multiset(s) <= multiset(events)
    ensures UniqueIds(s)
  {
    forall i, j | 0 <= i < j < |s| ensures s[i].id != s[j].id {
      assert s[i] in multiset(s) && s[j] in multiset(s);
      SameIdSameEvent(events, s[i], s[j]);
      TwiceCounted(s, i, j);
      UniqueIdsAtMostOnce(events, s[i]);
    }
  }

  /** The events of one user, taken from a unique-id input, again have unique ids. */
  lemma EventsOfUniqueIds(events: seq<Event>, user: string, s: seq<Event>)
    requires UniqueIds(events)
    requires multiset(s) == multiset(EventsOf(events, user))
    ensures UniqueIds(s)
  {
    forall x ensures multiset(s)[x] <= multiset(events)[x] {
      EventsOfCount(events, user, x);
    }
    SubMultisetUniqueIds(events, s);
  }
}
