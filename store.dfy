/**
 * The event store built once at start-up (prepareDb): the events grouped by
 * user, each group sorted by timestamp, and a map from event id to the
 * event's position in its owner's sorted list.
 */
module Store {
  import opened Events

  /** userEvents: user id -> events sorted by timestamp; eventIndex: event id -> position. */
  datatype Db = Db(userEvents: map<string, seq<Event>>, eventIndex: map<string, int>)

  /** The ids at the first n positions of a list. */
  function IdsBefore(list: seq<Event>, n: int): set<string>
    requires 0 <= n <= |list|
  {
    set p | 0 <= p < n :: list[p].id
  }

  /** The set of ids that occur in a list (the keys one pass of the index loop writes). */
  function IdsOf(list: seq<Event>): set<string> {
    IdsBefore(list, |list|)
  }

  /** Every user of the input has a list, exactly its own events, in timestamp order. */
  ghost predicate Grouped(db: Db, events: seq<Event>) {
    && db.userEvents.Keys == UserIds(events)
    && forall u :: u in db.userEvents ==>
         SortedByTimestamp(db.userEvents[u]) && multiset(db.userEvents[u]) == multiset(EventsOf(events, u))
  }

  /** Every index entry is the position of an event with that id in some user's list. */
  ghost predicate IndexSound(db: Db) {
    forall k :: k in db.eventIndex ==>
      exists u :: u in db.userEvents && 0 <= db.eventIndex[k] < |db.userEvents[u]|
                  && db.userEvents[u][db.eventIndex[k]].id == k
  }

  /** Looking up the id of the event at position i of any list gives i. */
  ghost predicate IndexExact(db: Db) {
    forall u, i :: u in db.userEvents && 0 <= i < |db.userEvents[u]| ==>
      db.userEvents[u][i].id in db.eventIndex && db.eventIndex[db.userEvents[u][i].id] == i
  }

  /** Everything prepareDb promises about its result for the input events. */
  ghost predicate BuiltFrom(db: Db, events: seq<Event>) {
    && Grouped(db, events)
    && db.eventIndex.Keys == EventIds(events)
    && IndexSound(db)
    && (UniqueIds(events) ==> IndexExact(db))
  }

  /** Exchanges two elements of the array, leaving the rest and the multiset of elements as they were. */
  method Swap(a: array<Event>, i: int, j: int)
    requires 0 <= i < a.Length && 0 <= j < a.Length
    modifies a
    ensures a[..] == old(a[..])[i := old(a[j])][j := old(a[i])]
    ensures multiset(a[..]) == multiset(old(a[..]))
  {
    a[i], a[j] := a[j], a[i];
  }

  /** The first n elements of the array are in timestamp order. */
  ghost predicate SortedPrefix(a: array<Event>, n: int)
    reads a
  {
    forall p, q :: 0 <= p < q < n && q < a.Length ==> a[p].timestamp <= a[q].timestamp
  }

  /** Sinks a[i] into the sorted prefix a[..i], extending the sorted prefix by one. */
  method InsertAt(a: array<Event>, i: int)
    requires 0 <= i < a.Length && SortedPrefix(a, i)
    modifies a
    ensures SortedPrefix(a, i + 1)
    ensures multiset(a[..]) == multiset(old(a[..]))
    ensures forall q :: i < q < a.Length ==> a[q] == old(a[q])
  {
    var j := i;
    while j > 0 && a[j - 1].timestamp > a[j].timestamp
      invariant 0 <= j <= i
      invariant forall q :: i < q < a.Length ==> a[q] == old(a[q])
      invariant forall p, q :: 0 <= p < q <= i && p != j && q != j ==> a[p].timestamp <= a[q].timestamp
      invariant forall q :: j < q <= i ==> a[j].timestamp < a[q].timestamp
      invariant multiset(a[..]) == multiset(old(a[..]))
    {
      Swap(a, j - 1, j);
      j := j - 1;
    }
  }

  /**
   * sort.Slice over the timestamps, in place. Only "some sorted permutation" is
   * promised: the order of equal timestamps is left open, as sort.Slice is not stable.
   */
  method SortByTimestamp(a: array<Event>)
    modifies a
    ensures SortedByTimestamp(a[..])
    ensures multiset(a[..]) == multiset(old(a[..]))
  {
    var i := 0;
    while i < a.Length
      invariant 0 <= i <= a.Length
      invariant SortedPrefix(a, i)
      invariant multiset(a[..]) == multiset(old(a[..]))
    {
      InsertAt(a, i);
      i := i + 1;
    }
  }

  /** The grouping loop: append every event to its user's list, in input order. */
  method GroupByUser(events: seq<Event>) returns (groups: map<string, seq<Event>>)
    ensures groups.Keys == UserIds(events)
    ensures forall u :: u in groups ==> groups[u] == EventsOf(events, u)
  {
    groups := map[];
    for i := 0 to |events|
      invariant groups == ByUser(events[..i])
    {
      var event := events[i];
      assert events[..i + 1] == events[..i] + [event];
      ByUserSnoc(events[..i], event);
      EventsOfEmpty(events[..i], event.userId);
      var eventList := if event.userId in groups then groups[event.userId] else [];
      groups := groups[event.userId := eventList + [event]];
    }
    assert events[..|events|] == events;
  }

  /** r is index with the first i positions of list recorded under their ids, later ones winning. */
  ghost predicate IndexedUpTo(list: seq<Event>, index: map<string, int>, r: map<string, int>, i: int)
    requires 0 <= i <= |list|
  {
    && r.Keys == index.Keys + IdsBefore(list, i)
    && (forall k :: k in r && k !in IdsBefore(list, i) ==> r[k] == index[k])
    && (forall k :: k in IdsBefore(list, i) ==> LastAt(list, k, r[k], i))
  }

  /** p is the last position before i holding id k. */
  ghost predicate LastAt(list: seq<Event>, k: string, p: int, i: int)
    requires i <= |list|
  {
    0 <= p < i && list[p].id == k && forall q :: p < q < i ==> list[q].id != k
  }

  lemma IdsBeforeStep(list: seq<Event>, i: int)
    requires 0 <= i < |list|
    ensures IdsBefore(list, i + 1) == IdsBefore(list, i) + {list[i].id}
  {
  }

  lemma IndexedUpToStep(list: seq<Event>, index: map<string, int>, r: map<string, int>, i: int)
    requires 0 <= i < |list| && IndexedUpTo(list, index, r, i)
    ensures IndexedUpTo(list, index, r[list[i].id := i], i + 1)
  {
    var r' := r[list[i].id := i];
    IdsBeforeStep(list, i);
    forall k | k in IdsBefore(list, i + 1)
      ensures LastAt(list, k, r'[k], i + 1)
    {
      if k != list[i].id {
        assert k in IdsBefore(list, i) && r'[k] == r[k];
        assert LastAt(list, k, r[k], i);
      }
    }
  }

  /**
   * The inner index loop: record every position of the list under its event id,
   * a later position overwriting an earlier one with the same id.
   */
  method IndexPositions(list: seq<Event>, index: map<string, int>) returns (r: map<string, int>)
    ensures r.Keys == index.Keys + IdsOf(list)
    ensures forall k :: k in r && k !in IdsOf(list) ==> r[k] == index[k]
    ensures forall k :: k in IdsOf(list) ==>
      0 <= r[k] < |list| && list[r[k]].id == k && forall q :: r[k] < q < |list| ==> list[q].id != k
    ensures UniqueIds(list) ==> forall p :: 0 <= p < |list| ==> r[list[p].id] == p
  {
    r := index;
    for i := 0 to |list|
      invariant IndexedUpTo(list, index, r, i)
    {
      IndexedUpToStep(list, index, r, i);
      r := r[list[i].id := i];
    }
    LastPositions(list, r);
  }

  /** With unique ids, the last position carrying an id is the only one. */
  lemma LastPositions(list: seq<Event>, r: map<string, int>)
    requires forall k :: k in IdsOf(list) ==>
      k in r && 0 <= r[k] < |list| && list[r[k]].id == k && forall q :: r[k] < q < |list| ==> list[q].id != k
    ensures UniqueIds(list) ==> forall p :: 0 <= p < |list| ==> r[list[p].id] == p
  {
    if UniqueIds(list) {
      forall p | 0 <= p < |list| ensures r[list[p].id] == p {
        var k := list[p].id;
        assert k in IdsOf(list);
        assert !(r[k] < p) && !(p < r[k]);
      }
    }
  }

  /** An event stored in a user's list is an input event of that user. */
  lemma StoredEventOf(events: seq<Event>, u: string, list: seq<Event>, e: Event)
    requires multiset(list) == multiset(EventsOf(events, u))
    requires e in list
    ensures e in events && e.userId == u
  {
    assert e in multiset(list);
    EventsOfCount(events, u, e);
  }

  // The state of prepareDb's second loop: `todo` holds the users not yet
  // visited; `owner` records, for every index key, whose list it points into.

  ghost predicate ListsInvariant(groups: map<string, seq<Event>>, userEvents: map<string, seq<Event>>, todo: set<string>) {
    && todo <= groups.Keys && userEvents.Keys == groups.Keys
    && (forall u :: u in todo ==> userEvents[u] == groups[u])
    && (forall u :: u in groups && u !in todo ==>
          SortedByTimestamp(userEvents[u]) && multiset(userEvents[u]) == multiset(groups[u]))
  }

  ghost predicate IndexInvariant(groups: map<string, seq<Event>>, userEvents: map<string, seq<Event>>, todo: set<string>,
                                 eventIndex: map<string, int>, covered: set<string>, owner: map<string, string>) {
    && userEvents.Keys == groups.Keys
    && eventIndex.Keys == covered
    && (forall u :: u in groups && u !in todo ==> IdsOf(userEvents[u]) <= covered)
    && (forall k :: k in eventIndex ==>
          && k in owner && owner[k] in groups && owner[k] !in todo
          && 0 <= eventIndex[k] < |userEvents[owner[k]]|
          && userEvents[owner[k]][eventIndex[k]].id == k)
  }

  ghost predicate ExactInvariant(groups: map<string, seq<Event>>, userEvents: map<string, seq<Event>>, todo: set<string>,
                                 eventIndex: map<string, int>) {
    && userEvents.Keys == groups.Keys
    && forall u, p :: u in groups && u !in todo && 0 <= p < |userEvents[u]| ==>
         userEvents[u][p].id in eventIndex && eventIndex[userEvents[u][p].id] == p
  }

  /** The postconditions of IndexPositions, as a relation between the old and the new index. */
  ghost predicate IndexedFrom(list: seq<Event>, index: map<string, int>, r: map<string, int>) {
    && r.Keys == index.Keys + IdsOf(list)
    && (forall k :: k in r && k !in IdsOf(list) ==> r[k] == index[k])
    && (forall k :: k in IdsOf(list) ==> 0 <= r[k] < |list| && list[r[k]].id == k)
    && (UniqueIds(list) ==> forall p :: 0 <= p < |list| ==> r[list[p].id] == p)
  }

  lemma ListsStep(groups: map<string, seq<Event>>, userEvents: map<string, seq<Event>>, todo: set<string>,
                  user: string, list: seq<Event>)
    requires ListsInvariant(groups, userEvents, todo)
    requires user in todo
    requires SortedByTimestamp(list) && multiset(list) == multiset(groups[user])
    ensures ListsInvariant(groups, userEvents[user := list], todo - {user})
  {
  }

  /** The ghost owner map with every id of ids attributed to user. */
  ghost function Claim(owner: map<string, string>, ids: set<string>, user: string): map<string, string>
  {
    owner + map k | k in ids :: user
  }

  lemma IndexStep(groups: map<string, seq<Event>>, userEvents: map<string, seq<Event>>, todo: set<string>,
                  eventIndex: map<string, int>, covered: set<string>, owner: map<string, string>,
                  user: string, list: seq<Event>, r: map<string, int>, owner': map<string, string>)
    requires IndexInvariant(groups, userEvents, todo, eventIndex, covered, owner)
    requires user in todo && todo <= groups.Keys
    requires IndexedFrom(list, eventIndex, r)
    requires owner'.Keys == owner.Keys + IdsOf(list)
    requires forall k :: k in IdsOf(list) ==> owner'[k] == user
    requires forall k :: k in owner && k !in IdsOf(list) ==> owner'[k] == owner[k]
    ensures IndexInvariant(groups, userEvents[user := list], todo - {user}, r, covered + IdsOf(list), owner')
  {
    var userEvents': map<string, seq<Event>> := userEvents[user := list];
    var todo', covered' := todo - {user}, covered + IdsOf(list);
    assert r.Keys == covered';
    forall u | u in groups && u !in todo' ensures IdsOf(userEvents'[u]) <= covered' {
      if u != user {
        assert userEvents'[u] == userEvents[u];
      }
    }
    forall k | k in r
      ensures k in owner' && owner'[k] in groups && owner'[k] !in todo'
      ensures 0 <= r[k] < |userEvents'[owner'[k]]| && userEvents'[owner'[k]][r[k]].id == k
    {
      if k in IdsOf(list) {
        assert owner'[k] == user && userEvents'[user] == list;
      } else {
        assert owner'[k] == owner[k] && r[k] == eventIndex[k];
        assert owner[k] != user;
        assert userEvents'[owner[k]] == userEvents[owner[k]];
      }
    }
  }

  /** With unique ids, an event stored for one user has an id that no other user's list carries. */
  lemma OtherUsersId(events: seq<Event>, u: string, listU: seq<Event>, user: string, list: seq<Event>, p: int)
    requires UniqueIds(events) && u != user
    requires multiset(listU) == multiset(EventsOf(events, u))
    requires multiset(list) == multiset(EventsOf(events, user))
    requires 0 <= p < |listU|
    ensures listU[p].id !in IdsOf(list)
  {
    var e := listU[p];
    StoredEventOf(events, u, listU, e);
    forall q | 0 <= q < |list| ensures list[q].id != e.id {
      StoredEventOf(events, user, list, list[q]);
      SameIdSameEvent(events, list[q], e);
    }
  }

  lemma ExactStep(events: seq<Event>, groups: map<string, seq<Event>>, userEvents: map<string, seq<Event>>, todo: set<string>,
                  eventIndex: map<string, int>, user: string, list: seq<Event>, r: map<string, int>)
    requires UniqueIds(events) && groups == ByUser(events)
    requires ListsInvariant(groups, userEvents, todo) && ExactInvariant(groups, userEvents, todo, eventIndex)
    requires user in todo
    requires multiset(list) == multiset(groups[user])
    requires IndexedFrom(list, eventIndex, r)
    ensures ExactInvariant(groups, userEvents[user := list], todo - {user}, r)
  {
    var userEvents': map<string, seq<Event>> := userEvents[user := list];
    EventsOfUniqueIds(events, user, list);
    forall u, p | u in groups && u !in todo - {user} && 0 <= p < |userEvents'[u]|
      ensures userEvents'[u][p].id in r && r[userEvents'[u][p].id] == p
    {
      if u != user {
        OtherUsersId(events, u, userEvents[u], user, list, p);
        assert userEvents'[u] == userEvents[u];
      }
    }
  }

  /** The group of one user, copied out and sorted in place (the slice sort.Slice works on). */
  method SortedCopy(list: seq<Event>) returns (sorted: seq<Event>)
    ensures SortedByTimestamp(sorted) && multiset(sorted) == multiset(list)
  {
    var a := new Event[|list|](p requires 0 <= p < |list| => list[p]);
    assert a[..] == list;
    SortByTimestamp(a);
    sorted := a[..];
  }

  // When every user has been visited, the loop state gives prepareDb's postconditions.

  lemma DoneSound(userEvents: map<string, seq<Event>>, groups: map<string, seq<Event>>,
                  eventIndex: map<string, int>, covered: set<string>, owner: map<string, string>)
    requires IndexInvariant(groups, userEvents, {}, eventIndex, covered, owner)
    ensures IndexSound(Db(userEvents, eventIndex))
  {
    forall k | k in eventIndex
      ensures exists u :: u in userEvents && 0 <= eventIndex[k] < |userEvents[u]| && userEvents[u][eventIndex[k]].id == k
    {
      var u := owner[k];
      assert u in userEvents && 0 <= eventIndex[k] < |userEvents[u]| && userEvents[u][eventIndex[k]].id == k;
    }
  }

  lemma DoneKeys(events: seq<Event>, groups: map<string, seq<Event>>, userEvents: map<string, seq<Event>>,
                 eventIndex: map<string, int>, covered: set<string>, owner: map<string, string>)
    requires groups == ByUser(events)
    requires ListsInvariant(groups, userEvents, {})
    requires IndexInvariant(groups, userEvents, {}, eventIndex, covered, owner)
    ensures eventIndex.Keys == EventIds(events)
  {
    forall k | k in EventIds(events) ensures k in covered {
      var e :| e in events && e.id == k;
      var u := e.userId;
      assert u in UserIds(events);
      EventsOfCount(events, u, e);
      assert e in multiset(groups[u]);
      assert e in multiset(userEvents[u]);
      var p :| 0 <= p < |userEvents[u]| && userEvents[u][p] == e;
      assert k in IdsOf(userEvents[u]);
    }
    forall k | k in covered ensures k in EventIds(events) {
      var u := owner[k];
      var e := userEvents[u][eventIndex[k]];
      StoredEventOf(events, u, userEvents[u], e);
    }
  }

  lemma DoneGrouped(events: seq<Event>, groups: map<string, seq<Event>>, userEvents: map<string, seq<Event>>,
                    eventIndex: map<string, int>)
    requires groups == ByUser(events)
    requires ListsInvariant(groups, userEvents, {})
    ensures Grouped(Db(userEvents, eventIndex), events)
  {
  }

  lemma DoneExact(groups: map<string, seq<Event>>, userEvents: map<string, seq<Event>>, eventIndex: map<string, int>)
    requires ExactInvariant(groups, userEvents, {}, eventIndex)
    ensures IndexExact(Db(userEvents, eventIndex))
  {
  }

  ghost predicate Inv(events: seq<Event>, groups: map<string, seq<Event>>, userEvents: map<string, seq<Event>>,
                      todo: set<string>, eventIndex: map<string, int>, covered: set<string>, owner: map<string, string>) {
    && groups == ByUser(events)
    && ListsInvariant(groups, userEvents, todo)
    && IndexInvariant(groups, userEvents, todo, eventIndex, covered, owner)
    && (UniqueIds(events) ==> ExactInvariant(groups, userEvents, todo, eventIndex))
  }

  lemma FinishLoop(events: seq<Event>, groups: map<string, seq<Event>>, userEvents: map<string, seq<Event>>,
             eventIndex: map<string, int>, covered: set<string>, owner: map<string, string>)
    requires Inv(events, groups, userEvents, {}, eventIndex, covered, owner)
    ensures Grouped(Db(userEvents, eventIndex), events)
    ensures eventIndex.Keys == EventIds(events)
    ensures IndexSound(Db(userEvents, eventIndex))
    ensures UniqueIds(events) ==> IndexExact(Db(userEvents, eventIndex))
  {
    DoneGrouped(events, groups, userEvents, eventIndex);
    DoneKeys(events, groups, userEvents, eventIndex, covered, owner);
    DoneSound(userEvents, groups, eventIndex, covered, owner);
    if UniqueIds(events) {
      DoneExact(groups, userEvents, eventIndex);
    }
  }

  method VisitUser(ghost events: seq<Event>, groups: map<string, seq<Event>>, userEvents: map<string, seq<Event>>,
                   todo: set<string>, eventIndex: map<string, int>, ghost covered: set<string>,
                   ghost owner: map<string, string>, user: string)
    returns (userEvents': map<string, seq<Event>>, eventIndex': map<string, int>, ghost covered': set<string>, ghost owner': map<string, string>)
    requires Inv(events, groups, userEvents, todo, eventIndex, covered, owner)
    requires user in todo
    ensures Inv(events, groups, userEvents', todo - {user}, eventIndex', covered', owner')
  {
    var eventList := SortedCopy(userEvents[user]);
    eventIndex' := IndexPositions(eventList, eventIndex);
    ListsStep(groups, userEvents, todo, user, eventList);
    owner' := Claim(owner, IdsOf(eventList), user);
    IndexStep(groups, userEvents, todo, eventIndex, covered, owner, user, eventList, eventIndex', owner');
    if UniqueIds(events) {
      ExactStep(events, groups, userEvents, todo, eventIndex, user, eventList, eventIndex');
    }
    userEvents' := userEvents[user := eventList];
    covered' := covered + IdsOf(eventList);
  }

  method PrepareDb(events: seq<Event>) returns (db: Db)
    ensures Grouped(db, events)
    ensures db.eventIndex.Keys == EventIds(events)
    ensures IndexSound(db)
    ensures UniqueIds(events) ==> IndexExact(db)
  {
    var groups := GroupByUser(events);
    assert groups == ByUser(events);
    var userEvents := groups;
    var eventIndex: map<string, int> := map[];
    var todo := groups.Keys;
    ghost var covered: set<string> := {};
    ghost var owner: map<string, string> := map[];
    while todo != {}
      invariant Inv(events, groups, userEvents, todo, eventIndex, covered, owner)
      decreases todo
    {
      var user :| user in todo;
      userEvents, eventIndex, covered, owner := VisitUser(events, groups, userEvents, todo, eventIndex, covered, owner, user);
      todo := todo - {user};
    }
    FinishLoop(events, groups, userEvents, eventIndex, covered, owner);
    db := Db(userEvents, eventIndex);
  }
}
