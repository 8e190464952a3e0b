/**
 * The request table of the service's own test suite, restated over any
 * timeline long enough for the table's windows (15 or more events): an
 * anchor at the start, in the middle or at the end, with limit "5" and pages
 * "2", "-2" and "20"; plus a ten-event scenario with limit "4" and page "1".
 */
module Scenarios {
  import opened Wrappers
  import opened Strconv
  import opened Events
  import opened Store
  import opened Paging
  import opened Query

  /** The numeric query strings the table uses. */
  lemma Literals()
    ensures Atoi("5") == Some(5) && Atoi("4") == Some(4)
    ensures Atoi("1") == Some(1) && Atoi("2") == Some(2) && Atoi("20") == Some(20)
    ensures Atoi("-2") == Some(-2)
  {
    AtoiFormatInt(5);
    assert FormatInt(5) == "5";
    AtoiFormatInt(4);
    assert FormatInt(4) == "4";
    AtoiFormatInt(1);
    assert FormatInt(1) == "1";
    AtoiFormatInt(2);
    assert FormatInt(2) == "2";
    AtoiFormatInt(20);
    assert FormatInt(20) == "20";
    AtoiFormatInt(-2);
    assert FormatInt(-2) == "-2";
  }

  /** The anchor names position k of the user's timeline. */
  predicate AnchoredAt(db: Db, userId: string, eventId: string, k: int) {
    userId in db.userEvents && eventId != "" && eventId in db.eventIndex && db.eventIndex[eventId] == k
  }

  /** Anchor at the first event: limit 5 gives the first five; page 2 the 11th to 15th; pages -2 and 20 nothing. */
  lemma AnchorAtStart(db: Db, userId: string, eventId: string)
    requires AnchoredAt(db, userId, eventId, 0) && |db.userEvents[userId]| >= 15
    ensures var events := db.userEvents[userId];
            && GetEventList(db, userId, eventId, "5", "") == Success(events[0..5])
            && GetEventList(db, userId, eventId, "5", "2") == Success(events[10..15])
            && GetEventList(db, userId, eventId, "5", "-2") == Success([])
            && (|events| <= 100 ==> GetEventList(db, userId, eventId, "5", "20") == Success([]))
  {
    Literals();
    var events := db.userEvents[userId];
    assert !IsDecimalLiteral("");
    assert Window(0, 5, |events|) == (0, 5);
    assert events[|events|..|events|] == [];
  }

  /** Anchor in the middle: limit 5 puts it third of five; pages 2 and -2 move that window by ten. */
  lemma AnchorInMiddle(db: Db, userId: string, eventId: string, k: int)
    requires AnchoredAt(db, userId, eventId, k) && 2 <= k && k + 3 <= |db.userEvents[userId]|
    ensures var events := db.userEvents[userId];
            && GetEventList(db, userId, eventId, "5", "") == Success(events[k - 2..k + 3])
            && (k + 13 <= |events| ==> GetEventList(db, userId, eventId, "5", "2") == Success(events[k + 8..k + 13]))
            && (k >= 12 ==> GetEventList(db, userId, eventId, "5", "-2") == Success(events[k - 12..k - 7]))
  {
    Literals();
    assert !IsDecimalLiteral("");
    assert Window(k, 5, |db.userEvents[userId]|) == (k - 2, k + 3);
  }

  /** Anchor at the last event: limit 5 gives the last five, ending with it; page 2 nothing; page -2 ten earlier. */
  lemma AnchorAtEnd(db: Db, userId: string, eventId: string)
    requires userId in db.userEvents && |db.userEvents[userId]| >= 15
    requires AnchoredAt(db, userId, eventId, |db.userEvents[userId]| - 1)
    ensures var events, n := db.userEvents[userId], |db.userEvents[userId]|;
            && GetEventList(db, userId, eventId, "5", "") == Success(events[n - 5..n])
            && GetEventList(db, userId, eventId, "5", "2") == Success([])
            && GetEventList(db, userId, eventId, "5", "-2") == Success(events[n - 15..n - 10])
  {
    Literals();
    var events, n := db.userEvents[userId], |db.userEvents[userId]|;
    assert !IsDecimalLiteral("");
    assert Window(n - 1, 5, n) == (n - 5, n);
    assert events[n..n] == [];
  }

  /** Ten events anchored at the sixth with limit 4: positions 3 to 6, and on page 1 the last three. */
  lemma TenEvents(db: Db, userId: string, eventId: string)
    requires AnchoredAt(db, userId, eventId, 5) && |db.userEvents[userId]| == 10
    ensures var events := db.userEvents[userId];
            && GetEventList(db, userId, eventId, "4", "") == Success(events[3..7])
            && GetEventList(db, userId, eventId, "4", "1") == Success(events[7..10])
  {
    Literals();
    assert !IsDecimalLiteral("");
    assert Window(5, 4, 10) == (3, 7);
  }
}
