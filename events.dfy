/**
 * The calendar service's storage: a generic id-to-object table handing out
 * ids from a counter that only grows, the users and their events kept in
 * such tables, the create/update/delete operations on a user's events, and
 * the window queries that collect the events strictly inside a time frame.
 *
 * Times are integers: seconds from an epoch that falls on a Monday at
 * midnight, with days of exactly 86400 seconds.
 */
module Events {
  import opened Wrappers

  /** The message every failed lookup in a store reports. */
  const NoSuchObj: string := "No such obj"
  const NoSuchUser: string := "No such user"

  /** A table of objects under ids 0, 1, 2, ...; an id once handed out is never handed out again. */
  class Store<T> {
    var firstFreeIdx: int
    var objMap: map<int, T>

    /** Every stored id is below the counter, which is never negative. */
    ghost predicate Valid()
      reads this
    {
      0 <= firstFreeIdx && forall id :: id in objMap ==> 0 <= id < firstFreeIdx
    }

    constructor ()
      ensures Valid()
      ensures firstFreeIdx == 0 && objMap == map[]
    {
      firstFreeIdx := 0;
      objMap := map[];
    }

    /** Stores `obj` under the next id and returns that id. */
    method Add(obj: T) returns (idx: int)
      modifies this
      ensures idx == old(firstFreeIdx)
      ensures objMap == old(objMap)[idx := obj]
      ensures firstFreeIdx == old(firstFreeIdx) + 1
      ensures old(Valid()) ==> Valid() && idx !in old(objMap)
      ensures old(Valid()) ==> forall id :: id in old(objMap) ==> id < idx
    {
      idx := firstFreeIdx;
      objMap := objMap[idx := obj];
      firstFreeIdx := firstFreeIdx + 1;
    }

    /** The object under `id`, or an error when there is none. */
    method Get(id: int) returns (r: Result<T, string>)
      ensures r.Success? <==> id in objMap
      ensures r.Success? ==> r.value == objMap[id]
      ensures r.Failure? ==> r.error == NoSuchObj
    {
      if id in objMap {
        return Success(objMap[id]);
      }
      return Failure(NoSuchObj);
    }

    /** Replaces the object under an existing `id`; a missing id changes nothing. */
    method Update(id: int, newObj: T) returns (err: Option<string>)
      modifies this
      ensures err.None? <==> id in old(objMap)
      ensures err.Some? ==> err.value == NoSuchObj
      ensures objMap == if id in old(objMap) then old(objMap)[id := newObj] else old(objMap)
      ensures firstFreeIdx == old(firstFreeIdx)
      ensures old(Valid()) ==> Valid()
    {
      if id in objMap {
        objMap := objMap[id := newObj];
        return None;
      }
      return Some(NoSuchObj);
    }

    /** Removes `id`; a missing id changes nothing. The counter is left alone. */
    method Delete(id: int) returns (err: Option<string>)
      modifies this
      ensures err.None? <==> id in old(objMap)
      ensures err.Some? ==> err.value == NoSuchObj
      ensures objMap == old(objMap) - {id}
      ensures firstFreeIdx == old(firstFreeIdx)
      ensures old(Valid()) ==> Valid()
    {
      if id in objMap {
        objMap := objMap - {id};
        return None;
      }
      return Some(NoSuchObj);
    }
  }

  /** An event; only its id is ever written after it is built. */
  class Event {
    var id: int
    const title: string
    const eventTime: int

    constructor (id: int, title: string, eventTime: int)
      ensures this.id == id && this.title == title && this.eventTime == eventTime
    {
      this.id := id;
      this.title := title;
      this.eventTime := eventTime;
    }
  }

  /** A user and the store of their events. */
  class User {
    var id: int
    const name: string
    const eventStore: Store<Event>

    /** NewUser: no id yet (-1) and an empty event store. */
    constructor (name: string)
      ensures id == -1 && this.name == name
      ensures fresh(eventStore) && eventStore.Valid()
      ensures eventStore.objMap == map[] && eventStore.firstFreeIdx == 0
    {
      id := -1;
      this.name := name;
      eventStore := new Store<Event>();
    }
  }

  /** The event store of user `userIdx`, the one object the event operations change. */
  function EventsOf(userIdx: int, userStore: Store<User>): set<Store<Event>>
    reads userStore
  {
    if userIdx in userStore.objMap then {userStore.objMap[userIdx].eventStore} else {}
  }

  // ------------------------------------------------------- event requests

  /**
   * createEvent: files the event in the user's store and writes the new id
   * into the event itself (the store holds the same event). An unknown user
   * gets -1 and the lookup's error, and nothing is stored.
   */
  method CreateEvent(userIdx: int, event: Event, userStore: Store<User>) returns (idx: int, err: Option<string>)
    modifies EventsOf(userIdx, userStore), event
    ensures userIdx !in userStore.objMap ==> idx == -1 && err == Some(NoSuchObj) && unchanged(event)
    ensures userIdx in userStore.objMap ==>
              var store := userStore.objMap[userIdx].eventStore;
              && err.None?
              && idx == old(store.firstFreeIdx)
              && store.objMap == old(store.objMap)[idx := event]
              && store.firstFreeIdx == old(store.firstFreeIdx) + 1
              && event.id == idx
              && (old(store.Valid()) ==> store.Valid() && idx !in old(store.objMap))
  {
    var user := userStore.Get(userIdx);
    if user.Failure? {
      return -1, Some(user.error);
    }
    idx := user.value.eventStore.Add(event);
    event.id := idx;
    return idx, None;
  }

  /** updateEvent: an unknown user or event id fails with the lookup's error and changes nothing. */
  method UpdateEvent(userIdx: int, eventIdx: int, newEvent: Event, userStore: Store<User>) returns (err: Option<string>)
    modifies EventsOf(userIdx, userStore)
    ensures err.Some? ==> err.value == NoSuchObj
    ensures userIdx !in userStore.objMap ==> err.Some?
    ensures userIdx in userStore.objMap ==>
              var store := userStore.objMap[userIdx].eventStore;
              && (err.None? <==> eventIdx in old(store.objMap))
              && store.objMap == (if err.None? then old(store.objMap)[eventIdx := newEvent] else old(store.objMap))
              && store.firstFreeIdx == old(store.firstFreeIdx)
  {
    var user := userStore.Get(userIdx);
    if user.Failure? {
      return Some(user.error);
    }
    err := user.value.eventStore.Update(eventIdx, newEvent);
    if err.Some? {
      return err;
    }
    return None;
  }

  /** deleteEvent: an unknown user or event id fails with the lookup's error and changes nothing. */
  method DeleteEvent(userIdx: int, eventIdx: int, userStore: Store<User>) returns (err: Option<string>)
    modifies EventsOf(userIdx, userStore)
    ensures err.Some? ==> err.value == NoSuchObj
    ensures userIdx !in userStore.objMap ==> err.Some?
    ensures userIdx in userStore.objMap ==>
              var store := userStore.objMap[userIdx].eventStore;
              && (err.None? <==> eventIdx in old(store.objMap))
              && store.objMap == old(store.objMap) - {eventIdx}
              && store.firstFreeIdx == old(store.firstFreeIdx)
  {
    var user := userStore.Get(userIdx);
    if user.Failure? {
      return Some(user.error);
    }
    err := user.value.eventStore.Delete(eventIdx);
    if err.Some? {
      return err;
    }
    return None;
  }

  // -------------------------------------------------------- time windows

  /** `start.Before(t) && end.After(t)`: strictly inside the frame. */
  predicate InFrame(start: int, end: int, t: int) {
    start < t < end
  }

  /** The ids whose events fall strictly inside the frame. */
  function Hits(m: map<int, Event>, start: int, end: int): (ids: set<int>)
    ensures forall id :: id in ids <==> id in m && InFrame(start, end, m[id].eventTime)
  {
    set id | id in m && InFrame(start, end, m[id].eventTime)
  }

  /**
   * getEventsInTimeFrame: visits the stored events in no particular order (a
   * Go map has none) and keeps those strictly between `start` and `end`. The
   * ghost `order` names the id behind each kept event: every matching id
   * exactly once, and no other.
   */
  method GetEventsInTimeFrame(start: int, end: int, eventStore: Store<Event>) returns (res: seq<Event>, ghost order: seq<int>)
    ensures |res| == |order|
    ensures forall i :: 0 <= i < |order| ==> order[i] in eventStore.objMap && res[i] == eventStore.objMap[order[i]]
    ensures forall i :: 0 <= i < |res| ==> InFrame(start, end, res[i].eventTime)
    ensures forall i, j :: 0 <= i < j < |order| ==> order[i] != order[j]
    ensures forall id :: id in Hits(eventStore.objMap, start, end) <==> id in order
  {
    var m := eventStore.objMap;
    res, order := [], [];
    var rest := m.Keys;
    while rest != {}
      invariant rest <= m.Keys
      invariant |res| == |order|
      invariant forall i :: 0 <= i < |order| ==> order[i] in m && order[i] !in rest && res[i] == m[order[i]]
      invariant forall i :: 0 <= i < |res| ==> InFrame(start, end, res[i].eventTime)
      invariant forall i, j :: 0 <= i < j < |order| ==> order[i] != order[j]
      invariant forall id :: id in Hits(m, start, end) && id !in rest <==> id in order
      decreases |rest|
    {
      ghost var some := SomeKey(rest);
      var id :| id in rest;
      var ev := m[id];
      if start < ev.eventTime && end > ev.eventTime {
        res := res + [ev];
        order := order + [id];
      }
      rest := rest - {id};
    }
  }

  /** A witness that a non-empty set of ids has a member to pick. */
  lemma SomeKey<K>(ids: set<K>) returns (id: K)
    requires ids != {}
    ensures id in ids
  {
    id :| id in ids;
  }

  const SecondsPerDay: int := 86400

  /** Go's `Weekday` of a time: 0 for Sunday, 1 for Monday, ... (the epoch is a Monday). */
  function Weekday(t: int): (d: int)
    ensures 0 <= d < 7
  {
    (t / SecondsPerDay + 1) % 7
  }

  /** How many days back the Monday of the week is: `(weekday + 6) % 7`. */
  function WeekOffset(weekday: int): (off: int)
    requires 0 <= weekday < 7
  {
    (weekday + 6) % 7
  }

  lemma WeekOffsetRange(weekday: int)
    requires 0 <= weekday < 7
    ensures 0 <= WeekOffset(weekday) <= 6
    ensures WeekOffset(weekday) == 0 <==> weekday == 1
    ensures weekday == 0 ==> WeekOffset(weekday) == 6
  {
  }

  /** eventsForWeek's start: midnight of the Monday on or before `date`. */
  function WeekStart(date: int): int
  {
    (date / SecondsPerDay - WeekOffset(Weekday(date))) * SecondsPerDay
  }

  /** The week frame holds `date`, starts at a midnight, and that midnight is a Monday. */
  lemma WeekStartIsMonday(date: int)
    ensures WeekStart(date) <= date < WeekStart(date) + 7 * SecondsPerDay
    ensures WeekStart(date) % SecondsPerDay == 0
    ensures Weekday(WeekStart(date)) == 1
  {
    var day := date / SecondsPerDay;
    var off := WeekOffset(Weekday(date));
    assert WeekStart(date) / SecondsPerDay == day - off;
    assert (day - off + 1) % 7 == 1 by {
      assert off == (day + 1 + 6) % 7;
    }
  }

  /** The objects found under the ids of `order` include every object of the frame. */
  lemma FoundAll(m: map<int, Event>, start: int, end: int, res: seq<Event>, order: seq<int>)
    requires |res| == |order|
    requires forall i :: 0 <= i < |order| ==> order[i] in m && res[i] == m[order[i]]
    requires forall id :: id in Hits(m, start, end) <==> id in order
    ensures forall id :: id in m && InFrame(start, end, m[id].eventTime) ==> m[id] in res
  {
    forall id | id in m && InFrame(start, end, m[id].eventTime)
      ensures m[id] in res
    {
      assert id in order;
      var i :| 0 <= i < |order| && order[i] == id;
      assert res[i] == m[id];
    }
  }

  /** eventsForDay: the events strictly inside the day that starts at `date`. */
  method EventsForDay(userIdx: int, date: int, userStore: Store<User>) returns (r: Result<seq<Event>, string>, ghost order: seq<int>)
    ensures r.Failure? <==> userIdx !in userStore.objMap
    ensures r.Failure? ==> r.error == NoSuchUser
    ensures r.Success? ==> forall i :: 0 <= i < |r.value| ==>
              InFrame(date, date + SecondsPerDay, r.value[i].eventTime) &&
              r.value[i] in userStore.objMap[userIdx].eventStore.objMap.Values
    ensures r.Success? ==>
              var m := userStore.objMap[userIdx].eventStore.objMap;
              forall id :: id in m && InFrame(date, date + SecondsPerDay, m[id].eventTime) ==> m[id] in r.value
    ensures r.Success? ==>
              var m := userStore.objMap[userIdx].eventStore.objMap;
              && |r.value| == |order|
              && (forall i :: 0 <= i < |order| ==> order[i] in m && r.value[i] == m[order[i]])
              && (forall i, j :: 0 <= i < j < |order| ==> order[i] != order[j])
              && (forall id :: id in Hits(m, date, date + SecondsPerDay) <==> id in order)
  {
    var user := userStore.Get(userIdx);
    if user.Success? {
      var events;
      events, order := GetEventsInTimeFrame(date, date + SecondsPerDay, user.value.eventStore);
      FoundAll(user.value.eventStore.objMap, date, date + SecondsPerDay, events, order);
      return Success(events), order;
    }
    return Failure(NoSuchUser), [];
  }

  /** eventsForWeek: the events strictly inside the Monday-to-Monday week holding `date`. */
  method EventsForWeek(userIdx: int, date: int, userStore: Store<User>) returns (r: Result<seq<Event>, string>, ghost order: seq<int>)
    ensures r.Failure? <==> userIdx !in userStore.objMap
    ensures r.Failure? ==> r.error == NoSuchUser
    ensures r.Success? ==> forall i :: 0 <= i < |r.value| ==>
              InFrame(WeekStart(date), WeekStart(date) + 7 * SecondsPerDay, r.value[i].eventTime) &&
              r.value[i] in userStore.objMap[userIdx].eventStore.objMap.Values
    ensures r.Success? ==>
              var m := userStore.objMap[userIdx].eventStore.objMap;
              forall id :: id in m && InFrame(WeekStart(date), WeekStart(date) + 7 * SecondsPerDay, m[id].eventTime) ==> m[id] in r.value
    ensures r.Success? ==>
              var m := userStore.objMap[userIdx].eventStore.objMap;
              && |r.value| == |order|
              && (forall i :: 0 <= i < |order| ==> order[i] in m && r.value[i] == m[order[i]])
              && (forall i, j :: 0 <= i < j < |order| ==> order[i] != order[j])
              && (forall id :: id in Hits(m, WeekStart(date), WeekStart(date) + 7 * SecondsPerDay) <==> id in order)
  {
    var user := userStore.Get(userIdx);
    if user.Success? {
      var start := WeekStart(date);
      var events;
      events, order := GetEventsInTimeFrame(start, start + 7 * SecondsPerDay, user.value.eventStore);
      FoundAll(user.value.eventStore.objMap, start, start + 7 * SecondsPerDay, events, order);
      return Success(events), order;
    }
    return Failure(NoSuchUser), [];
  }
}
