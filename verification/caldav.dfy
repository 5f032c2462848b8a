/**
 * The CalDAV upload adapter: calendar selection on connect, the cache of
 * event handles kept by a retrieval, deletion through that cache, and the
 * uid an added event is written under.
 */
module CalDav {
  import opened Wrappers
  import opened Strings
  import opened Identifiers
  import opened Adapter

  /** A calendar the authenticated principal can see. */
  datatype DavCalendar = DavCalendar(url: string, id: string)

  /**
   * A remote event as the server returned it: its native uid, whether it has
   * been deleted on the server, and whether the server refuses to delete it.
   */
  datatype Handle = Handle(uid: string, deleted: bool, refusesDelete: bool)

  /** The adapter's state: configured url, selected calendar, event cache. */
  datatype CalDavAdapter = CalDavAdapter(url: string, calendar: Option<DavCalendar>, events: Option<seq<Handle>>)

  /** A freshly constructed adapter: nothing selected, nothing cached. */
  function NewAdapter(url: string): (a: CalDavAdapter)
    ensures a.url == url && a.calendar.None? && a.events.None?
  {
    CalDavAdapter(url, None, None)
  }

  // ---------------------------------------------------------------- connect

  /** The position of the first calendar whose url equals `url` exactly. */
  function SelectCalendar(calendars: seq<DavCalendar>, url: string): (r: Option<nat>)
    ensures r.None? <==> forall i :: 0 <= i < |calendars| ==> calendars[i].url != url
    ensures r.Some? ==>
      r.value < |calendars| && calendars[r.value].url == url &&
      forall j :: 0 <= j < r.value ==> calendars[j].url != url
    decreases |calendars|
  {
    if |calendars| == 0 then None
    else if calendars[0].url == url then Some(0)
    else
      match SelectCalendar(calendars[1..], url)
      case None => None
      case Some(k) => Some(k + 1)
  }

  /**
   * Connects: `listing` is the principal's calendars, or `None` when the
   * server refuses the credentials. Only the calendar is changed.
   */
  function Connect(a: CalDavAdapter, listing: Option<seq<DavCalendar>>): (r: Result<CalDavAdapter, AdapterError>)
    ensures listing.None? ==> r == Err(CalendarConnectionError(AuthorizationFailed))
    ensures listing.Some? ==>
      (r.Err? <==> forall i :: 0 <= i < |listing.value| ==> listing.value[i].url != a.url)
    ensures r.Err? && listing.Some? ==> r.error == CalendarConnectionError(CalendarNotFound)
    ensures r.Ok? ==>
      listing.Some? && r.value.url == a.url && r.value.events == a.events &&
      exists i :: 0 <= i < |listing.value| && r.value.calendar == Some(listing.value[i]) &&
        listing.value[i].url == a.url &&
        forall j :: 0 <= j < i ==> listing.value[j].url != a.url
  {
    match listing
    case None => Err(CalendarConnectionError(AuthorizationFailed))
    case Some(calendars) =>
      match SelectCalendar(calendars, a.url)
      case None => Err(CalendarConnectionError(CalendarNotFound))
      case Some(k) => Ok(a.(calendar := Some(calendars[k])))
  }

  // --------------------------------------------------------------- retrieve

  /** A successful retrieval: the new adapter state and the decoded ids. */
  datatype Retrieval = Retrieval(adapter: CalDavAdapter, ids: seq<Decoded>)

  /**
   * Retrieves the event ids of a time window: `found` is what the server's
   * time-range query returns, or `None` when it reports an error.
   */
  function RetrieveEventIds(a: CalDavAdapter, found: Option<seq<Handle>>): (r: Result<Retrieval, AdapterError>)
    ensures a.calendar.None? ==> r == Err(NotConnected)
    ensures a.calendar.Some? && found.None? ==> r == Err(EventRetrievalError)
    ensures r.Ok? <==> a.calendar.Some? && found.Some?
    ensures r.Ok? ==>
      found.Some? &&
      r.value.adapter == a.(events := found) &&
      |r.value.ids| == |found.value| &&
      forall i :: 0 <= i < |found.value| ==> r.value.ids[i] == Decode(found.value[i].uid)
  {
    if a.calendar.None? then Err(NotConnected)
    else
      match found
      case None => Err(EventRetrievalError)
      case Some(handles) =>
        Ok(Retrieval(a.(events := found), seq(|handles|, i requires 0 <= i < |handles| => Decode(handles[i].uid))))
  }

  // ----------------------------------------------------------------- delete

  /** Two caches hold the same handles, in the same order, up to deletion. */
  ghost predicate SameHandles(before: seq<Handle>, after: seq<Handle>)
  {
    |after| == |before| &&
    forall i :: 0 <= i < |before| ==>
      after[i].uid == before[i].uid && after[i].refusesDelete == before[i].refusesDelete
  }

  /** Some handle under `uid` is one the server refuses to delete. */
  ghost predicate RefusedMatch(cache: seq<Handle>, uid: string)
  {
    exists i :: 0 <= i < |cache| && cache[i].uid == uid && cache[i].refusesDelete
  }

  /** A head that is not a refused match leaves the question to the tail. */
  lemma RefusedMatchTail(cache: seq<Handle>, uid: string)
    requires |cache| > 0 && !(cache[0].uid == uid && cache[0].refusesDelete)
    ensures RefusedMatch(cache, uid) <==> RefusedMatch(cache[1..], uid)
    ensures forall i :: 1 <= i < |cache| ==> cache[i] == cache[1..][i - 1]
  {
    if RefusedMatch(cache, uid) {
      var i :| 0 <= i < |cache| && cache[i].uid == uid && cache[i].refusesDelete;
      assert cache[1..][i - 1] == cache[i];
    }
  }

  /** Same handles stay same handles with one more in front of each. */
  lemma SameHandlesCons(h: Handle, h': Handle, before: seq<Handle>, after: seq<Handle>)
    requires h'.uid == h.uid && h'.refusesDelete == h.refusesDelete
    requires SameHandles(before, after)
    ensures SameHandles([h] + before, [h'] + after)
  {
    forall i | 1 <= i < |before| + 1
      ensures ([h'] + after)[i] == after[i - 1] && ([h] + before)[i] == before[i - 1]
    {
    }
  }

  /** A deletion pass: the cache afterwards, and where it stopped, if it did. */
  datatype DeleteRun = DeleteRun(cache: seq<Handle>, refusedAt: Option<nat>)

  /** The pass reached position `i`, rather than stopping before it. */
  predicate Reached(refusedAt: Option<nat>, i: nat)
  {
    refusedAt.None? || i < refusedAt.value
  }

  /**
   * Requests deletion of every cached handle whose native uid is `uid`, in
   * cache order; the first refusal stops the pass, and the deletions before
   * it stand.
   */
  function DeleteMatches(cache: seq<Handle>, uid: string): (r: DeleteRun)
    ensures SameHandles(cache, r.cache)
    ensures r.refusedAt.None? <==> !RefusedMatch(cache, uid)
    ensures r.refusedAt.Some? ==>
      r.refusedAt.value < |cache| &&
      cache[r.refusedAt.value].uid == uid && cache[r.refusedAt.value].refusesDelete &&
      forall j :: 0 <= j < r.refusedAt.value && cache[j].uid == uid ==> !cache[j].refusesDelete
    decreases |cache|
  {
    if |cache| == 0 then DeleteRun([], None)
    else
      var h := cache[0];
      if h.uid == uid && h.refusesDelete then DeleteRun(cache, Some(0))
      else
        var rest := DeleteMatches(cache[1..], uid);
        var h' := if h.uid == uid then h.(deleted := true) else h;
        var stop := match rest.refusedAt case None => None case Some(k) => Some(k + 1);
        RefusedMatchTail(cache, uid);
        SameHandlesCons(h, h', cache[1..], rest.cache);
        assert [h] + cache[1..] == cache;
        assert stop.Some? ==> cache[stop.value] == cache[1..][stop.value - 1];
        DeleteRun([h'] + rest.cache, stop)
  }

  /**
   * The handles a deletion pass marks deleted: exactly those under `uid`
   * that it reached before stopping.
   */
  lemma {:induction false} DeleteMatchesDeletes(cache: seq<Handle>, uid: string)
    ensures var r := DeleteMatches(cache, uid);
      forall i :: 0 <= i < |cache| ==>
        r.cache[i].deleted == (cache[i].deleted || (cache[i].uid == uid && Reached(r.refusedAt, i)))
    decreases |cache|
  {
    if |cache| > 0 && !(cache[0].uid == uid && cache[0].refusesDelete) {
      DeleteMatchesDeletes(cache[1..], uid);
      var r := DeleteMatches(cache, uid);
      var rest := DeleteMatches(cache[1..], uid);
      forall i | 1 <= i < |cache|
        ensures r.cache[i].deleted == (cache[i].deleted || (cache[i].uid == uid && Reached(r.refusedAt, i)))
      {
        assert r.cache[i] == rest.cache[i - 1];
        assert cache[i] == cache[1..][i - 1];
      }
    }
  }

  /**
   * The pass reaches position `i` exactly when no handle up to and including
   * `i` is a refused match: it stops at the first refused match.
   */
  lemma DeleteMatchesReach(cache: seq<Handle>, uid: string)
    ensures var r := DeleteMatches(cache, uid);
      forall i :: 0 <= i < |cache| ==>
        (Reached(r.refusedAt, i) <==> !RefusedMatch(cache[..i + 1], uid))
  {
    var r := DeleteMatches(cache, uid);
    forall i | 0 <= i < |cache|
      ensures Reached(r.refusedAt, i) <==> !RefusedMatch(cache[..i + 1], uid)
    {
      var prefix := cache[..i + 1];
      if r.refusedAt.Some? && r.refusedAt.value <= i {
        var k := r.refusedAt.value;
        assert prefix[k] == cache[k];
      } else {
        forall j | 0 <= j < |prefix|
          ensures !(prefix[j].uid == uid && prefix[j].refusesDelete)
        {
          assert prefix[j] == cache[j];
        }
      }
    }
  }

  /** What a delete call leaves behind: the adapter and the failure, if any. */
  datatype DeleteOutcome = DeleteOutcome(adapter: CalDavAdapter, failure: Option<AdapterError>)

  /**
   * Deletes the event with the given ids from the calendar, through the
   * handles cached by the last retrieval.
   */
  function DeleteEvent(a: CalDavAdapter, cal: Option<string>, ev: string): (r: DeleteOutcome)
    ensures r.adapter.url == a.url && r.adapter.calendar == a.calendar
    ensures a.events.None? ==> r.failure == Some(NotRetrieved) && r.adapter == a
    ensures a.events.Some? ==>
      r.adapter.events.Some? && SameHandles(a.events.value, r.adapter.events.value) &&
      (r.failure.None? <==> !RefusedMatch(a.events.value, Encode(cal, ev))) &&
      (r.failure.Some? ==> r.failure == Some(EventDeletionError))
    ensures a.events.Some? && r.failure.None? ==>
      forall i :: 0 <= i < |a.events.value| ==>
        r.adapter.events.value[i].deleted ==
          (a.events.value[i].deleted || a.events.value[i].uid == Encode(cal, ev))
    ensures a.events.Some? && r.failure.Some? ==>
      forall i :: 0 <= i < |a.events.value| ==>
        r.adapter.events.value[i].deleted ==
          (a.events.value[i].deleted ||
           (a.events.value[i].uid == Encode(cal, ev) &&
            !RefusedMatch(a.events.value[..i + 1], Encode(cal, ev))))
  {
    match a.events
    case None => DeleteOutcome(a, Some(NotRetrieved))
    case Some(cache) =>
      var run := DeleteMatches(cache, Encode(cal, ev));
      DeleteMatchesDeletes(cache, Encode(cal, ev));
      DeleteMatchesReach(cache, Encode(cal, ev));
      DeleteOutcome(a.(events := Some(run.cache)),
                    if run.refusedAt.Some? then Some(EventDeletionError) else None)
  }

  /** A delete whose encoded uid matches no cached handle changes nothing. */
  lemma DeleteNoMatchIsNoop(a: CalDavAdapter, cal: Option<string>, ev: string)
    requires a.events.Some?
    requires forall i :: 0 <= i < |a.events.value| ==> a.events.value[i].uid != Encode(cal, ev)
    ensures DeleteEvent(a, cal, ev) == DeleteOutcome(a, None)
  {
    var cache := a.events.value;
    var after := DeleteEvent(a, cal, ev).adapter.events.value;
    assert forall i :: 0 <= i < |cache| ==> after[i] == cache[i];
    assert after == cache;
  }

  // -------------------------------------------------------------------- add

  /** The fields of the event document written for an added event. */
  datatype VEvent = VEvent(uid: string, summary: string, location: string)

  /**
   * Adds an event: the document carries the composite uid, the title as
   * summary and the location; `accepted` is whether the server takes it.
   */
  function AddEvent(a: CalDavAdapter, e: Event, accepted: bool): (r: Result<VEvent, AdapterError>)
    requires e.calendarUid.Some?
    ensures r.Ok? <==> a.calendar.Some? && accepted
    ensures a.calendar.None? ==> r == Err(NotConnected)
    ensures a.calendar.Some? && !accepted ==> r == Err(EventUploadError)
    ensures r.Ok? ==>
      r.value.uid == Encode(e.calendarUid, e.uid) &&
      r.value.summary == e.title && r.value.location == e.location
  {
    if a.calendar.None? then Err(NotConnected)
    else if !accepted then Err(EventUploadError)
    else Ok(VEvent(e.calendarUid.value + Sep + e.uid, e.title, e.location))
  }

  // -------------------------------------------------------------- lifecycle

  /**
   * A pair returned by a retrieval leads a delete to exactly the cached
   * handles that were reported under that same pair, its own among them.
   */
  lemma RetrievedPairTargetsItsHandles(a: CalDavAdapter, found: seq<Handle>, i: nat)
    requires RetrieveEventIds(a, Some(found)).Ok?
    requires i < |found|
    requires RetrieveEventIds(a, Some(found)).value.ids[i].Pair?
    ensures var ids := RetrieveEventIds(a, Some(found)).value.ids;
      found[i].uid == Encode(ids[i].cal, ids[i].ev) &&
      forall j :: 0 <= j < |found| ==> (found[j].uid == Encode(ids[i].cal, ids[i].ev) <==> ids[j] == ids[i])
  {
    var ids := RetrieveEventIds(a, Some(found)).value.ids;
    EncodeDecode(found[i].uid);
    forall j | 0 <= j < |found|
      ensures found[j].uid == Encode(ids[i].cal, ids[i].ev) <==> ids[j] == ids[i]
    {
      if ids[j] == ids[i] {
        DecodeInjective(found[i].uid, found[j].uid);
      }
    }
  }

  /**
   * Deleting a retrieved pair, when the server accepts the deletions,
   * deletes its handle and every handle reported under the same pair, and
   * leaves every other handle as it was.
   */
  lemma DeleteAfterRetrieve(a: CalDavAdapter, found: seq<Handle>, i: nat)
    requires RetrieveEventIds(a, Some(found)).Ok?
    requires i < |found|
    requires RetrieveEventIds(a, Some(found)).value.ids[i].Pair?
    requires forall j :: 0 <= j < |found| ==> !found[j].refusesDelete
    ensures var r := RetrieveEventIds(a, Some(found)).value;
      var out := DeleteEvent(r.adapter, r.ids[i].cal, r.ids[i].ev);
      out.failure.None? && out.adapter.events.Some? &&
      out.adapter.events.value[i].deleted &&
      forall j :: 0 <= j < |found| ==>
        out.adapter.events.value[j].deleted == (found[j].deleted || r.ids[j] == r.ids[i])
  {
    RetrievedPairTargetsItsHandles(a, found, i);
  }

  /**
   * An event added under an unambiguous pair of uids is reported back under
   * that same pair by any later retrieval that finds it.
   */
  lemma AddedEventIsRecognised(a: CalDavAdapter, e: Event, found: seq<Handle>, i: nat)
    requires e.calendarUid.Some? && UnambiguousCalUid(e.calendarUid.value) && !Contains(e.uid, Sep)
    requires AddEvent(a, e, true).Ok?
    requires i < |found| && found[i].uid == AddEvent(a, e, true).value.uid
    ensures RetrieveEventIds(a, Some(found)).Ok?
    ensures RetrieveEventIds(a, Some(found)).value.ids[i] == Pair(e.calendarUid, e.uid)
  {
    DecodeEncode(e.calendarUid.value, e.uid);
  }

  /**
   * Retrieving a composite and a bare native uid, then deleting the bare
   * pair, deletes that handle only.
   */
  lemma DeleteBareIdLeavesComposite(a: CalDavAdapter, cal: string, ev1: string, ev2: string)
    requires a.calendar.Some?
    requires UnambiguousCalUid(cal) && !Contains(ev1, Sep) && !Contains(ev2, Sep)
    ensures var found := [Handle(cal + Sep + ev1, false, false), Handle(ev2, false, false)];
      var r := RetrieveEventIds(a, Some(found));
      r.Ok? && r.value.ids == [Pair(Some(cal), ev1), Pair(None, ev2)] &&
      DeleteEvent(r.value.adapter, None, ev2) ==
        DeleteOutcome(a.(events := Some([found[0], found[1].(deleted := true)])), None)
  {
    var found := [Handle(cal + Sep + ev1, false, false), Handle(ev2, false, false)];
    DecodeEncode(cal, ev1);
    var r := RetrieveEventIds(a, Some(found)).value;
    assert r.ids == [Pair(Some(cal), ev1), Pair(None, ev2)];
    assert Contains(cal + Sep + ev1, Sep);
    var after := DeleteEvent(r.adapter, None, ev2).adapter.events.value;
    assert after[0] == found[0];
    assert after == [found[0], found[1].(deleted := true)];
  }
}
