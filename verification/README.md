# cacaluploader upload adapters: composite event ids and the CalDAV cache

This project models the core of `cacaluploader/upload_adapters.py`. That file
holds the upload adapters that synchronise events with CalDAV and Exchange
calendars. The model covers:

- **The composite event identifier.** A calendar uid, which may be absent, and
  an event uid are packed into one native uid with the separator `-|-`
  (`Identifiers.Sep`). `Identifiers.Encode` is the encoding used by
  `delete_event` and `add_event`. `Identifiers.Decode` is the `extractor` of
  `retrieve_event_ids`. Both are `Identifiers.EncodeWith` and
  `Identifiers.DecodeWith` applied to `-|-`; those two take the separator as a
  parameter, so the model can also state what a separator that cannot overlap
  itself would give. It works on `Strings.Split`, which is Python's
  `str.split`: leftmost, non-overlapping occurrences, with possibly empty parts.
- **The CalDAV adapter** (`CalDav`). `connect` selects the first calendar with
  exactly the configured url. `retrieve_event_ids` replaces the event cache and
  returns the decoded ids aligned with it. `delete_event` deletes every cached
  handle stored under the re-encoded uid. `add_event` writes the event document
  under the composite uid.
- **The Exchange adapter's `connect`** (`Exchange`). It selects the last folder
  with the configured display name, or the default calendar when no name is
  configured.

Remote state is abstract. A cached event is a `Handle`: its native uid, a flag
that says whether it was deleted on the server, and a flag that says whether
the server refuses to delete it. Each server reply is a parameter of the
operation that receives it:

- the principal's calendar listing;
- the time-range query result;
- whether an upload is accepted.

Two Python errors that the source does not catch are modelled as error kinds:

- `NotConnected`: an operation uses the calendar before `connect` succeeded.
- `NotRetrieved`: `delete_event` filters the cache before any successful retrieval. A retrieval that raised leaves the cache unset as well.

The model follows the code:

- `delete_event` is not atomic. The deletion loop stops at the first handle
  whose deletion the server refuses. Deletions made before that handle stand,
  and later handles are not tried (`CalDav.DeleteMatches` stops there, and
  `CalDav.DeleteMatchesDeletes` states which flags are set).
- Keeping the separator out of both uids is not enough for a round trip. See
  "## Findings".

## Model

| member | source | states |
|---|---|---|
| Strings.Split | cacaluploader/upload_adapters.py:96-97 | the split yields at least one part; exactly one part iff the uid holds no separator, and that part is then the whole uid |
| Strings.SplitPartsSeparatorFree | cacaluploader/upload_adapters.py:96 | no part of a split contains the separator |
| Strings.JoinSplit | cacaluploader/upload_adapters.py:96 | rejoining the parts of a split with the separator gives back the original string |
| Identifiers.EncodeWith | cacaluploader/upload_adapters.py:107-110 | the native uid ends with the event uid; with a calendar uid present it starts with that uid and contains a separator |
| Identifiers.DecodeWith | cacaluploader/upload_adapters.py:94-99 | a pair comes back iff the split has at most two parts; a separator-free uid decodes to (None, uid); a missing calendar uid means no separator; the parts of a pair are separator-free; otherwise the tuple has three or more parts |
| Identifiers.UnambiguousUnlessOverlap | cacaluploader/upload_adapters.py:16 | because the separator overlaps itself, a separator-free calendar uid round-trips safely iff it does not end in the separator's first two characters (dash, bar) |
| Identifiers.DecodeEncode | cacaluploader/upload_adapters.py:96-99 | round trip: an unambiguous calendar uid and a separator-free event uid, joined and then split, give back exactly that pair |
| Identifiers.DecodeEncodeBare | cacaluploader/upload_adapters.py:95-99 | round trip without a calendar uid: a separator-free event uid encodes to itself and decodes to (None, uid) |
| Identifiers.RoundTripIff | cacaluploader/upload_adapters.py:96-99 | for separator-free uids, the pair survives encoding and decoding iff the calendar uid does not end in the separator's first two characters; both directions |
| Identifiers.SeparatorFreeRoundTripFails | cacaluploader/upload_adapters.py:122 | two different separator-free pairs, the first with calendar uid dash-bar and event uid x, are written under the same native uid, and that uid decodes to the second pair, whose calendar uid is empty |
| Identifiers.EncodeDecode | cacaluploader/upload_adapters.py:108-110 | reverse round trip: every native uid whose split has at most two parts decodes to a pair that re-encodes to that exact uid |
| Identifiers.DecodeInjective | cacaluploader/upload_adapters.py:96-99 | two native uids that decode to the same pair are equal |
| Identifiers.TwoSeparatorsDecodeWide | cacaluploader/upload_adapters.py:96-99 | a native uid with two non-overlapping separators decodes to a tuple of three or more parts, not to a pair |
| Identifiers.ExampleDecodes | cacaluploader/upload_adapters.py:94-99 | the pair ("cal1", "ev1") is written as cal1, separator, ev1, which decodes back to it; "ev2" decodes to (None, "ev2") |
| Identifiers.SeparatorBorders | cacaluploader/upload_adapters.py:16 | the separator as written has a border (its leading dash is also its trailing dash); the two-character separator dash-bar has none |
| Identifiers.CorrectedRoundTrip | cacaluploader/upload_adapters.py:96-99 | with the border-free separator, every pair of uids free of that separator is read back exactly as written |
| Strings.BorderFreeJoint | cacaluploader/upload_adapters.py:96 | with a border-free separator, a separator-free string followed by a proper prefix of the separator still holds no separator |
| Strings.BorderFreeSplitJoin | cacaluploader/upload_adapters.py:96 | with a border-free separator, two separator-free strings joined by it split back into exactly those two |
| CalDav.NewAdapter | cacaluploader/upload_adapters.py:58-69 | a new adapter keeps the url and has no calendar and no cached events |
| CalDav.SelectCalendar | cacaluploader/upload_adapters.py:77-81 | the selected position is the first calendar whose url equals the configured one exactly; none is selected iff no url matches |
| CalDav.Connect | cacaluploader/upload_adapters.py:71-88 | rejected credentials give an authorization connection error; no matching url gives a not-found connection error; success binds the first exact-url calendar and leaves url and cache alone |
| CalDav.RetrieveEventIds | cacaluploader/upload_adapters.py:90-103 | succeeds iff connected and the query returns; not connected or a query error fails with the matching error; success replaces the cache with the query result and returns one decoded id per handle, position by position |
| CalDav.DeleteMatches | cacaluploader/upload_adapters.py:112-114 | same handles in the same order afterwards, apart from deletion flags; it stops iff some matching handle refuses deletion, and then at the first one, every earlier matching handle having been deletable |
| CalDav.DeleteMatchesDeletes | cacaluploader/upload_adapters.py:112-116 | after the loop a handle is deleted iff it was already deleted, or it carries the uid and the loop reached it before stopping |
| CalDav.DeleteEvent | cacaluploader/upload_adapters.py:105-116 | no cache gives NotRetrieved; failure iff a handle under the re-encoded uid refuses deletion; without failure, exactly the handles under that uid are now deleted and nothing else changes; on failure, exactly the handles under that uid placed before the first refused one are deleted, so earlier deletions stand |
| CalDav.DeleteMatchesReach | cacaluploader/upload_adapters.py:113-116 | the pass reaches a position iff no handle up to and including it is a refused match under the uid |
| CalDav.DeleteNoMatchIsNoop | cacaluploader/upload_adapters.py:112-114 | when no cached handle has the re-encoded uid, delete leaves the adapter unchanged and reports no failure |
| CalDav.AddEvent | cacaluploader/upload_adapters.py:118-137 | not connected or rejected uploads fail; an accepted document carries the uid delete_event would look for, the title as summary and the location |
| CalDav.RetrievedPairTargetsItsHandles | cacaluploader/upload_adapters.py:94-112 | a retrieved pair re-encodes to its own handle's uid, and it matches a cached handle iff that handle was reported under the same pair |
| CalDav.DeleteAfterRetrieve | cacaluploader/upload_adapters.py:90-114 | deleting a retrieved pair, with no refusals, deletes its handle and exactly the handles reported under the same pair |
| CalDav.AddedEventIsRecognised | cacaluploader/upload_adapters.py:94-122 | an event added under unambiguous uids is reported under exactly its (calendar uid, uid) pair by a retrieval that finds it |
| CalDav.DeleteBareIdLeavesComposite | cacaluploader/upload_adapters.py:90-114 | after retrieving a composite and a bare uid, deleting (None, bare) deletes only the bare handle |
| Exchange.FindFolderId | cacaluploader/upload_adapters.py:165-172 | the result is absent iff no folder has the name; otherwise it is the id of the last folder with that display name |
| Exchange.Connect | cacaluploader/upload_adapters.py:160-179 | no configured name binds the default calendar; a configured name binds the last folder with that display name, or fails with a not-found connection error iff none matches |

## Left out

- Network and authentication are left out. The caldav client, principal, `date_search`, handle deletion and `calendar.add_event` are foreign library calls. Their results are parameters: the calendar listing or refusal, the query result or error, a handle's refusal flag, and the upload's acceptance.
- Credentials are not modelled, because only the libraries use them.
- iCalendar document building, `to_ical` serialisation and the UTC conversion of start and end times are left out (lines 121-135). `CalDav.VEvent` keeps only the uid, summary and location, and `Adapter.Event` has no times.
- The retrieval time window is not modelled, because the server applies it. Its effect is folded into the query result that is passed in.
- The Exchange adapter's `retrieve_event_ids` and `add_event` are left out (lines 181-186, 196-206). They depend on pyexchange and on the tag-stripping regex, whose meaning rests on Python `re` semantics.
- The Exchange adapter's `delete_event` is left out (lines 188-194). Its filter refers to an undefined name `uid`; because Python's `filter` is lazy, it raises `NameError` as soon as the cache holds an event, returns normally on an empty cache, and raises `TypeError` on a cache that was never retrieved.
- Exception messages and `from ex` chaining are left out. Failures are `Adapter.AdapterError` kinds.
- Exchange errors raised by pyexchange during `connect` are not caught by the source. They are left out with the rest of the library.
- `add_event` with an absent calendar uid is excluded by a precondition (`CalDav.AddEvent`). There, Python string concatenation would raise a `TypeError`.
- The source reads the calendar uid as `event.calender_uid` (line 122). `cacaluploader/event.py` is not part of this model, and the model reads `Event.calendarUid`.
- Every retrieved event is assumed to carry a uid. The `extractor` would raise an uncaught `AttributeError` on one without.
- Exchange folder ids are assumed present. If the last folder with the configured name had id `None`, `connect` would raise `CalendarConnectionError` even when an earlier folder with that name has an id; `Exchange.Connect` assumes this does not happen.
- A decoded tuple of three or more parts cannot be passed to `delete_event`, which takes two ids. `CalDav.DeleteEvent` therefore takes a pair.

## Findings

| source | as written | input that shows it | evidently intended | confidence | as-written member | corrected member |
|---|---|---|---|---|---|---|
| cacaluploader/upload_adapters.py:96-99 | `add_event` writes the calendar uid, the separator and the event uid, and retrieval splits on every separator. The separator begins and ends with a dash, so a calendar uid ending in dash-bar moves the split point | calendar uid dash-bar, event uid x: written as dash-bar-dash-bar-dash-x, read back as calendar uid "" and event uid bar-dash-x | every (calendar uid, event uid) pair written with separator-free uids is read back as that pair | high; not executed, follows from the semantics of `str.split` | Identifiers.SeparatorFreeRoundTripFails | Identifiers.CorrectedRoundTrip |

The corrected member replaces the separator with one that cannot overlap itself (`Identifiers.BorderFreeSep`, the separator without its trailing dash). With it, the intended rule holds as stated: `Identifiers.CorrectedRoundTrip` proves the round trip for every pair of separator-free uids, through `Strings.BorderFreeSplitJoin`. The adapters themselves are still modelled with `-|-`, as written. For that separator, `Identifiers.DecodeEncode` proves the round trip on the narrower domain `Identifiers.UnambiguousCalUid`: a separator-free calendar uid must also not end in `-|`. `Identifiers.RoundTripIff` shows that this condition is exactly what is needed. `CalDav.AddedEventIsRecognised` relies on it. Without the condition, an event added under such a calendar uid is never recognised by a later retrieval. Deleting the pair that was read back still reaches the right handle, because `Identifiers.EncodeDecode` holds for every native uid that decodes to a pair.
