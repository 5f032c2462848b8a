/**
 * Calendar selection of the Exchange upload adapter. Its retrieval, upload
 * and deletion are not part of this model.
 */
module Exchange {
  import opened Wrappers
  import opened Adapter

  /** A calendar folder under the account's root calendar folder. */
  datatype Folder = Folder(displayName: string, id: string)

  /** The calendar an Exchange adapter is bound to. */
  datatype ExchangeCalendar = DefaultCalendar | FolderCalendar(folderId: string)

  /** The adapter's state: the configured calendar name and the bound calendar. */
  datatype ExchangeAdapter = ExchangeAdapter(calendarName: Option<string>, calendar: Option<ExchangeCalendar>)

  /**
   * Scans every folder and keeps the id of each one whose display name is
   * `name`; the scan never stops early, so the last match wins.
   */
  method FindFolderId(folders: seq<Folder>, name: string) returns (calendarId: Option<string>)
    ensures calendarId.None? <==> forall i :: 0 <= i < |folders| ==> folders[i].displayName != name
    ensures calendarId.Some? ==>
      exists i :: 0 <= i < |folders| && folders[i].displayName == name &&
        calendarId.value == folders[i].id &&
        forall j :: i < j < |folders| ==> folders[j].displayName != name
  {
    calendarId := None;
    ghost var last: int := -1;
    var k := 0;
    while k < |folders|
      invariant 0 <= k <= |folders|
      invariant -1 <= last < k
      invariant calendarId.None? <==> last == -1
      invariant last == -1 ==> forall j :: 0 <= j < k ==> folders[j].displayName != name
      invariant last >= 0 ==>
        folders[last].displayName == name && calendarId == Some(folders[last].id) &&
        forall j :: last < j < k ==> folders[j].displayName != name
    {
      if folders[k].displayName == name {
        calendarId := Some(folders[k].id);
        last := k;
      }
      k := k + 1;
    }
  }

  /**
   * Connects: with no calendar name configured, binds the default calendar;
   * otherwise binds the last folder of that display name, or fails.
   */
  method Connect(a: ExchangeAdapter, folders: seq<Folder>) returns (r: Result<ExchangeAdapter, AdapterError>)
    ensures a.calendarName.None? ==> r == Ok(a.(calendar := Some(DefaultCalendar)))
    ensures a.calendarName.Some? ==>
      (r.Err? <==> forall i :: 0 <= i < |folders| ==> folders[i].displayName != a.calendarName.value)
    ensures r.Err? ==> r.error == CalendarConnectionError(CalendarNotFound)
    ensures r.Ok? && a.calendarName.Some? ==>
      r.value.calendarName == a.calendarName &&
      exists i :: 0 <= i < |folders| && folders[i].displayName == a.calendarName.value &&
        r.value.calendar == Some(FolderCalendar(folders[i].id)) &&
        forall j :: i < j < |folders| ==> folders[j].displayName != a.calendarName.value
  {
    if a.calendarName.Some? {
      var calendarId := FindFolderId(folders, a.calendarName.value);
      if calendarId.None? {
        return Err(CalendarConnectionError(CalendarNotFound));
      }
      r := Ok(a.(calendar := Some(FolderCalendar(calendarId.value))));
    } else {
      r := Ok(a.(calendar := Some(DefaultCalendar)));
    }
  }
}
