/**
 * What every upload adapter shares: the event record it uploads and the
 * failures its operations report.
 */
module Adapter {
  import opened Wrappers

  /** Why connecting to a calendar failed. */
  datatype ConnectionCause = AuthorizationFailed | CalendarNotFound

  /**
   * The failures of the adapter operations. The first four are the domain
   * errors the adapters raise; the last two are the Python errors raised,
   * uncaught, when an operation runs before the step it depends on.
   */
  datatype AdapterError =
    | CalendarConnectionError(cause: ConnectionCause)
    | EventRetrievalError
    | EventDeletionError
    | EventUploadError
    | NotConnected   // the calendar is still `None`: an AttributeError
    | NotRetrieved   // the event cache is still `None`: a TypeError

  /**
   * An event to upload. The start and end times are not part of this model.
   */
  datatype Event = Event(calendarUid: Option<string>, uid: string, title: string, location: string)
}
