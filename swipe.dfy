/** The swipe decision shared by the device app and the server. */
module Swipe {

  /**
   * The status of a contact: `pending` until the user swipes, then `left`
   * ("not interested") or `right` ("wants to visit"). These are exactly the
   * values the server's `swipe_status` column admits.
   */
  datatype SwipeStatus = Pending | Left | Right

  /** The statuses a swipe can record: both services take only `left` or `right`. */
  type Decision = s: SwipeStatus | s != Pending witness Left
}
