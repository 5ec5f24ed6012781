/** The extension's own persistent storage (`chrome.storage.local`), shared by
    the service worker and the popup. */
module ExtensionStore {
  import opened Wrappers
  import opened Sessions

  class LocalStore {
    /** The `sessions` key; a missing key reads as the empty list. */
    var sessions: seq<Session>
    /** The `activeSessionId` key; a missing key reads as null. */
    var activeSessionId: Option<string>

    /** Storage as it is before anything was saved. */
    constructor ()
      ensures sessions == [] && activeSessionId == None
    {
      sessions := [];
      activeSessionId := None;
    }
  }
}
