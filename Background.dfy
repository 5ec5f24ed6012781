/** The service worker's message handlers (background.js): save the page's
    session, switch the page to a saved one, list, delete and rename. */
module Background {
  import opened Wrappers
  import opened Json
  import opened Strings
  import opened PageStorage
  import opened Capture
  import opened Injection
  import opened Sessions
  import opened ExtensionStore

  const ErrNoTab: string := "Nenhuma aba do Supabase encontrada. Abra o dashboard do Supabase primeiro."
  const ErrNoSession: string := "Nenhuma sessão ativa encontrada. Faça login no Supabase primeiro."
  const ErrNotFound: string := "Sessão não encontrada."

  /** What `chrome.tabs.query` reports of a tab; a missing URL is None. */
  datatype Tab = Tab(id: int, url: Option<string>)

  /** `getActiveSupabaseTab`: the first tab of the query, provided its URL
      contains `supabase.com`. */
  function ActiveSupabaseTab(tabs: seq<Tab>): (r: Result<Tab, string>)
    ensures r.Success? <==> |tabs| > 0 && tabs[0].url.Some? && Contains(tabs[0].url.value, "supabase.com")
    ensures r.Success? ==> r.value == tabs[0]
    ensures r.Failure? ==> r.error == ErrNoTab
  {
    if |tabs| == 0 || tabs[0].url.None? || tabs[0].url.value == "" || !Contains(tabs[0].url.value, "supabase.com")
    then Failure(ErrNoTab)
    else Success(tabs[0])
  }

  /** `handleSaveSession`. `page` is the document of the active tab; `now`,
      `colorIndex` and `savedAt` stand for `Date.now()`, the palette index
      `Math.random` picks and `new Date().toISOString()`. */
  method HandleSave(store: LocalStore, tabs: seq<Tab>, page: Page, data: SaveData, parse: Parser,
                    now: nat, colorIndex: nat, savedAt: string)
    returns (r: Result<Session, string>)
    requires colorIndex < |Palette|
    modifies store
    ensures store.activeSessionId == old(store.activeSessionId)
    ensures ActiveSupabaseTab(tabs).Failure? ==>
              r == Failure(ErrNoTab) && store.sessions == old(store.sessions)
    ensures ActiveSupabaseTab(tabs).Success? && Captured(page.items) == [] ==>
              r == Failure(ErrNoSession) && store.sessions == old(store.sessions)
    ensures ActiveSupabaseTab(tabs).Success? && Captured(page.items) != [] ==>
              var tokens := Captured(page.items);
              && r == Success(NewSession(data, tokens, PickUserInfo(tokens, parse), now, colorIndex, savedAt))
              && store.sessions == old(store.sessions) + [r.value]
  {
    var tab := ActiveSupabaseTab(tabs);
    if tab.Failure? {
      return Failure(tab.error);
    }
    var tokens, userInfo := ReadTokens(page, parse);
    if |tokens| == 0 {
      return Failure(ErrNoSession);
    }
    var sessions := store.sessions;
    var newSession := NewSession(data, tokens, userInfo, now, colorIndex, savedAt);
    sessions := sessions + [newSession];
    store.sessions := sessions;
    r := Success(newSession);
  }

  /** `handleSwitchSession`. `page` is the document of the active tab. */
  method HandleSwitch(store: LocalStore, tabs: seq<Tab>, page: Page, id: string)
    returns (r: Result<(), string>)
    modifies store, page
    ensures store.sessions == old(store.sessions)
    ensures ActiveSupabaseTab(tabs).Failure? ==>
              r == Failure(ErrNoTab) && unchanged(store) && unchanged(page)
    ensures ActiveSupabaseTab(tabs).Success? && FindById(old(store.sessions), id).None? ==>
              r == Failure(ErrNotFound) && unchanged(store) && unchanged(page)
    ensures ActiveSupabaseTab(tabs).Success? && FindById(old(store.sessions), id).Some? ==>
              && r == Success(())
              && page.items == Injected(old(page.items), FindById(old(store.sessions), id).value.tokens)
              && page.location == Dashboard
              && store.activeSessionId == Some(id)
  {
    var tab := ActiveSupabaseTab(tabs);
    if tab.Failure? {
      return Failure(tab.error);
    }
    var session := FindById(store.sessions, id);
    if session.None? {
      return Failure(ErrNotFound);
    }
    Inject(page, session.value.tokens);
    store.activeSessionId := Some(session.value.id);
    r := Success(());
  }

  /** `handleGetSessions`: the saved list and the active pointer. */
  method HandleGetSessions(store: LocalStore) returns (sessions: seq<Session>, activeSessionId: Option<string>)
    ensures sessions == store.sessions && activeSessionId == store.activeSessionId
  {
    sessions := store.sessions;
    activeSessionId := store.activeSessionId;
  }

  /** `handleDeleteSession`. The active pointer is left as it is, even when
      it names the deleted record. */
  method HandleDelete(store: LocalStore, id: string)
    modifies store
    ensures store.sessions == DeleteById(old(store.sessions), id)
    ensures store.activeSessionId == old(store.activeSessionId)
  {
    store.sessions := DeleteById(store.sessions, id);
  }

  /** `handleRenameSession`. */
  method HandleRename(store: LocalStore, id: string, name: string)
    modifies store
    ensures store.sessions == RenameById(old(store.sessions), id, name)
    ensures store.activeSessionId == old(store.activeSessionId)
  {
    store.sessions := RenameById(store.sessions, id, name);
  }
}
