# Supabase account switcher — session store model

The switcher is a browser extension that keeps several logged-in Supabase
dashboard sessions and moves the open dashboard tab from one to another.
A session is whatever the dashboard keeps in the page's `localStorage` under
keys that start with `sb-` or contain `supabase`. The background service
worker (background.js) copies those entries into a saved record, writes a
saved record's entries back into the page, and lists, deletes and renames
the records. The popup (popup.js) keeps a copy of the list, runs the save
and delete dialogs, renders the rows and restores backup files.

This project models that session store in Dafny and proves what each
operation does to it.

- The page's `localStorage` is an ordered sequence of key/value pairs with
  unique keys (`KeyValue.Entries`). The model takes `setItem` on a new key
  to append it, and
  `setItem` on an existing key updates it in place. `removeItem` drops the
  key and keeps the others in order. Order matters because the first
  matching entry supplies the user info.
- The page is a class (`PageStorage.Page`) whose storage the injection
  script changes in place. The extension's `chrome.storage.local` is a
  class (`ExtensionStore.LocalStore`) holding the saved list and the active
  pointer. The popup's module variables are a class (`Popup.PopupState`).
- The page scripts (collect, pick the user, inject, pre-fill scan) and the
  import merge are loops in methods. Each method is proved equal to a
  specification function (`Captured`, `PickUserInfo`, `Injected`,
  `FirstEmail`, `Admitted`), and the properties are proved about those
  functions.
- `JSON.parse` is a parameter of type `Json.Parser` (None stands for a
  throw). The clock, the ISO time text and the random palette index are
  parameters too.

The popup sends a `FORCE_REFRESH` message (popup.js:297, 378), but the
message listener (background.js:4-25) has no branch for it, so nothing
answers it. The `expired` flag of a record is only read, when a row is
rendered (popup.js:67); no code sets it. So the model has no token refresh,
and `expired` is an input field that a record saved here always has false.

## Model

| member | source | states |
|---|---|---|
| KeyValue.Keys | background.js:51 | `Object.keys` of a token object lists its keys in insertion order, one per entry |
| KeyValue.Get | background.js:46 | `getItem` finds nothing exactly when the key is absent |
| KeyValue.GetAt | background.js:44-46 | in a store with unique keys, `getItem` of the key at position i returns the value at position i |
| KeyValue.GetFound | background.js:46 | a value `getItem` finds is stored under that key at some position |
| KeyValue.Set | background.js:119 | `setItem` adds the key to the key set, makes `getItem` of it return the new value, leaves every other key's value alone, and appends when the key was new |
| KeyValue.Remove | background.js:116 | `removeItem` removes exactly that key from the key set and leaves every other key's value alone |
| PageStorage.Page.constructor | background.js:105-107 | a page starts with the given storage and location |
| PageStorage.Page.Length | background.js:43 | `localStorage.length` is the bound below which `key(i)` returns a key |
| PageStorage.Page.Key | background.js:44 | `key(i)` is null exactly past the end; a key it returns is stored and `getItem` of it gives the value at position i |
| PageStorage.Page.GetItem | background.js:46 | `getItem` is null exactly when the key is absent; a value it returns is stored under that key |
| PageStorage.Page.SetItem | background.js:119 | the page storage becomes `Set` of the old storage; the location is unchanged |
| PageStorage.Page.RemoveItem | background.js:116 | the page storage becomes `Remove` of the old storage; the location is unchanged |
| Strings.TrimStart | popup.js:278 | drops exactly the leading run of white space: what is dropped is all white space and what is left starts with a non-space or is empty |
| Strings.TrimEnd | popup.js:187 | drops exactly the trailing run of white space |
| Strings.Trim | popup.js:187 | `trim()` is a slice of its input with only white space outside it; it is empty exactly when every character is white space, and otherwise starts and ends with a non-space character |
| Strings.TrimIsCut | popup.js:187 | trimming the front and then the end cuts out the slice between the leading and the trailing white space |
| Strings.Contains | background.js:45 | `includes` holds exactly when the text occurs at some position |
| Strings.StartsWith | background.js:45 | `startsWith` holds exactly when the text is the prefix followed by something |
| Strings.IsSpace | popup.js:278 | the white space of `\s` in the `split` and of `trim()` (popup.js:187): space, tab, line feed and carriage return are in it, and everything in it is space, a control character from tab to carriage return, or at or above U+00A0 |
| Strings.TrimStartAllSpace | popup.js:187 | trimming the front leaves nothing exactly when every character is white space |
| Capture.Captured | background.js:42-48 | the captured map holds exactly the page keys that start with `sb-` or contain `supabase`, each with its page value, and nothing else |
| Capture.IsSessionKey | background.js:45 | a key is a session key exactly when it starts with `sb-` or `supabase` occurs in it at some position |
| Capture.CapturedKeepsPageOrder | background.js:42-48 | the captured map lists the session entries in page order |
| Capture.PickUserInfo | background.js:50-62 | a picked user info is that of some captured entry |
| Capture.UserOf | background.js:53-54 | an entry yields a user exactly when its value parses and the parsed object has a `user`, and then it yields that `user` |
| Capture.UserInfoIsFirstOnPage | background.js:42-62 | the user info comes from the first page entry, in page order, that has a session key and parses with a `user` |
| Capture.UserInfoNoneOnPage | background.js:42-62 | the user info is null exactly when no session entry of the page parses with a `user` |
| Capture.PickUserInfoIsFirst | background.js:50-62 | the user info is that of the first captured entry, in insertion order, whose value parses and carries a `user` |
| Capture.PickUserInfoNone | background.js:50-62 | the user info is null exactly when no captured entry parses with a `user` |
| Capture.ReadTokens | background.js:38-67 | the in-page script returns `Captured` of the page storage and `PickUserInfo` of that map |
| Capture.CollectTokens | background.js:42-48 | the collecting loop builds exactly `Captured` of the page storage |
| Capture.FindUserInfo | background.js:50-62 | the search loop, with its `break`, returns `PickUserInfo` of the token map |
| Injection.RemoveAll | background.js:116 | after removing a list of keys, those keys are absent and every other key keeps its value |
| Injection.SetAll | background.js:118-120 | after writing a token map, each of its keys holds the map's value and every other key keeps its value |
| Injection.Injected | background.js:107-122 | after injection every key of the session's tokens holds the saved value, every other `sb-`/`supabase` key is gone, and every other page key keeps its value |
| Injection.Inject | background.js:107-122 | the injection script leaves the page storage equal to `Injected` of the old storage and the tokens, and sets the location to the dashboard |
| Injection.SessionKeys | background.js:109-115 | the collecting loop returns the page's session keys in storage order, before any is removed |
| Injection.RemoveItems | background.js:116 | the removal loop leaves `RemoveAll` of the old storage and does not navigate |
| Injection.SetItems | background.js:118-120 | the writing loop leaves `SetAll` of the old storage and does not navigate |
| Sessions.Decimal | background.js:79 | the timestamp is printed as a non-empty run of decimal digits with no leading zero unless it is `0` |
| Sessions.DecimalRoundTrip | background.js:79 | reading back the printed timestamp gives the timestamp |
| Sessions.DecimalCanonical | background.js:79 | the printed timestamp is the only digit string without a leading zero that reads back as the timestamp |
| Sessions.CanonicalValue | background.js:79 | digits without a leading zero are worth at least ten when there are two or more, and zero only as `0` |
| Sessions.SessionId | background.js:79 | the id is `session_` followed by digits without a leading zero that read back as the save time |
| Sessions.KnownEmail | background.js:82-83 | `userInfo?.email` is used exactly when the user info is present with a non-empty email, and it is that email |
| Sessions.SessionIdInjective | background.js:79 | records saved at different milliseconds get different `session_` ids |
| Sessions.NewSession | background.js:79-87 | the new record has the `session_` id, the captured tokens and the save time; its name is the typed name, else the known email, else `Conta sem nome`; its email is `''` when none is known; its colour is the given one or a palette colour |
| Sessions.FindById | background.js:98 | `find` returns nothing exactly when no record has the id, and otherwise the first record with it |
| Sessions.DeleteById | background.js:140 | `filter` keeps exactly the records whose id differs and never lengthens the list |
| Sessions.DeleteAbsentIsNoop | background.js:140 | deleting an id that no record has leaves the list unchanged |
| Sessions.DeleteDistributes | background.js:140 | deletion works record by record, so the kept records stay in their order |
| Sessions.RenameById | background.js:148 | `map` keeps the length, changes only the `name` field, and only of the records with the id |
| Sessions.RenameAbsentIsNoop | background.js:148 | renaming an id that no record has leaves the list unchanged |
| Sessions.FindAfterRename | background.js:146-151 | after a rename, looking the id up finds the same record with only its name changed |
| ExtensionStore.LocalStore.constructor | background.js:133 | an empty store has no records and no active pointer |
| Background.ActiveSupabaseTab | background.js:28-35 | the tab guard succeeds exactly when the first tab has a URL that contains `supabase.com`, and then yields that tab |
| Background.HandleSave | background.js:70-92 | a bad tab or an empty capture fails with its message and leaves the list unchanged; otherwise the list becomes the old list followed by exactly `NewSession` of the capture; the active pointer never changes |
| Background.HandleSwitch | background.js:95-129 | a bad tab or an unknown id fails with its message and changes neither the store nor the page; otherwise the page is `Injected` with the first matching record's tokens, navigates to the dashboard, and the active pointer is that id; the list never changes |
| Background.HandleGetSessions | background.js:132-135 | returns the stored list and active pointer |
| Background.HandleDelete | background.js:138-143 | the stored list becomes `DeleteById` of the old one; the active pointer is kept even when it names the deleted record |
| Background.HandleRename | background.js:146-151 | the stored list becomes `RenameById` of the old one; the active pointer is kept |
| Import.Admitted | popup.js:364-369 | the admitted entries are never more than the file's, and each has a non-empty id not among the stored ids |
| Import.Ids | popup.js:360 | an id is among the stored ids exactly when a lookup by that id finds a stored record |
| Import.Admissible | popup.js:365 | only a record is admitted, and only with tokens, a non-empty id and an id not yet stored |
| Import.AdmittedDistributes | popup.js:364-369 | each file entry is judged on its own, in file order |
| Import.AdmittedKeepsEvery | popup.js:365-366 | every entry with an id, tokens and a new id is appended |
| Import.AdmittedOfOne | popup.js:365-366 | one file entry is appended exactly when it has an id, tokens and an id not yet stored |
| Import.AdmittedComesFromFile | popup.js:365-366 | every appended record is the record of a file entry that has an id, tokens and a new id |
| Import.RepeatedIdInFileIsKeptTwice | popup.js:360-365 | two file entries with the same new id are both appended, because ids are checked against the stored list only |
| Import.MergeImport | popup.js:356-369 | the merge fails exactly when the file holds a `null`; otherwise it yields the stored list followed by `Admitted`, and the count is the number appended |
| Import.ImportSessions | popup.js:351-384 | an unparsable file, a non-array or a `null` element ends in the error status with nothing written; otherwise the store is written, with the merged list, only when at least one entry was added, and the status reports the count |
| Display.EscapeChar | popup.js:285 | every character other than `&`, `<` and `>` stands for itself |
| Display.ReplaceAll | popup.js:285 | `replace(/c/g, r)` leaves a text without `c` unchanged, and leaves no `c` when `r` has none |
| Display.Escape | popup.js:284-286 | `escHtml` equals escaping each character on its own |
| Display.EscapeIsPerCharacter | popup.js:285 | the three chained replacements equal escaping each character on its own, because `&` is replaced first |
| Display.EscapeRoundTrip | popup.js:284-286 | decoding `&amp;`, `&lt;` and `&gt;` in the output of `escHtml` gives back the input |
| Display.EscapeHasNoAngles | popup.js:284-286 | the output of `escHtml` holds no `<` and no `>` |
| Display.EmailLine | popup.js:80 | the email line is shown exactly when the record has an email, decodes back to it and holds no angle bracket |
| Display.TakeWord | popup.js:278 | a word is the longest prefix without white space |
| Display.SplitWords | popup.js:278 | `split(/\s+/)` always yields at least one word |
| Display.SplitWordsHaveNoSpace | popup.js:278 | no word of the split holds white space |
| Display.Initials | popup.js:276-282 | the initials are at most two characters |
| Display.InitialsOfOneWord | popup.js:276-282 | a name of one word, with only white space after it, gives the upper-cased first letter of that word |
| Display.InitialsAllSpace | popup.js:276-282 | a name of white space only gives no initials |
| Display.Upper | popup.js:280 | upper-casing changes exactly the ASCII lower-case letters, each to the letter 32 code points below, and never yields a lower-case letter |
| Display.Initial | popup.js:280 | a word gives at most one letter, none exactly when the word is empty, and that letter is the first one upper-cased |
| Display.FirstTwoWords | popup.js:278-279 | two words separated by white space at the start of a name are the first two words of its split |
| Display.InitialsOfTwoWords | popup.js:276-282 | a name starting with two words gives the upper-cased first letter of each, whatever follows |
| Display.InitialsAfterLeadingSpace | popup.js:276-282 | leading white space makes an empty first word, which gives no letter but still takes one of the two places |
| Display.BadgeOf | popup.js:66-82 | a row has the expired badge exactly when the record is expired, and the active badge exactly when it is not expired and is the active one |
| Display.AvatarColor | popup.js:77 | an expired record's avatar is grey, any other has the record's colour |
| Display.OnRowClick | popup.js:93-101 | a click switches exactly when it is not on the delete button and the record is not expired, and then to that record's id; an expired record only shows a message |
| Popup.FirstEmailIsFirst | popup.js:146-155 | the pre-fill email is that of the first `sb-` entry whose value parses with a truthy `user.email`, and there is none exactly when no entry qualifies |
| Popup.FirstEmail | popup.js:146-155 | a pre-fill email is never empty and is that of some `sb-` entry whose value carries an email |
| Popup.EmailIn | popup.js:150-151 | a value gives an email exactly when the user info read from it has a non-empty email, the same email a save would record |
| Popup.HasEmail | popup.js:148-151 | an entry is accepted exactly when its key starts with `sb-` and its value gives an email; every accepted key is a session key |
| Popup.ScanEmail | popup.js:146-155 | the scan loop with its early return yields `FirstEmail` of the page storage |
| Popup.SaveRequest | popup.js:186-199 | no message is sent exactly when the input is all white space; otherwise the message carries the trimmed, non-empty name and the selected colour |
| Popup.SavedNameIsTyped | background.js:82 | a save sent from the popup is always named with the trimmed input, so the email and default-name fallbacks do not apply to it |
| Popup.PopupState.constructor | popup.js:8-11 | the popup starts with no records, no active pointer, the first palette colour and no pending delete |
| Popup.PopupState.LoadSessions | popup.js:47-53 | an error answer changes nothing; otherwise the list is taken and an empty active id becomes null |
| Popup.PopupState.FinishSwitch | popup.js:114-126 | the popup marks the id active only when the switch answered without error |
| Popup.PopupState.OpenSaveModal | popup.js:131-179 | the dialog opens exactly when the tab guard passes; it then pre-fills `FirstEmail` and picks the palette colour, and otherwise changes nothing |
| Popup.PopupState.ConfirmSave | popup.js:186-199 | the save message is sent exactly when the trimmed name is non-empty, with that name and the selected colour |
| Popup.PopupState.OpenDeleteModal | popup.js:215-219 | the pending delete becomes the id; nothing else changes |
| Popup.PopupState.CloseDeleteModal | popup.js:221-224 | the pending delete is cleared; nothing else changes |
| Popup.PopupState.ConfirmDelete | popup.js:226-234 | a delete message is sent only when an id is pending, and sending it clears the pending id |

## Left out

- Chrome APIs are state, not calls: `chrome.storage.local` is `LocalStore` and the tab's page is `Page`. The async messaging and the listener dispatch (background.js:4-25, popup.js:264-274) are not modelled. Each handler is a method, and an error answer is a `Failure`.
- Capture.ReadTokens: a failing `executeScript` and the fallback to an empty result (background.js:66) are not modelled. The script is taken to run.
- The `localStorage` of the page is taken as given, in its `key(i)` order. The model assumes that `setItem` appends a new key; the Web Storage standard leaves the order of `key(n)` to the user agent.
- Import.MergeImport: imported entries are taken to be complete records, with string fields (`name`, `email`, `color`, `savedAt`), a boolean `expired` and string token values. The code pushes each element as it is, so a record without a `name` is stored and then breaks rendering at `getInitials` (popup.js:74, 277), and a token value that is not a string is coerced by `setItem` on a switch (background.js:119).
- `JSON.parse` is a parameter (`Json.Parser`). JSON values whose `email` or `id` is not a string are not modelled. Imported records are taken to have string ids, and a falsy id is written as the empty string.
- `Date.now()`, `new Date().toISOString()` and `Math.random` (background.js:79, 86, 153-159; popup.js:167) are parameters. `getRandomColor` is the palette with an index.
- Sessions.Decimal: prints every timestamp in plain digits. JavaScript switches to exponent notation at 10^21 milliseconds, which no clock reaches.
- Display.Initials: upper-cases ASCII letters only. `toUpperCase` on other scripts, on characters whose upper case is longer, and on UTF-16 surrogate halves is not modelled.
- Popup.PopupState.OpenSaveModal: `pendingUserInfo` is returned as the email rather than kept as a module variable. A failing scan, which leaves the previous value in place, is not modelled.
- The DOM is not modelled: row markup, titles, class names, the empty-list state, modals shown and hidden, the colour picker, the status bar and timers (popup.js:13-44, 56-110 markup, 181-184, 236-261). Only the badge, avatar colour, email line and click rules of a row are modelled.
- Export (popup.js:323-344), `FileReader` and resetting the file input (popup.js:347-350, 385-387) are not modelled.
- The `FORCE_REFRESH` messages (popup.js:289-320, 378) are not modelled: nothing in background.js answers them. There is no token refresh, merge or expiry logic in the code to model.
- Navigation to the dashboard is the page's `location` field. The reload that follows it is not modelled.
- generate-icons.js, resize_image.py and content.js are not part of this model: they draw icons, scale images and log a line.
