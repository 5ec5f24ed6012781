/** The popup's module state and its handlers (popup.js): loading the list,
    the save modal, the delete modal and the end of a switch. */
module Popup {
  import opened Wrappers
  import opened KeyValue
  import opened Json
  import opened Strings
  import opened PageStorage
  import opened Sessions
  import opened Capture
  import opened Background

  /** The email an entry's value carries: `parsed?.user?.email`, when the
      value parses and the email is truthy. */
  function EmailIn(parse: Parser, value: string): (r: Option<string>)
    ensures r.Some? <==> KnownEmail(UserOf(parse, value)) != ""
    ensures r.Some? ==> r.value == KnownEmail(UserOf(parse, value))
  {
    match parse(value)
    case Some(Parsed(Some(u))) => if Truthy(u.email) then u.email else None
    case _ => None
  }

  /** An entry the pre-fill scan accepts: an `sb-` key whose value carries an
      email. Keys that only contain `supabase` are not looked at. */
  predicate HasEmail(parse: Parser, item: Item): (b: bool)
    ensures b ==> IsSessionKey(item.0)
    ensures b <==> StartsWith(item.0, "sb-") && KnownEmail(UserOf(parse, item.1)) != ""
  {
    StartsWith(item.0, "sb-") && EmailIn(parse, item.1).Some?
  }

  /** The email of the first accepted entry, in storage order. */
  function FirstEmail(items: seq<Item>, parse: Parser): (r: Option<string>)
    ensures r.Some? ==> r.value != ""
    ensures r.Some? ==> exists i :: 0 <= i < |items| && HasEmail(parse, items[i]) && r == EmailIn(parse, items[i].1)
  {
    if items == [] then None
    else if HasEmail(parse, items[0]) then EmailIn(parse, items[0].1)
    else
      var r := FirstEmail(items[1..], parse);
      if r.Some? then
        var i :| 0 <= i < |items[1..]| && HasEmail(parse, items[1..][i]) && r == EmailIn(parse, items[1..][i].1);
        assert items[1..][i] == items[i + 1];
        r
      else r
  }

  /** The pre-fill email is that of the first accepted entry, and there is
      none exactly when no entry is accepted. */
  lemma FirstEmailIsFirst(items: seq<Item>, parse: Parser)
    ensures FirstEmail(items, parse).None? <==> forall i :: 0 <= i < |items| ==> !HasEmail(parse, items[i])
    ensures FirstEmail(items, parse).Some? ==>
              exists i :: 0 <= i < |items| && HasEmail(parse, items[i])
                          && FirstEmail(items, parse) == EmailIn(parse, items[i].1)
                          && forall j :: 0 <= j < i ==> !HasEmail(parse, items[j])
  {
    FirstEmailNone(items, parse);
    FirstEmailFirst(items, parse);
  }

  lemma {:induction false} FirstEmailNone(items: seq<Item>, parse: Parser)
    ensures FirstEmail(items, parse).None? ==> forall i :: 0 <= i < |items| ==> !HasEmail(parse, items[i])
  {
    if items != [] && !HasEmail(parse, items[0]) {
      FirstEmailNone(items[1..], parse);
      forall i | 0 < i < |items| ensures items[i] == items[1..][i - 1] { }
    }
  }

  lemma {:induction false} FirstEmailFirst(items: seq<Item>, parse: Parser)
    ensures FirstEmail(items, parse).Some? ==>
              exists i :: 0 <= i < |items| && HasEmail(parse, items[i])
                          && FirstEmail(items, parse) == EmailIn(parse, items[i].1)
                          && forall j :: 0 <= j < i ==> !HasEmail(parse, items[j])
  {
    if items != [] {
      if HasEmail(parse, items[0]) {
        assert FirstEmail(items, parse) == EmailIn(parse, items[0].1);
      } else if FirstEmail(items, parse).Some? {
        FirstEmailFirst(items[1..], parse);
        assert FirstEmail(items, parse) == FirstEmail(items[1..], parse);
        var i :| 0 <= i < |items[1..]| && HasEmail(parse, items[1..][i])
                 && FirstEmail(items, parse) == EmailIn(parse, items[1..][i].1)
                 && forall j :: 0 <= j < i ==> !HasEmail(parse, items[1..][j]);
        forall j | 0 <= j < i + 1 ensures !HasEmail(parse, items[j]) {
          if j > 0 {
            assert items[j] == items[1..][j - 1];
          }
        }
        assert items[i + 1] == items[1..][i];
      }
    }
  }

  /** The script the save modal runs in the page: scan the storage in order
      and return at the first accepted entry. */
  method ScanEmail(page: Page, parse: Parser) returns (r: Option<string>)
    ensures r == FirstEmail(page.items, parse)
  {
    var i := 0;
    while i < page.Length()
      invariant 0 <= i <= |page.items|
      invariant FirstEmail(page.items[i..], parse) == FirstEmail(page.items, parse)
    {
      var key := page.Key(i);
      assert page.items[i + 1..] == page.items[i..][1..];
      if key.Some? && StartsWith(key.value, "sb-") {
        GetAt(page.items, i);
        var raw := page.GetItem(key.value);
        var email := EmailIn(parse, raw.value);
        if email.Some? {
          return email;
        }
      }
      i := i + 1;
    }
    return None;
  }

  /** `confirmSave`: the message sent for the typed name, or None when the
      name is empty after trimming. */
  function SaveRequest(input: string, color: string): (r: Option<SaveData>)
    ensures r.None? <==> forall i :: 0 <= i < |input| ==> IsSpace(input[i])
    ensures r.Some? ==> r.value.name == Trim(input) && r.value.name != "" && r.value.color == color
  {
    var name := Trim(input);
    if name == "" then None else Some(SaveData(name, color))
  }

  /** A save started from the popup always carries a name, so the record is
      named as typed and never falls back to the email or the default. */
  lemma SavedNameIsTyped(input: string, color: string, tokens: Entries, userInfo: Option<User>,
                         now: nat, colorIndex: nat, savedAt: string)
    requires colorIndex < |Palette|
    requires SaveRequest(input, color).Some?
    ensures NewSession(SaveRequest(input, color).value, tokens, userInfo, now, colorIndex, savedAt).name
            == Trim(input)
  {
  }

  /** The popup's module-level variables. */
  class PopupState {
    var sessions: seq<Session>
    var activeSessionId: Option<string>
    var selectedColor: string
    var deletingId: Option<string>

    constructor ()
      ensures sessions == [] && activeSessionId == None
      ensures selectedColor == Palette[0] && deletingId == None
    {
      sessions := [];
      activeSessionId := None;
      selectedColor := Palette[0];
      deletingId := None;
    }

    /** `loadSessions`: take the list and the active pointer from a
      `GET_SESSIONS` answer; an error answer changes nothing. */
    method LoadSessions(res: Result<(seq<Session>, Option<string>), string>)
      modifies this
      ensures res.Failure? ==> unchanged(this)
      ensures res.Success? ==> && sessions == res.value.0
                               && activeSessionId == (if Truthy(res.value.1) then res.value.1 else None)
                               && selectedColor == old(selectedColor) && deletingId == old(deletingId)
    {
      if res.Failure? {
        return;
      }
      sessions := res.value.0;
      activeSessionId := if Truthy(res.value.1) then res.value.1 else None;
    }

    /** `switchSession` once the `SWITCH_SESSION` answer is in: the popup
      marks the id active only when the switch succeeded. */
    method FinishSwitch(id: string, res: Result<(), string>)
      modifies this
      ensures res.Failure? ==> unchanged(this)
      ensures res.Success? ==> && activeSessionId == Some(id)
                               && sessions == old(sessions) && selectedColor == old(selectedColor)
                               && deletingId == old(deletingId)
    {
      if res.Failure? {
        return;
      }
      activeSessionId := Some(id);
    }

    /** `openSaveModal`: refuse unless the active tab is a Supabase page;
      otherwise read the pre-fill email and pick a random colour. */
    method OpenSaveModal(tabs: seq<Tab>, page: Page, parse: Parser, colorIndex: nat)
      returns (shown: bool, email: Option<string>)
      requires colorIndex < |Palette|
      modifies this
      ensures shown <==> ActiveSupabaseTab(tabs).Success?
      ensures !shown ==> email.None? && unchanged(this)
      ensures shown ==> && email == FirstEmail(page.items, parse)
                         && selectedColor == Palette[colorIndex]
                         && sessions == old(sessions) && activeSessionId == old(activeSessionId)
                         && deletingId == old(deletingId)
    {
      if ActiveSupabaseTab(tabs).Failure? {
        return false, None;
      }
      email := ScanEmail(page, parse);
      selectedColor := Palette[colorIndex];
      shown := true;
    }

    /** `confirmSave`: the `SAVE_SESSION` message for the typed name and the
      selected colour, or None when the trimmed name is empty. */
    method ConfirmSave(input: string) returns (msg: Option<SaveData>)
      ensures msg.None? <==> forall i :: 0 <= i < |input| ==> IsSpace(input[i])
      ensures msg.Some? ==> msg.value.name == Trim(input) && msg.value.color == selectedColor
    {
      msg := SaveRequest(input, selectedColor);
    }

    /** `openDeleteModal`. */
    method OpenDeleteModal(id: string)
      modifies this
      ensures deletingId == Some(id)
      ensures sessions == old(sessions) && activeSessionId == old(activeSessionId)
      ensures selectedColor == old(selectedColor)
    {
      deletingId := Some(id);
    }

    /** `closeDeleteModal`. */
    method CloseDeleteModal()
      modifies this
      ensures deletingId == None
      ensures sessions == old(sessions) && activeSessionId == old(activeSessionId)
      ensures selectedColor == old(selectedColor)
    {
      deletingId := None;
    }

    /** `confirmDelete`: the id of the `DELETE_SESSION` message, sent only
      when an id is pending; sending closes the modal. */
    method ConfirmDelete() returns (msg: Option<string>)
      modifies this
      ensures msg == (if Truthy(old(deletingId)) then old(deletingId) else None)
      ensures deletingId == (if msg.Some? then None else old(deletingId))
      ensures sessions == old(sessions) && activeSessionId == old(activeSessionId)
      ensures selectedColor == old(selectedColor)
    {
      if !Truthy(deletingId) {
        return None;
      }
      msg := deletingId;
      CloseDeleteModal();
    }
  }
}
