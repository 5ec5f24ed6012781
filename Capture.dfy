/** Reading the Supabase session out of the page (`readTokensFromTab` in
    background.js): which storage keys are captured, and which entry supplies
    the user info. */
module Capture {
  import opened Wrappers
  import opened KeyValue
  import opened Json
  import opened Strings
  import opened PageStorage

  /** A storage key that belongs to Supabase: it starts with `sb-` or
      contains `supabase` (both case-sensitive). */
  predicate IsSessionKey(k: string): (b: bool)
    ensures b <==> (|k| >= 3 && k[..3] == "sb-") || exists i :: OccursAt(k, "supabase", i)
  {
    StartsWith(k, "sb-") || Contains(k, "supabase")
  }

  /** The session entries of a store, in store order. */
  function Captured(items: Entries): (r: Entries)
    ensures KeySet(r) == set k | k in KeySet(items) && IsSessionKey(k)
    ensures forall k :: Get(r, k) == if IsSessionKey(k) then Get(items, k) else None
    decreases |items|
  {
    if items == [] then []
    else
      var init, last := items[..|items| - 1], items[|items| - 1];
      assert items == init + [last];
      KeySetSnoc(init, last);
      var r0 := Captured(init);
      if IsSessionKey(last.0) then
        KeySetSnoc(r0, last);
        forall k ensures Get(r0 + [last], k) == if IsSessionKey(k) then Get(items, k) else None {
          GetSnoc(r0, last, k);
          GetSnoc(init, last, k);
        }
        r0 + [last]
      else
        forall k ensures Get(r0, k) == if IsSessionKey(k) then Get(items, k) else None {
          GetSnoc(init, last, k);
        }
        r0
  }

  /** The session entries of a sequence of entries, front to back: the
      reference for the order of `Captured`. */
  function SessionEntries(items: seq<Item>): seq<Item> {
    if items == [] then []
    else (if IsSessionKey(items[0].0) then [items[0]] else []) + SessionEntries(items[1..])
  }

  lemma {:induction false} SessionEntriesAppend(a: seq<Item>, b: seq<Item>)
    ensures SessionEntries(a + b) == SessionEntries(a) + SessionEntries(b)
  {
    if a == [] {
      assert a + b == b;
    } else {
      var head := if IsSessionKey(a[0].0) then [a[0]] else [];
      assert (a + b)[0] == a[0];
      assert (a + b)[1..] == a[1..] + b;
      assert SessionEntries(a + b) == head + SessionEntries(a[1..] + b);
      SessionEntriesAppend(a[1..], b);
      assert head + (SessionEntries(a[1..]) + SessionEntries(b))
          == (head + SessionEntries(a[1..])) + SessionEntries(b);
    }
  }

  /** The captured map keeps the page's session entries in page order. */
  lemma {:induction false} CapturedKeepsPageOrder(items: Entries)
    ensures Captured(items) == SessionEntries(items)
    decreases |items|
  {
    if items != [] {
      var init, last := items[..|items| - 1], items[|items| - 1];
      assert items == init + [last];
      KeySetSnoc(init, last);
      CapturedKeepsPageOrder(init);
      SessionEntriesAppend(init, [last]);
      assert [last][1..] == [];
    }
  }

  /** The user info an entry's value yields: its parsed `user` object, when
      the value parses and carries one. */
  function UserOf(parse: Parser, value: string): (r: Option<User>)
    ensures r.Some? <==> parse(value).Some? && parse(value).value.user.Some?
    ensures r.Some? ==> r == parse(value).value.user
  {
    match parse(value)
    case Some(Parsed(Some(u))) => Some(u)
    case _ => None
  }

  /** The user info of the first entry, in order, that yields one. */
  function PickUserInfo(tokens: seq<Item>, parse: Parser): (r: Option<User>)
    ensures r.Some? ==> exists i :: 0 <= i < |tokens| && UserOf(parse, tokens[i].1) == r
  {
    if tokens == [] then None
    else if UserOf(parse, tokens[0].1).Some? then UserOf(parse, tokens[0].1)
    else
      var r := PickUserInfo(tokens[1..], parse);
      if r.Some? then
        var i :| 0 <= i < |tokens[1..]| && UserOf(parse, tokens[1..][i].1) == r;
        assert tokens[1..][i] == tokens[i + 1];
        r
      else r
  }

  /** The picked user info is that of the first entry that yields one. */
  lemma {:induction false} PickUserInfoIsFirst(tokens: seq<Item>, parse: Parser, i: nat)
    requires i < |tokens| && UserOf(parse, tokens[i].1).Some?
    requires forall j :: 0 <= j < i ==> UserOf(parse, tokens[j].1).None?
    ensures PickUserInfo(tokens, parse) == UserOf(parse, tokens[i].1)
  {
    if i > 0 {
      assert UserOf(parse, tokens[0].1).None?;
      PickUserInfoIsFirst(tokens[1..], parse, i - 1);
    }
  }

  /** The user info is null exactly when no entry yields one. */
  lemma {:induction false} PickUserInfoNone(tokens: seq<Item>, parse: Parser)
    ensures PickUserInfo(tokens, parse).None? <==>
            forall i :: 0 <= i < |tokens| ==> UserOf(parse, tokens[i].1).None?
  {
    if tokens != [] {
      PickUserInfoNone(tokens[1..], parse);
      if UserOf(parse, tokens[0].1).None? {
        forall i | 0 <= i < |tokens| && UserOf(parse, tokens[i].1).Some?
          ensures exists j :: 0 <= j < |tokens[1..]| && UserOf(parse, tokens[1..][j].1).Some?
        {
          assert tokens[1..][i - 1] == tokens[i];
        }
      }
    }
  }

  /** The user info comes from the first page entry, in page order, whose
      key is a session key and whose value yields a user. */
  lemma UserInfoIsFirstOnPage(items: Entries, parse: Parser, i: nat)
    requires i < |items| && IsSessionKey(items[i].0) && UserOf(parse, items[i].1).Some?
    requires forall j :: 0 <= j < i ==> !IsSessionKey(items[j].0) || UserOf(parse, items[j].1).None?
    ensures PickUserInfo(Captured(items), parse) == UserOf(parse, items[i].1)
  {
    CapturedKeepsPageOrder(items);
    PickFromSessionEntries(items, parse, i);
  }

  /** The user info is null exactly when no session entry of the page yields a user. */
  lemma UserInfoNoneOnPage(items: Entries, parse: Parser)
    ensures PickUserInfo(Captured(items), parse).None? <==>
            forall i :: 0 <= i < |items| && IsSessionKey(items[i].0) ==> UserOf(parse, items[i].1).None?
  {
    CapturedKeepsPageOrder(items);
    PickNoneFromSessionEntries(items, parse);
  }

  lemma {:induction false} PickFromSessionEntries(items: seq<Item>, parse: Parser, i: nat)
    requires i < |items| && IsSessionKey(items[i].0) && UserOf(parse, items[i].1).Some?
    requires forall j :: 0 <= j < i ==> !IsSessionKey(items[j].0) || UserOf(parse, items[j].1).None?
    ensures PickUserInfo(SessionEntries(items), parse) == UserOf(parse, items[i].1)
  {
    var rest := SessionEntries(items[1..]);
    if i == 0 {
      assert SessionEntries(items) == [items[0]] + rest;
    } else {
      assert items[1..][i - 1] == items[i];
      forall j | 0 <= j < i - 1
        ensures !IsSessionKey(items[1..][j].0) || UserOf(parse, items[1..][j].1).None?
      {
        assert items[1..][j] == items[j + 1];
      }
      PickFromSessionEntries(items[1..], parse, i - 1);
      if IsSessionKey(items[0].0) {
        assert SessionEntries(items) == [items[0]] + rest;
        assert ([items[0]] + rest)[1..] == rest;
      } else {
        assert SessionEntries(items) == rest;
      }
    }
  }

  lemma {:induction false} PickNoneFromSessionEntries(items: seq<Item>, parse: Parser)
    ensures PickUserInfo(SessionEntries(items), parse).None? <==>
            forall i :: 0 <= i < |items| && IsSessionKey(items[i].0) ==> UserOf(parse, items[i].1).None?
  {
    if items != [] {
      var rest := SessionEntries(items[1..]);
      PickNoneFromSessionEntries(items[1..], parse);
      forall i | 0 < i < |items| ensures items[i] == items[1..][i - 1] { }
      if IsSessionKey(items[0].0) {
        assert SessionEntries(items) == [items[0]] + rest;
        assert ([items[0]] + rest)[1..] == rest;
      } else {
        assert SessionEntries(items) == rest;
      }
    }
  }

  /** The script run in the page: collect the session entries into a fresh
      object, then take the user info from the first of them that parses and
      carries a `user`. */
  method ReadTokens(page: Page, parse: Parser) returns (tokens: Entries, userInfo: Option<User>)
    ensures tokens == Captured(page.items)
    ensures userInfo == PickUserInfo(tokens, parse)
  {
    tokens := CollectTokens(page);
    userInfo := FindUserInfo(tokens, parse);
  }

  /** The first loop of the script: every session key with its value. */
  method CollectTokens(page: Page) returns (tokens: Entries)
    ensures tokens == Captured(page.items)
  {
    tokens := [];
    var i := 0;
    while i < page.Length()
      invariant 0 <= i <= |page.items|
      invariant tokens == Captured(page.items[..i])
    {
      var key := page.Key(i);
      assert page.items[..i + 1] == page.items[..i] + [page.items[i]];
      if key.Some? && key.value != "" && IsSessionKey(key.value) {
        GetAt(page.items, i);
        var value := page.GetItem(key.value);
        KeySetSnoc(page.items[..i], page.items[i]);
        tokens := Set(tokens, key.value, value.value);
      }
      i := i + 1;
    }
    assert page.items[..i] == page.items;
  }

  /** The second loop of the script: stop at the first value that parses
      and carries a `user`. */
  method FindUserInfo(tokens: Entries, parse: Parser) returns (userInfo: Option<User>)
    ensures userInfo == PickUserInfo(tokens, parse)
  {
    userInfo := None;
    var keys := Keys(tokens);
    var j := 0;
    while j < |keys|
      invariant 0 <= j <= |keys|
      invariant PickUserInfo(tokens[j..], parse) == PickUserInfo(tokens, parse)
      invariant userInfo == None
    {
      GetAt(tokens, j);
      var raw := Get(tokens, keys[j]);
      var parsed := parse(raw.value);
      if parsed.Some? && parsed.value.user.Some? {
        userInfo := Some(User(parsed.value.user.value.email, parsed.value.user.value.id));
        break;
      }
      assert tokens[j + 1..] == tokens[j..][1..];
      j := j + 1;
    }
  }
}
