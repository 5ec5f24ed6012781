/** Writing a saved session back into the page (the script that
    `handleSwitchSession` in background.js runs in the tab): collect the
    Supabase keys, remove them, write the session's tokens, go to the
    dashboard. */
module Injection {
  import opened Wrappers
  import opened KeyValue
  import opened Capture
  import opened PageStorage

  /** `removeItem` for each key of `ks`, in order. */
  function RemoveAll(items: Entries, ks: seq<string>): (r: Entries)
    ensures forall k :: Get(r, k) == if k in ks then None else Get(items, k)
    decreases |ks|
  {
    if ks == [] then items
    else
      var init := ks[..|ks| - 1];
      assert ks == init + [ks[|ks| - 1]];
      Remove(RemoveAll(items, init), ks[|ks| - 1])
  }

  /** `setItem` for each entry of `pairs`, in order. */
  function SetAll(items: Entries, pairs: Entries): (r: Entries)
    ensures forall k :: Get(r, k) == if k in KeySet(pairs) then Get(pairs, k) else Get(items, k)
    decreases |pairs|
  {
    if pairs == [] then items
    else
      var init, last := pairs[..|pairs| - 1], pairs[|pairs| - 1];
      assert pairs == init + [last];
      KeySetSnoc(init, last);
      var r0 := SetAll(items, init);
      var r := Set(r0, last.0, last.1);
      forall k ensures Get(r, k) == if k in KeySet(pairs) then Get(pairs, k) else Get(items, k) {
        GetSnoc(init, last, k);
      }
      r
  }

  /** A sequence of keys holds the same keys as the store they were read from. */
  lemma KeysAreKeySet(s: seq<Item>, k: string)
    ensures k in Keys(s) <==> k in KeySet(s)
  {
    if k in KeySet(s) {
      var i :| 0 <= i < |s| && s[i].0 == k;
      assert Keys(s)[i] == k;
    }
  }

  /** The page storage after injecting `tokens` into `items`. Every key of
      the session's tokens holds the session's value; every other Supabase
      key is gone, whether or not it existed before; every other key keeps
      its value. */
  function Injected(items: Entries, tokens: Entries): (r: Entries)
    ensures forall k ::
              Get(r, k) == if k in KeySet(tokens) then Get(tokens, k)
                           else if IsSessionKey(k) then None
                           else Get(items, k)
  {
    var removed := Keys(Captured(items));
    forall k ensures k in removed <==> k in KeySet(items) && IsSessionKey(k) {
      KeysAreKeySet(Captured(items), k);
    }
    SetAll(RemoveAll(items, removed), tokens)
  }

  /** The injection script. The keys to remove are collected before any is
      removed, so removing cannot shift an unvisited key past the loop. */
  method Inject(page: Page, tokens: Entries)
    modifies page
    ensures page.items == Injected(old(page.items), tokens)
    ensures page.location == Dashboard
  {
    var keysToRemove := SessionKeys(page);
    RemoveItems(page, keysToRemove);
    SetItems(page, tokens);
    page.location := Dashboard;
  }

  /** The first loop of the script: the Supabase keys of the page, in order. */
  method SessionKeys(page: Page) returns (ks: seq<string>)
    ensures ks == Keys(Captured(page.items))
  {
    ks := [];
    var i := 0;
    while i < page.Length()
      invariant 0 <= i <= |page.items|
      invariant ks == Keys(Captured(page.items[..i]))
    {
      var key := page.Key(i);
      assert page.items[..i + 1][..i] == page.items[..i];
      if key.Some? && key.value != "" && IsSessionKey(key.value) {
        ks := ks + [key.value];
      }
      i := i + 1;
    }
    assert page.items[..i] == page.items;
  }

  /** The second loop: `removeItem` for each collected key. */
  method RemoveItems(page: Page, ks: seq<string>)
    modifies page
    ensures page.items == RemoveAll(old(page.items), ks)
    ensures page.location == old(page.location)
  {
    var j := 0;
    while j < |ks|
      invariant 0 <= j <= |ks|
      invariant page.items == RemoveAll(old(page.items), ks[..j])
      invariant page.location == old(page.location)
    {
      assert ks[..j + 1][..j] == ks[..j];
      page.RemoveItem(ks[j]);
      j := j + 1;
    }
    assert ks[..j] == ks;
  }

  /** The third loop: `setItem` for each saved token. */
  method SetItems(page: Page, tokens: Entries)
    modifies page
    ensures page.items == SetAll(old(page.items), tokens)
    ensures page.location == old(page.location)
  {
    var n := 0;
    while n < |tokens|
      invariant 0 <= n <= |tokens|
      invariant page.items == SetAll(old(page.items), tokens[..n])
      invariant page.location == old(page.location)
    {
      assert tokens[..n + 1][..n] == tokens[..n];
      page.SetItem(tokens[n].0, tokens[n].1);
      n := n + 1;
    }
    assert tokens[..n] == tokens;
  }
}
