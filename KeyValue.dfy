/** A string-to-string store whose keys are unique and whose entries keep an
    order: the page's `localStorage` and the plain JavaScript objects
    (`tokens`) that the extension builds from it. */
module KeyValue {
  import opened Wrappers

  type Item = (string, string)

  /** No key occurs twice. */
  predicate UniqueKeys(s: seq<Item>) {
    forall i, j :: 0 <= i < j < |s| ==> s[i].0 != s[j].0
  }

  /** An ordered store with unique keys. */
  type Entries = s: seq<Item> | UniqueKeys(s)

  /** The set of keys of a store. */
  function KeySet(s: seq<Item>): set<string> {
    set i | 0 <= i < |s| :: s[i].0
  }

  /** The keys of a store, in order. */
  function Keys(s: seq<Item>): (ks: seq<string>)
    ensures |ks| == |s|
    ensures forall i :: 0 <= i < |s| ==> ks[i] == s[i].0
  {
    seq(|s|, i requires 0 <= i < |s| => s[i].0)
  }

  /** `getItem`: the value stored under `k`, or None (`null`) when absent. */
  function Get(s: seq<Item>, k: string): (r: Option<string>)
    ensures r.None? <==> k !in KeySet(s)
  {
    if s == [] then None
    else if s[0].0 == k then Some(s[0].1)
    else
      assert KeySet(s) == {s[0].0} + KeySet(s[1..]) by { KeySetCons(s); }
      Get(s[1..], k)
  }

  /** `setItem`: an existing key keeps its place and takes the new value; a
      new key is added at the end. */
  function Set(s: Entries, k: string, v: string): (r: Entries)
    ensures KeySet(r) == KeySet(s) + {k}
    ensures forall k' :: Get(r, k') == if k' == k then Some(v) else Get(s, k')
    ensures k !in KeySet(s) ==> r == s + [(k, v)]
  {
    if s == [] then
      var r := [(k, v)];
      assert r[0].0 in KeySet(r);
      r
    else if s[0].0 == k then
      KeySetCons(s);
      var r := [(k, v)] + s[1..];
      KeySetCons(r);
      r
    else
      KeySetCons(s);
      var rest := Set(s[1..], k, v);
      SetCons(s, rest);
      [s[0]] + rest
  }

  /** Putting the untouched first entry back in front of the updated tail. */
  lemma SetCons(s: Entries, rest: Entries)
    requires s != [] && s[0].0 !in KeySet(rest)
    ensures UniqueKeys([s[0]] + rest)
    ensures KeySet([s[0]] + rest) == {s[0].0} + KeySet(rest)
    ensures forall k' :: Get([s[0]] + rest, k') == if k' == s[0].0 then Some(s[0].1) else Get(rest, k')
  {
    var r := [s[0]] + rest;
    KeySetCons(r);
    assert r[1..] == rest;
    ConsUnique(s[0], rest);
  }

  /** `removeItem`: the entry for `k` goes, every other entry stays in order. */
  function Remove(s: Entries, k: string): (r: Entries)
    ensures KeySet(r) == KeySet(s) - {k}
    ensures forall k' :: Get(r, k') == if k' == k then None else Get(s, k')
  {
    if s == [] then []
    else if s[0].0 == k then
      KeySetCons(s);
      assert k !in KeySet(s[1..]);
      Remove(s[1..], k)
    else
      KeySetCons(s);
      var rest := Remove(s[1..], k);
      var r := [s[0]] + rest;
      KeySetCons(r);
      assert r[1..] == rest;
      ConsUnique(s[0], rest);
      r
  }

  lemma KeySetCons(s: seq<Item>)
    requires s != []
    ensures KeySet(s) == {s[0].0} + KeySet(s[1..])
    ensures UniqueKeys(s) ==> UniqueKeys(s[1..]) && s[0].0 !in KeySet(s[1..])
  {
    forall k | k in KeySet(s) ensures k in {s[0].0} + KeySet(s[1..]) {
      var i :| 0 <= i < |s| && s[i].0 == k;
      if i > 0 { assert s[1..][i - 1].0 == k; }
    }
    forall k | k in KeySet(s[1..]) ensures k in KeySet(s) {
      var i :| 0 <= i < |s[1..]| && s[1..][i].0 == k;
      assert s[i + 1].0 == k;
    }
    if UniqueKeys(s) {
      forall i, j | 0 <= i < j < |s[1..]| ensures s[1..][i].0 != s[1..][j].0 {
        assert s[i + 1].0 != s[j + 1].0;
      }
      forall i | 0 <= i < |s[1..]| ensures s[1..][i].0 != s[0].0 {
        assert s[i + 1].0 != s[0].0;
      }
    }
  }

  lemma ConsUnique(x: Item, s: seq<Item>)
    requires UniqueKeys(s) && x.0 !in KeySet(s)
    ensures UniqueKeys([x] + s)
  {
    var r := [x] + s;
    forall i, j | 0 <= i < j < |r| ensures r[i].0 != r[j].0 {
      if i == 0 {
        assert r[j] == s[j - 1];
        assert s[j - 1].0 in KeySet(s);
      } else {
        assert r[i] == s[i - 1] && r[j] == s[j - 1];
      }
    }
  }

  /** In a store with unique keys, `getItem` of the key at position `i` gives
      the value at position `i`. */
  lemma {:induction false} GetAt(s: Entries, i: nat)
    requires i < |s|
    ensures Get(s, s[i].0) == Some(s[i].1)
  {
    KeySetCons(s);
    if i > 0 {
      assert s[0].0 != s[i].0;
      GetAt(s[1..], i - 1);
    }
  }

  /** A value `getItem` finds is stored under that key at some position. */
  lemma {:induction false} GetFound(s: seq<Item>, k: string)
    ensures Get(s, k).Some? ==> exists i :: 0 <= i < |s| && s[i] == (k, Get(s, k).value)
  {
    if s != [] && s[0].0 != k {
      GetFound(s[1..], k);
      if Get(s, k).Some? {
        var i :| 0 <= i < |s[1..]| && s[1..][i] == (k, Get(s[1..], k).value);
        assert s[i + 1] == s[1..][i];
      }
    }
  }

  lemma KeySetSnoc(s: seq<Item>, x: Item)
    ensures KeySet(s + [x]) == KeySet(s) + {x.0}
    ensures UniqueKeys(s + [x]) <==> UniqueKeys(s) && x.0 !in KeySet(s)
  {
    var t := s + [x];
    forall k | k in KeySet(t) ensures k in KeySet(s) + {x.0} {
      var i :| 0 <= i < |t| && t[i].0 == k;
      if i < |s| { assert s[i].0 == k; }
    }
    forall k | k in KeySet(s) ensures k in KeySet(t) {
      var i :| 0 <= i < |s| && s[i].0 == k;
      assert t[i].0 == k;
    }
    assert t[|s|].0 in KeySet(t);
    if UniqueKeys(t) {
      forall i | 0 <= i < |s| ensures s[i].0 != x.0 {
        assert t[i].0 != t[|s|].0;
      }
      forall i, j | 0 <= i < j < |s| ensures s[i].0 != s[j].0 {
        assert t[i].0 != t[j].0;
      }
    }
    if UniqueKeys(s) && x.0 !in KeySet(s) {
      forall i, j | 0 <= i < j < |t| ensures t[i].0 != t[j].0 {
        if j == |s| { assert s[i].0 in KeySet(s); }
        else { assert t[i] == s[i] && t[j] == s[j]; }
      }
    }
  }

  lemma {:induction false} GetSnoc(s: seq<Item>, x: Item, k: string)
    ensures Get(s + [x], k) ==
      if k in KeySet(s) then Get(s, k) else if k == x.0 then Some(x.1) else None
  {
    if s == [] {
      assert [x] + [] == [x];
    } else {
      assert (s + [x])[1..] == s[1..] + [x];
      KeySetCons(s);
      GetSnoc(s[1..], x, k);
    }
  }
}
