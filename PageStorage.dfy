/** The Supabase dashboard page that the extension reads from and writes
    into: its `localStorage` and its location. */
module PageStorage {
  import opened Wrappers
  import opened KeyValue

  /** Where the page is sent after a switch. */
  const Dashboard: string := "https://supabase.com/dashboard"

  class Page {
    /** `localStorage`, in the order `localStorage.key(i)` enumerates it. */
    var items: Entries
    /** `window.location.href`. */
    var location: string

    constructor (items: Entries, location: string)
      ensures this.items == items && this.location == location
    {
      this.items := items;
      this.location := location;
    }

    /** `localStorage.length`. */
    function Length(): (r: nat)
      reads this
      ensures forall i: nat :: Key(i).Some? <==> i < r
    {
      |items|
    }

    /** `localStorage.key(i)`: None (`null`) past the end. */
    function Key(i: nat): (r: Option<string>)
      reads this
      ensures r.Some? <==> i < |items|
      ensures r.Some? ==> r.value in KeySet(items) && Get(items, r.value) == Some(items[i].1)
    {
      if i < |items| then GetAt(items, i); Some(items[i].0) else None
    }

    /** `localStorage.getItem(k)`. */
    function GetItem(k: string): (r: Option<string>)
      reads this
      ensures r.None? <==> k !in KeySet(items)
      ensures r.Some? ==> exists i :: 0 <= i < |items| && items[i] == (k, r.value)
    {
      GetFound(items, k);
      Get(items, k)
    }

    /** `localStorage.setItem(k, v)`. */
    method SetItem(k: string, v: string)
      modifies this
      ensures items == Set(old(items), k, v)
      ensures location == old(location)
    {
      items := Set(items, k, v);
    }

    /** `localStorage.removeItem(k)`. */
    method RemoveItem(k: string)
      modifies this
      ensures items == Remove(old(items), k)
      ensures location == old(location)
    {
      items := Remove(items, k);
    }
  }
}
