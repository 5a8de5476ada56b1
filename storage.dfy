/** The browser's `localStorage`: a string-keyed store of strings, held as a map that
    its methods replace.  Every call can throw: all of them when the browser blocks
    storage (a `SecurityError`), and `setItem` also when the new contents would not
    fit (a `QuotaExceededError`).  A call that throws leaves the store as it was. */
module BrowserStorage {
  import opened Wrappers

  class LocalStorage {
    var items: map<string, string>
    /** False when the browser blocks storage: then every call throws. */
    const available: bool
    /** Whether the browser can hold these contents; its quota is not modelled further. */
    const withinQuota: map<string, string> -> bool

    constructor(initial: map<string, string>, available: bool, withinQuota: map<string, string> -> bool)
      ensures items == initial
      ensures this.available == available && this.withinQuota == withinQuota
    {
      items := initial;
      this.available := available;
      this.withinQuota := withinQuota;
    }

    /** Whether `setItem` can leave the store holding `contents`. */
    predicate Accepts(contents: map<string, string>)
    {
      available && withinQuota(contents)
    }

    /** What `getItem(key)` returns; `None` stands for `null`. */
    function Item(key: string): (r: Option<string>)
      reads this
      ensures r.Some? <==> key in items
      ensures r.Some? ==> r.value == items[key]
    {
      if key in items then Some(items[key]) else None
    }

    /** `getItem(key)`; `ok` is false when the call throws. */
    method GetItem(key: string) returns (ok: bool, r: Option<string>)
      ensures ok <==> available
      ensures ok ==> r == Item(key)
    {
      ok := available;
      r := if ok then Item(key) else None;
    }

    /** `setItem(key, value)`; `ok` is false when the call throws, and then nothing
        changes. */
    method SetItem(key: string, value: string) returns (ok: bool)
      modifies this
      ensures ok <==> Accepts(old(items)[key := value])
      ensures items == if ok then old(items)[key := value] else old(items)
    {
      ok := Accepts(items[key := value]);
      if ok {
        items := items[key := value];
      }
    }

    method RemoveItem(key: string) returns (ok: bool)
      modifies this
      ensures ok <==> available
      ensures items == if ok then old(items) - {key} else old(items)
    {
      ok := available;
      if ok {
        items := items - {key};
      }
    }

    method Clear() returns (ok: bool)
      modifies this
      ensures ok <==> available
      ensures items == if ok then map[] else old(items)
    {
      ok := available;
      if ok {
        items := map[];
      }
    }
  }
}
