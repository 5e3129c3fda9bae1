/** The browser's key-value store, reduced to the one entry the comparison list lives in. */
module ComparisonStorage {
  import opened Wrappers

  /** The key both the comparison page and the university profile page use. */
  const StorageKey: string := "compare-universities"

  /**
   * What `getItem` returns for a present key, as the pages read it: the JSON text of an array of ids, the
   * empty string (falsy, so treated like a missing entry by both readers), or text `JSON.parse` rejects.
   */
  datatype Entry = Ids(ids: seq<string>) | Blank | Unparseable

  class Storage {
    var entries: map<string, Entry>

    constructor (initial: map<string, Entry>)
      ensures entries == initial
    {
      entries := initial;
    }

    /** `getItem(key)`; `None` is `null`. */
    function Get(key: string): (r: Option<Entry>)
      reads this
      ensures r.Some? <==> key in entries
      ensures r.Some? ==> r.value == entries[key]
    {
      if key in entries then Some(entries[key]) else None
    }

    /** `setItem(key, JSON.stringify(ids))`: overwrites the entry, touches no other key. */
    method SetIds(key: string, ids: seq<string>)
      modifies this
      ensures entries == old(entries)[key := Ids(ids)]
    {
      entries := entries[key := Ids(ids)];
    }
  }
}
