/**
 * The ordered key-value store the queue is built on, at its interface only:
 * Put, Delete, and a listing that returns the smallest key with its value.
 * Whether an operation fails is decided by the environment, so each
 * operation takes that decision as a parameter; a failed operation
 * changes nothing.
 */
module Storage {

  import opened Options
  import opened Bytes
  import opened ByteOrder

  type Key = seq<uint8>
  type Value = seq<uint8>
  type Entries = map<Key, Value>

  datatype Item = Item(key: Key, value: Value)

  /** The outcome of a smallest-first listing limited to one item. */
  datatype ListResult = ListFailed | Listed(first: Option<Item>)

  class Store {
    var entries: Entries

    constructor (initial: Entries)
      ensures entries == initial
    {
      entries := initial;
    }

    method Put(key: Key, value: Value, fails: bool) returns (failed: bool)
      modifies this
      ensures failed == fails
      ensures entries == if fails then old(entries) else old(entries)[key := value]
    {
      failed := fails;
      if !fails {
        entries := entries[key := value];
      }
    }

    method Delete(key: Key, fails: bool) returns (failed: bool)
      modifies this
      ensures failed == fails
      ensures entries == if fails then old(entries) else old(entries) - {key}
    {
      failed := fails;
      if !fails {
        entries := entries - {key};
      }
    }

    /** Lists the first entry in key order, with its value. */
    method ListFirst(fails: bool) returns (r: ListResult)
      ensures r.ListFailed? <==> fails
      ensures r.Listed? ==> (r.first.None? <==> entries == map[])
      ensures r.Listed? && r.first.Some? ==>
                IsLeast(r.first.value.key, entries.Keys) && r.first.value.value == entries[r.first.value.key]
    {
      if fails {
        return ListFailed;
      }
      if entries == map[] {
        return Listed(None);
      }
      var best :| best in entries;
      var rest := entries.Keys - {best};
      while rest != {}
        invariant rest <= entries.Keys && best in entries && best !in rest
        invariant forall k :: k in entries && k !in rest && k != best ==> Less(best, k)
        decreases rest
      {
        var k :| k in rest;
        if Less(k, best) {
          forall k' | k' in entries && k' !in rest && k' != k
            ensures Less(k, k')
          {
            if k' != best {
              LessTransitive(k, best, k');
            }
          }
          best := k;
        } else {
          LessTotal(k, best);
        }
        rest := rest - {k};
      }
      r := Listed(Some(Item(best, entries[best])));
    }
  }

}
