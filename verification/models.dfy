/**
 * The shapes the services exchange: a memory entry (`MemoryEntry` of
 * backend/models.py) and a memory, the caller-owned mapping from entity name
 * to entry. A Python dict is ordered by insertion, and that order is
 * observable (it drives `find_matches` ties, `analyze`'s lists and
 * `validate_import_data`'s first failure), so a memory carries its key order
 * beside the map.
 */
module Models {
  import opened Strings

  datatype Option<T> = None | Some(value: T)

  /** One story entity: its category (`type` in the source) and its description. */
  datatype MemoryEntry = MemoryEntry(kind: string, desc: string)

  /** An insertion-ordered dict from entity name to entry. */
  datatype Memory = Memory(order: seq<string>, entries: map<string, MemoryEntry>)
  {
    /** The order lists every key exactly once. */
    predicate Valid() {
      && Distinct(order)
      && (forall k :: k in order ==> k in entries)
      && (forall k :: k in entries ==> k in order)
    }

    /** `len(memory)`. */
    function Len(): nat {
      |entries|
    }
  }

  /** The empty dict `{}`. */
  const Empty: Memory := Memory([], map[])

  /** `len(d)` counts each key of the iteration order once. */
  lemma LenIsOrderLength(m: Memory)
    requires m.Valid()
    ensures m.Len() == |m.order|
  {
    DistinctCardinality(m.order);
    assert m.entries.Keys == set k | k in m.order;
  }
}
