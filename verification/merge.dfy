/**
 * The merger (backend/services/merge.py): a one-directional diff of an
 * incoming memory against the current one, the merge of a caller-selected
 * subset of it, and the structural check run on imported data.
 */
module Merge {
  import opened Strings
  import opened Models

  // ---------------------------------------------------------------------
  // analyze
  // ---------------------------------------------------------------------

  /** The three lists an incoming key can land in. */
  datatype Category = New | Update | Skip

  /** One element of those lists; `oldKind`/`oldDesc` are set only on updates. */
  datatype MergeItem = MergeItem(
    key: string, kind: string, desc: string,
    oldKind: Option<string>, oldDesc: Option<string>)

  /** The `summary` counts. */
  datatype Summary = Summary(newCount: nat, updateCount: nat, skipCount: nat)

  /** The dict `analyze` returns. */
  datatype Analysis = Analysis(
    newItems: seq<MergeItem>, updateItems: seq<MergeItem>, skipItems: seq<MergeItem>,
    summary: Summary)

  /** Where incoming `key` with entry `e` goes: absent, present and different, present and identical. */
  function CategoryOf(current: map<string, MemoryEntry>, key: string, e: MemoryEntry): Category
  {
    if key !in current then New
    else if current[key].desc != e.desc || current[key].kind != e.kind then Update
    else Skip
  }

  /** The category is `New` exactly for an absent key, and `Skip` exactly for a present key whose entry is unchanged. */
  lemma CategoryOfCases(current: map<string, MemoryEntry>, key: string, e: MemoryEntry)
    ensures CategoryOf(current, key, e) == New <==> key !in current
    ensures CategoryOf(current, key, e) == Update <==> key in current && current[key] != e
    ensures CategoryOf(current, key, e) == Skip <==> key in current && current[key] == e
  {
  }

  /** The list element built for incoming `key` with entry `e`. */
  function ItemFor(current: map<string, MemoryEntry>, key: string, e: MemoryEntry): MergeItem
  {
    if CategoryOf(current, key, e) == Update then
      MergeItem(key, e.kind, e.desc, Some(current[key].kind), Some(current[key].desc))
    else
      MergeItem(key, e.kind, e.desc, None, None)
  }

  /** The keys of a list of items, in order. */
  function KeysOf(items: seq<MergeItem>): (ks: seq<string>)
    ensures |ks| == |items|
    ensures forall i :: 0 <= i < |items| ==> ks[i] == items[i].key
  {
    seq(|items|, i requires 0 <= i < |items| => items[i].key)
  }

  /** Appending an item appends its key. */
  lemma KeysOfAppend(items: seq<MergeItem>, it: MergeItem)
    ensures KeysOf(items + [it]) == KeysOf(items) + [it.key]
  {
  }

  /**
   * The items of category `c` that iterating over `keys` (incoming keys, in
   * iteration order) appends: the specification of each of `analyze`'s lists.
   */
  function Classified(current: map<string, MemoryEntry>, incoming: map<string, MemoryEntry>,
                      keys: seq<string>, c: Category): seq<MergeItem>
    requires forall k :: k in keys ==> k in incoming
  {
    if keys == [] then []
    else
      var k := keys[|keys| - 1];
      var init := keys[..|keys| - 1];
      assert forall x :: x in init ==> x in keys;
      Classified(current, incoming, init, c)
        + (if CategoryOf(current, k, incoming[k]) == c then [ItemFor(current, k, incoming[k])] else [])
  }

  /**
   * A list holds, for each visited key of its category and no other, the
   * item built from that key's incoming entry.
   */
  lemma {:induction false} ClassifiedMembers(current: map<string, MemoryEntry>, incoming: map<string, MemoryEntry>,
                                             keys: seq<string>, c: Category)
    requires forall k :: k in keys ==> k in incoming
    ensures var items := Classified(current, incoming, keys, c);
      && |items| <= |keys|
      && (forall k :: k in KeysOf(items) <==> k in keys && CategoryOf(current, k, incoming[k]) == c)
      && (forall it :: it in items ==> it.key in incoming && it == ItemFor(current, it.key, incoming[it.key]))
  {
    if keys != [] {
      var k := keys[|keys| - 1];
      var init := keys[..|keys| - 1];
      assert keys == init + [k];
      ClassifiedMembers(current, incoming, init, c);
      var before := Classified(current, incoming, init, c);
      assert forall x :: x in keys <==> x in init || x == k;
      if CategoryOf(current, k, incoming[k]) == c {
        assert Classified(current, incoming, keys, c) == before + [ItemFor(current, k, incoming[k])];
        KeysOfAppend(before, ItemFor(current, k, incoming[k]));
      } else {
        assert Classified(current, incoming, keys, c) == before;
      }
    }
  }

  /** Iterating over one more key appends its item to the list of its category only. */
  lemma ClassifiedStep(current: map<string, MemoryEntry>, incoming: map<string, MemoryEntry>,
                       keys: seq<string>, k: string, c: Category)
    requires forall x :: x in keys ==> x in incoming
    requires k in incoming
    ensures Classified(current, incoming, keys + [k], c)
            == Classified(current, incoming, keys, c)
               + (if CategoryOf(current, k, incoming[k]) == c then [ItemFor(current, k, incoming[k])] else [])
  {
    assert (keys + [k])[..|keys|] == keys;
  }

  /**
   * `analyze(current, incoming)`: one pass over incoming, appending each
   * entry to `new`, `update` or `skip`; the summary counts the three lists.
   */
  method Analyze(current: Memory, incoming: Memory) returns (result: Analysis)
    requires incoming.Valid()
    ensures result.newItems == Classified(current.entries, incoming.entries, incoming.order, New)
    ensures result.updateItems == Classified(current.entries, incoming.entries, incoming.order, Update)
    ensures result.skipItems == Classified(current.entries, incoming.entries, incoming.order, Skip)
    ensures result.summary.newCount == |result.newItems|
    ensures result.summary.updateCount == |result.updateItems|
    ensures result.summary.skipCount == |result.skipItems|
  {
    var newItems, updateItems, skipItems := [], [], [];
    for i := 0 to |incoming.order|
      invariant newItems == Classified(current.entries, incoming.entries, incoming.order[..i], New)
      invariant updateItems == Classified(current.entries, incoming.entries, incoming.order[..i], Update)
      invariant skipItems == Classified(current.entries, incoming.entries, incoming.order[..i], Skip)
    {
      var key := incoming.order[i];
      var value := incoming.entries[key];
      assert incoming.order[..i + 1] == incoming.order[..i] + [key];
      ClassifiedStep(current.entries, incoming.entries, incoming.order[..i], key, New);
      ClassifiedStep(current.entries, incoming.entries, incoming.order[..i], key, Update);
      ClassifiedStep(current.entries, incoming.entries, incoming.order[..i], key, Skip);
      if key !in current.entries {
        newItems := newItems + [MergeItem(key, value.kind, value.desc, None, None)];
      } else {
        var currentEntry := current.entries[key];
        if currentEntry.desc != value.desc || currentEntry.kind != value.kind {
          updateItems := updateItems + [MergeItem(key, value.kind, value.desc,
                                                  Some(currentEntry.kind), Some(currentEntry.desc))];
        } else {
          skipItems := skipItems + [MergeItem(key, value.kind, value.desc, None, None)];
        }
      }
    }
    assert incoming.order[..|incoming.order|] == incoming.order;
    result := Analysis(newItems, updateItems, skipItems,
                       Summary(|newItems|, |updateItems|, |skipItems|));
  }

  /**
   * The three lists partition the incoming keys: each incoming key is in
   * exactly one of them, a key goes to `new` iff it is absent from `current`,
   * to `update` iff present with a different type or description, to `skip`
   * iff present and identical; keys only in `current` appear nowhere.
   */
  lemma AnalyzePartitions(current: map<string, MemoryEntry>, incoming: Memory, k: string)
    requires incoming.Valid()
    ensures var news := KeysOf(Classified(current, incoming.entries, incoming.order, New));
            var updates := KeysOf(Classified(current, incoming.entries, incoming.order, Update));
            var skips := KeysOf(Classified(current, incoming.entries, incoming.order, Skip));
            && (k in news <==> k in incoming.entries && k !in current)
            && (k in updates <==> k in incoming.entries && k in current &&
                                  (current[k].kind != incoming.entries[k].kind || current[k].desc != incoming.entries[k].desc))
            && (k in skips <==> k in incoming.entries && k in current && current[k] == incoming.entries[k])
            && (k in incoming.entries <==> k in news || k in updates || k in skips)
            && !(k in news && k in updates) && !(k in news && k in skips) && !(k in updates && k in skips)
  {
    ClassifiedMembers(current, incoming.entries, incoming.order, New);
    ClassifiedMembers(current, incoming.entries, incoming.order, Update);
    ClassifiedMembers(current, incoming.entries, incoming.order, Skip);
  }

  /** Every incoming key lands in exactly one list, so the three counts add up to `len(incoming)`. */
  lemma {:induction false} ClassifiedCounts(current: map<string, MemoryEntry>, incoming: map<string, MemoryEntry>,
                                            keys: seq<string>)
    requires forall k :: k in keys ==> k in incoming
    ensures |Classified(current, incoming, keys, New)| + |Classified(current, incoming, keys, Update)|
            + |Classified(current, incoming, keys, Skip)| == |keys|
  {
    if keys != [] {
      var init := keys[..|keys| - 1];
      assert keys == init + [keys[|keys| - 1]];
      ClassifiedCounts(current, incoming, init);
    }
  }

  /** The summary counts of `analyze` add up to `len(incoming)`. */
  lemma AnalyzeCountsTotal(current: map<string, MemoryEntry>, incoming: Memory)
    requires incoming.Valid()
    ensures |Classified(current, incoming.entries, incoming.order, New)|
            + |Classified(current, incoming.entries, incoming.order, Update)|
            + |Classified(current, incoming.entries, incoming.order, Skip)| == incoming.Len()
  {
    ClassifiedCounts(current, incoming.entries, incoming.order);
    LenIsOrderLength(incoming);
  }

  /**
   * Each list follows incoming iteration order: its keys are incoming keys,
   * listed by their position in the incoming order.
   */
  lemma {:induction false} ClassifiedInOrder(current: map<string, MemoryEntry>, incoming: map<string, MemoryEntry>,
                                             keys: seq<string>, c: Category)
    requires forall k :: k in keys ==> k in incoming
    requires Distinct(keys)
    ensures FirstSeenOrder(keys, KeysOf(Classified(current, incoming, keys, c)))
  {
    if keys != [] {
      var k := keys[|keys| - 1];
      var init := keys[..|keys| - 1];
      assert keys == init + [k];
      assert Distinct(init);
      ClassifiedInOrder(current, incoming, init, c);
      ClassifiedStep(current, incoming, init, k, c);
      var before := KeysOf(Classified(current, incoming, init, c));
      assert forall x :: x in before ==> x in init by {
        ClassifiedMembers(current, incoming, init, c);
      }
      if CategoryOf(current, k, incoming[k]) == c {
        IndexOfDistinct(keys, |keys| - 1);
        KeysOfAppend(Classified(current, incoming, init, c), ItemFor(current, k, incoming[k]));
        FirstSeenOrderAppend(init, k, before);
      } else {
        FirstSeenOrderStep(init, k, before);
      }
    }
  }

  /** Update items carry the incoming entry and the current one as `old_type`/`old_desc`; the others carry no old values. */
  lemma ItemsCarryEntries(current: map<string, MemoryEntry>, incoming: Memory, c: Category, it: MergeItem)
    requires incoming.Valid()
    requires it in Classified(current, incoming.entries, incoming.order, c)
    ensures it.key in incoming.entries
    ensures it.kind == incoming.entries[it.key].kind && it.desc == incoming.entries[it.key].desc
    ensures c == Update ==> it.key in current &&
                            it.oldKind == Some(current[it.key].kind) && it.oldDesc == Some(current[it.key].desc)
    ensures c != Update ==> it.oldKind == None && it.oldDesc == None
  {
    ClassifiedMembers(current, incoming.entries, incoming.order, c);
  }

  // ---------------------------------------------------------------------
  // apply_merge
  // ---------------------------------------------------------------------

  /** The `stats` dict `apply_merge` returns. */
  datatype MergeStats = MergeStats(added: int, updated: int, skipped: int)

  /**
   * The keys of `keys`, in order, that are listed in `selection` and whose
   * presence in `current` is `present`: with `present == false` and the new
   * selection these are the keys `apply_merge` adds, with `present == true`
   * and the update selection the keys it overwrites.
   */
  function Picked(keys: seq<string>, current: map<string, MemoryEntry>, selection: seq<string>,
                  present: bool): seq<string>
  {
    if keys == [] then []
    else
      var k := keys[|keys| - 1];
      Picked(keys[..|keys| - 1], current, selection, present)
        + (if k in selection && (k in current) == present then [k] else [])
  }

  /**
   * The picked keys are exactly the keys selected whose presence in `current`
   * is `present`; they are no more than the keys, and repeat none when the
   * keys repeat none.
   */
  lemma {:induction false} PickedMembers(keys: seq<string>, current: map<string, MemoryEntry>,
                                         selection: seq<string>, present: bool)
    ensures var r := Picked(keys, current, selection, present);
      && |r| <= |keys|
      && (forall k :: k in r <==> k in keys && k in selection && (k in current) == present)
      && (Distinct(keys) ==> Distinct(r))
  {
    if keys != [] {
      var k := keys[|keys| - 1];
      var init := keys[..|keys| - 1];
      assert keys == init + [k];
      assert Distinct(keys) ==> Distinct(init) && k !in init;
      PickedMembers(init, current, selection, present);
    }
  }

  /** Iterating over one more key appends it when it is picked. */
  lemma PickedStep(keys: seq<string>, k: string, current: map<string, MemoryEntry>, selection: seq<string>,
                   present: bool)
    ensures Picked(keys + [k], current, selection, present)
            == Picked(keys, current, selection, present)
               + (if k in selection && (k in current) == present then [k] else [])
  {
    assert (keys + [k])[..|keys|] == keys;
  }

  /**
   * No key is picked both as absent and as present, so the added and the
   * updated counts never exceed `len(incoming)` together.
   */
  lemma {:induction false} PickedBound(keys: seq<string>, current: map<string, MemoryEntry>,
                                       selectedNew: seq<string>, selectedUpdate: seq<string>)
    ensures |Picked(keys, current, selectedNew, false)| + |Picked(keys, current, selectedUpdate, true)| <= |keys|
  {
    if keys != [] {
      var init := keys[..|keys| - 1];
      assert keys == init + [keys[|keys| - 1]];
      PickedBound(init, current, selectedNew, selectedUpdate);
    }
  }

  /** The entry-by-entry copy of `current` that `apply_merge` starts from. */
  method CopyOf(current: Memory) returns (copy: Memory)
    requires current.Valid()
    ensures copy == current
  {
    var order: seq<string> := [];
    var entries: map<string, MemoryEntry> := map[];
    for i := 0 to |current.order|
      invariant order == current.order[..i]
      invariant entries.Keys == set k | k in order
      invariant forall k :: k in entries ==> entries[k] == current.entries[k]
    {
      var key := current.order[i];
      entries := entries[key := current.entries[key]];
      order := order + [key];
      assert current.order[..i + 1] == current.order[..i] + [key];
    }
    assert order == current.order;
    assert entries == current.entries;
    copy := Memory(order, entries);
  }

  /**
   * The dict `apply_merge` holds once its loop has visited the first `n`
   * incoming keys, starting from the copy of `current`.
   */
  function MergedAfter(current: Memory, incoming: Memory, n: nat,
                       selectedNew: seq<string>, selectedUpdate: seq<string>): Memory
    requires incoming.Valid() && n <= |incoming.order|
  {
    if n == 0 then current
    else
      var prev := MergedAfter(current, incoming, n - 1, selectedNew, selectedUpdate);
      var k := incoming.order[n - 1];
      if k !in current.entries && k in selectedNew then
        Memory(prev.order + [k], prev.entries[k := incoming.entries[k]])
      else if k in current.entries && k in selectedUpdate then
        Memory(prev.order, prev.entries[k := incoming.entries[k]])
      else
        prev
  }

  /**
   * After the first `n` incoming keys, the key order is that of `current`
   * followed by the keys absent from `current` and selected as new, in
   * incoming order.
   */
  lemma {:induction false} MergedAfterOrder(current: Memory, incoming: Memory, n: nat,
                                            selectedNew: seq<string>, selectedUpdate: seq<string>)
    requires incoming.Valid() && n <= |incoming.order|
    ensures MergedAfter(current, incoming, n, selectedNew, selectedUpdate).order
            == current.order + Picked(incoming.order[..n], current.entries, selectedNew, false)
  {
    if n == 0 {
      assert incoming.order[..0] == [];
    } else {
      MergedAfterOrder(current, incoming, n - 1, selectedNew, selectedUpdate);
      var k := incoming.order[n - 1];
      assert incoming.order[..n] == incoming.order[..n - 1] + [k];
      PickedStep(incoming.order[..n - 1], k, current.entries, selectedNew, false);
      var before := Picked(incoming.order[..n - 1], current.entries, selectedNew, false);
      var prev := MergedAfter(current, incoming, n - 1, selectedNew, selectedUpdate);
      var r := MergedAfter(current, incoming, n, selectedNew, selectedUpdate);
      if k !in current.entries && k in selectedNew {
        assert r.order == prev.order + [k];
        assert prev.order + [k] == current.order + (before + [k]);
      } else {
        assert r.order == prev.order;
        assert before + [] == before;
      }
    }
  }

  /** After the first `n` incoming keys, the key order still lists every key of the dict exactly once. */
  lemma {:induction false} MergedAfterValid(current: Memory, incoming: Memory, n: nat,
                                            selectedNew: seq<string>, selectedUpdate: seq<string>)
    requires current.Valid() && incoming.Valid() && n <= |incoming.order|
    ensures MergedAfter(current, incoming, n, selectedNew, selectedUpdate).Valid()
  {
    if n > 0 {
      MergedAfterValid(current, incoming, n - 1, selectedNew, selectedUpdate);
      MergedAfterOrder(current, incoming, n - 1, selectedNew, selectedUpdate);
      var k := incoming.order[n - 1];
      IndexOfDistinct(incoming.order, n - 1);
      PickedMembers(incoming.order[..n - 1], current.entries, selectedNew, false);
      MergedAfterStepValid(current, incoming, n, selectedNew, selectedUpdate);
    }
  }

  /**
   * One more visited key keeps the order valid, given that a key to insert is
   * not yet in the order and a key to overwrite is already in the dict.
   */
  lemma MergedAfterStepValid(current: Memory, incoming: Memory, n: nat,
                             selectedNew: seq<string>, selectedUpdate: seq<string>)
    requires incoming.Valid() && 0 < n <= |incoming.order|
    requires var prev := MergedAfter(current, incoming, n - 1, selectedNew, selectedUpdate);
      var k := incoming.order[n - 1];
      && prev.Valid()
      && (k !in current.entries ==> k !in prev.order)
      && (k in current.entries ==> k in prev.order)
    ensures MergedAfter(current, incoming, n, selectedNew, selectedUpdate).Valid()
  {
    var k := incoming.order[n - 1];
    var prev := MergedAfter(current, incoming, n - 1, selectedNew, selectedUpdate);
    if k !in current.entries && k in selectedNew {
      AppendKeepsValid(prev, k, incoming.entries[k]);
    } else if k in current.entries && k in selectedUpdate {
      UpdateKeepsValid(prev, k, incoming.entries[k]);
    }
  }

  /** Inserting a key the dict lacks appends it to the iteration order. */
  lemma AppendKeepsValid(m: Memory, k: string, e: MemoryEntry)
    requires m.Valid() && k !in m.order
    ensures Memory(m.order + [k], m.entries[k := e]).Valid()
  {
  }

  /** Overwriting a key the dict has leaves the iteration order alone. */
  lemma UpdateKeepsValid(m: Memory, k: string, e: MemoryEntry)
    requires m.Valid() && k in m.entries
    ensures Memory(m.order, m.entries[k := e]).Valid()
  {
  }

  /**
   * After the first `n` incoming keys, a key of `current` carries its
   * incoming entry if it was visited and selected for update, and its current
   * entry otherwise.
   */
  lemma {:induction false} MergedAfterEntries(current: Memory, incoming: Memory, n: nat,
                                              selectedNew: seq<string>, selectedUpdate: seq<string>)
    requires incoming.Valid() && n <= |incoming.order|
    ensures var r := MergedAfter(current, incoming, n, selectedNew, selectedUpdate);
      forall k :: k in current.entries ==>
        k in r.entries &&
        r.entries[k] == if k in incoming.order[..n] && k in selectedUpdate
                        then incoming.entries[k] else current.entries[k]
  {
    if n > 0 {
      MergedAfterEntries(current, incoming, n - 1, selectedNew, selectedUpdate);
      var k := incoming.order[n - 1];
      assert incoming.order[..n] == incoming.order[..n - 1] + [k];
      IndexOfDistinct(incoming.order, n - 1);
      assert k !in incoming.order[..n - 1];
    }
  }

  /** After the first `n` incoming keys, every inserted key carries its incoming entry. */
  lemma {:induction false} MergedAfterInserted(current: Memory, incoming: Memory, n: nat,
                                               selectedNew: seq<string>, selectedUpdate: seq<string>)
    requires incoming.Valid() && n <= |incoming.order|
    ensures var r := MergedAfter(current, incoming, n, selectedNew, selectedUpdate);
      forall k :: k in r.entries && k !in current.entries ==>
        k in incoming.entries && r.entries[k] == incoming.entries[k]
  {
    if n > 0 {
      MergedAfterInserted(current, incoming, n - 1, selectedNew, selectedUpdate);
    }
  }

  /**
   * The dict after the whole loop: the keys of `current` plus the incoming
   * keys absent from `current` and selected as new (appended in incoming
   * order, with their incoming entries); a key of `current` takes its
   * incoming entry exactly when it is an incoming key selected for update.
   */
  lemma MergedSpec(current: Memory, incoming: Memory, selectedNew: seq<string>, selectedUpdate: seq<string>)
    requires current.Valid() && incoming.Valid()
    ensures var merged := MergedAfter(current, incoming, |incoming.order|, selectedNew, selectedUpdate);
      && merged.Valid()
      && merged.order == current.order + Picked(incoming.order, current.entries, selectedNew, false)
      && merged.entries.Keys == current.entries.Keys
           + (set k | k in incoming.entries && k !in current.entries && k in selectedNew)
      && (forall k :: k in current.entries ==>
            merged.entries[k] == if k in incoming.entries && k in selectedUpdate
                                 then incoming.entries[k] else current.entries[k])
      && (forall k :: k in merged.entries && k !in current.entries ==>
            k in incoming.entries && merged.entries[k] == incoming.entries[k])
  {
    var n := |incoming.order|;
    assert incoming.order[..n] == incoming.order;
    MergedAfterOrder(current, incoming, n, selectedNew, selectedUpdate);
    MergedAfterValid(current, incoming, n, selectedNew, selectedUpdate);
    PickedMembers(incoming.order, current.entries, selectedNew, false);
    MergedAfterEntries(current, incoming, n, selectedNew, selectedUpdate);
    MergedAfterInserted(current, incoming, n, selectedNew, selectedUpdate);
    var merged := MergedAfter(current, incoming, n, selectedNew, selectedUpdate);
    forall k ensures k in merged.entries <==>
                       (k in current.entries || (k in incoming.entries && k !in current.entries && k in selectedNew))
    {
      assert k in merged.entries <==> k in merged.order;
    }
  }

  /**
   * `apply_merge(current, incoming, selected_new_keys, selected_update_keys)`:
   * a copy of `current`, plus every incoming key absent from `current` and
   * selected as new (appended in incoming order), with every key present in
   * `current` and selected for update overwritten by its incoming entry;
   * everything else keeps its current entry. `skipped` is the residual
   * `len(incoming) - added - updated`, which is never negative.
   */
  method ApplyMerge(current: Memory, incoming: Memory, selectedNew: seq<string>, selectedUpdate: seq<string>)
    returns (merged: Memory, stats: MergeStats)
    requires current.Valid() && incoming.Valid()
    ensures merged == MergedAfter(current, incoming, |incoming.order|, selectedNew, selectedUpdate)
    ensures stats.added == |Picked(incoming.order, current.entries, selectedNew, false)|
    ensures stats.updated == |Picked(incoming.order, current.entries, selectedUpdate, true)|
    ensures stats.added + stats.updated + stats.skipped == incoming.Len()
    ensures stats.skipped >= 0
  {
    var copy := CopyOf(current);
    var order, entries := copy.order, copy.entries;
    var added, updated := 0, 0;
    var keys := incoming.order;
    for i := 0 to |keys|
      invariant Memory(order, entries) == MergedAfter(current, incoming, i, selectedNew, selectedUpdate)
      invariant added == |Picked(keys[..i], current.entries, selectedNew, false)|
      invariant updated == |Picked(keys[..i], current.entries, selectedUpdate, true)|
    {
      var key := keys[i];
      var value := incoming.entries[key];
      assert keys[..i + 1] == keys[..i] + [key];
      PickedStep(keys[..i], key, current.entries, selectedNew, false);
      PickedStep(keys[..i], key, current.entries, selectedUpdate, true);
      if key !in current.entries && key in selectedNew {
        entries := entries[key := value];
        order := order + [key];
        added := added + 1;
      } else if key in current.entries && key in selectedUpdate {
        entries := entries[key := value];
        updated := updated + 1;
      }
    }
    assert keys[..|keys|] == keys;
    merged := Memory(order, entries);
    PickedBound(keys, current.entries, selectedNew, selectedUpdate);
    LenIsOrderLength(incoming);
    stats := MergeStats(added, updated, incoming.Len() - added - updated);
  }

  /**
   * Accepting the whole preview (every `new` key selected as new, every
   * `update` key selected for update) adds exactly the `new` items and
   * overwrites exactly the `update` items, so the stats equal the summary.
   */
  lemma {:induction false} AcceptAllMatchesSummary(current: map<string, MemoryEntry>,
                                                   incoming: map<string, MemoryEntry>, keys: seq<string>,
                                                   selectedNew: seq<string>, selectedUpdate: seq<string>)
    requires forall k :: k in keys ==> k in incoming
    requires forall k :: k in keys ==> (k in selectedNew <==> CategoryOf(current, k, incoming[k]) == New)
    requires forall k :: k in keys ==> (k in selectedUpdate <==> CategoryOf(current, k, incoming[k]) == Update)
    ensures |Picked(keys, current, selectedNew, false)| == |Classified(current, incoming, keys, New)|
    ensures |Picked(keys, current, selectedUpdate, true)| == |Classified(current, incoming, keys, Update)|
  {
    if keys != [] {
      var init := keys[..|keys| - 1];
      assert keys == init + [keys[|keys| - 1]];
      AcceptAllMatchesSummary(current, incoming, init, selectedNew, selectedUpdate);
    }
  }

  // ---------------------------------------------------------------------
  // validate_import_data
  // ---------------------------------------------------------------------

  /** The failures `validate_import_data` reports. */
  datatype ImportError = BlankKey | MissingType(key: string) | MissingDesc(key: string)

  /** The human-readable message returned for each failure. */
  function Message(e: ImportError): string
  {
    match e
    case BlankKey => "Invalid key: keys must be non-empty strings."
    case MissingType(k) => "Invalid entry '" + k + "'. Missing 'type' field."
    case MissingDesc(k) => "Invalid entry '" + k + "'. Missing 'desc' field."
  }

  /** The checks on one entry, in the order they run: key, then type, then description. */
  function EntryError(key: string, e: MemoryEntry): Option<ImportError>
  {
    if Strip(key) == "" then Some(BlankKey)
    else if e.kind == "" then Some(MissingType(key))
    else if e.desc == "" then Some(MissingDesc(key))
    else None
  }

  /**
   * Which check an entry fails: a blank key first, then an empty type, then
   * an empty description; an entry passes exactly when none of these holds.
   */
  lemma EntryErrorCases(key: string, e: MemoryEntry)
    ensures EntryError(key, e) == Some(BlankKey) <==> Blank(key)
    ensures EntryError(key, e) == Some(MissingType(key)) <==> !Blank(key) && e.kind == ""
    ensures EntryError(key, e) == Some(MissingDesc(key)) <==> !Blank(key) && e.kind != "" && e.desc == ""
    ensures EntryError(key, e) == None <==> !Blank(key) && e.kind != "" && e.desc != ""
  {
    StripEmptyIffBlank(key);
  }

  /** The entry at position `i` of the iteration order is the first one that fails. */
  predicate FirstFailureAt(data: Memory, i: nat)
    requires data.Valid()
  {
    && i < |data.order|
    && EntryError(data.order[i], data.entries[data.order[i]]).Some?
    && forall j :: 0 <= j < i ==> EntryError(data.order[j], data.entries[data.order[j]]).None?
  }

  /**
   * `validate_import_data(data)`: `(True, None)` when every entry passes;
   * otherwise `(False, message)` for the first failing entry in iteration
   * order, without looking further.
   */
  method ValidateImportData(data: Memory) returns (valid: bool, error: Option<string>)
    requires data.Valid()
    ensures valid <==> error == None
    ensures valid <==> forall k :: k in data.entries ==> EntryError(k, data.entries[k]) == None
    ensures !valid ==> exists i: nat :: FirstFailureAt(data, i) &&
                        error == Some(Message(EntryError(data.order[i], data.entries[data.order[i]]).value))
  {
    for i := 0 to |data.order|
      invariant forall j :: 0 <= j < i ==> EntryError(data.order[j], data.entries[data.order[j]]).None?
    {
      var key := data.order[i];
      var value := data.entries[key];
      if Strip(key) == "" {
        FailureIsReported(data, i, Some("Invalid key: keys must be non-empty strings."));
        return false, Some("Invalid key: keys must be non-empty strings.");
      }
      if value.kind == "" {
        FailureIsReported(data, i, Some("Invalid entry '" + key + "'. Missing 'type' field."));
        return false, Some("Invalid entry '" + key + "'. Missing 'type' field.");
      }
      if value.desc == "" {
        FailureIsReported(data, i, Some("Invalid entry '" + key + "'. Missing 'desc' field."));
        return false, Some("Invalid entry '" + key + "'. Missing 'desc' field.");
      }
    }
    forall k | k in data.entries ensures EntryError(k, data.entries[k]) == None {
      var j :| 0 <= j < |data.order| && data.order[j] == k;
    }
    return true, None;
  }

  /** A failing entry makes the whole mapping invalid, and its message is the one to report. */
  lemma FailureIsReported(data: Memory, i: nat, error: Option<string>)
    requires data.Valid() && FirstFailureAt(data, i)
    requires error == Some(Message(EntryError(data.order[i], data.entries[data.order[i]]).value))
    ensures !forall k :: k in data.entries ==> EntryError(k, data.entries[k]) == None
    ensures exists i: nat :: FirstFailureAt(data, i) &&
              error == Some(Message(EntryError(data.order[i], data.entries[data.order[i]]).value))
  {
    assert data.order[i] in data.entries;
  }

  /** An empty mapping is valid. */
  lemma EmptyIsValid()
    ensures forall k :: k in Empty.entries ==> EntryError(k, Empty.entries[k]) == None
  {
  }

  /** Only the key is stripped: a type or description made of whitespace passes. */
  lemma WhitespaceFieldsPass(key: string, e: MemoryEntry)
    requires !Blank(key) && e.kind != "" && e.desc != ""
    ensures EntryError(key, e) == None
  {
    StripSpec(key);
  }

  /** A missing-field message names the entry's key and the missing field. */
  lemma MessageNamesKeyAndField(e: ImportError)
    requires !e.BlankKey?
    ensures Occurs(e.key, Message(e))
    ensures Occurs(FieldName(e), Message(e))
  {
    var k := e.key;
    var field := FieldName(e);
    var head, mid, tail := "Invalid entry '", "'. Missing '", "' field.";
    MessageShape(e);
    Reassociate(head, k, mid, field, tail);
    Middle(head, k, mid + field + tail);
    Middle(head + k + mid, field, tail);
  }

  /** The field a missing-field failure is about. */
  function FieldName(e: ImportError): string
    requires !e.BlankKey?
  {
    if e.MissingType? then "type" else "desc"
  }

  /** A missing-field message is a fixed head, the key, and a tail that names the field. */
  lemma MessageShape(e: ImportError)
    requires !e.BlankKey?
    ensures Message(e) == "Invalid entry '" + e.key + ("'. Missing '" + FieldName(e) + "' field.")
  {
  }

  /** Regroups the message's five pieces so that the key and the field name each stand between two pieces. */
  lemma Reassociate(a: string, b: string, c: string, d: string, f: string)
    ensures a + b + (c + d + f) == (a + b + c) + d + f
  {
  }
}
