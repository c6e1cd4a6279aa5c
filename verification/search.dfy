/**
 * The matcher (backend/services/search.py): which memory keys occur in a
 * text, ordered by where each first occurs.
 */
module Search {
  import opened Strings
  import opened Models

  /** Every element of `s` occurs in `text`, so `text.index` is defined on it. */
  predicate AllOccur(text: string, s: seq<string>) {
    forall k :: k in s ==> Occurs(k, text)
  }

  /** `s` is ordered by first offset in `text` (the key of the sort). */
  predicate SortedByIndex(text: string, s: seq<string>)
    requires AllOccur(text, s)
  {
    forall i, j :: 0 <= i < j < |s| ==> Index(text, s[i]) <= Index(text, s[j])
  }

  /**
   * Elements of `s` with the same first offset keep the order they have in
   * `reference` (every element of `s` is in `reference`).
   */
  predicate TiesFollow(text: string, s: seq<string>, reference: seq<string>)
    requires AllOccur(text, s)
    requires forall k :: k in s ==> k in reference
  {
    forall i, j :: 0 <= i < j < |s| && Index(text, s[i]) == Index(text, s[j]) ==>
      IndexOf(reference, s[i]) < IndexOf(reference, s[j])
  }

  /**
   * The order a stable sort by first offset produces on elements of `s`:
   * smaller first offset first, and on equal offsets the earlier in `s` first.
   */
  predicate Precedes(text: string, s: seq<string>, a: string, b: string)
    requires Occurs(a, text) && Occurs(b, text) && a in s && b in s
  {
    || Index(text, a) < Index(text, b)
    || (Index(text, a) == Index(text, b) && IndexOf(s, a) < IndexOf(s, b))
  }

  /** Every element precedes every later one. */
  predicate Ranked(text: string, s: seq<string>, r: seq<string>)
    requires AllOccur(text, r) && forall k :: k in r ==> k in s
  {
    forall i, j :: 0 <= i < j < |r| ==> Precedes(text, s, r[i], r[j])
  }

  /** Inserting `x` at position `p` adds `x` and keeps every element of `r`. */
  lemma InsertKeepsElements(r: seq<string>, x: string, p: nat)
    requires p <= |r|
    ensures var r' := r[..p] + [x] + r[p..];
      && |r'| == |r| + 1
      && (forall k :: k in r' <==> k in r || k == x)
      && (Distinct(r) && x !in r ==> Distinct(r'))
  {
    assert r == r[..p] + r[p..];
    if Distinct(r) && x !in r {
      InsertKeepsDistinct(r, x, p);
    }
  }

  /** Inserting a fresh element keeps the sequence free of repeats. */
  lemma InsertKeepsDistinct(r: seq<string>, x: string, p: nat)
    requires p <= |r| && Distinct(r) && x !in r
    ensures Distinct(r[..p] + [x] + r[p..])
  {
    var r' := r[..p] + [x] + r[p..];
    assert forall i :: 0 <= i < p ==> r'[i] == r[i];
    assert r'[p] == x;
    assert forall i :: p < i < |r'| ==> r'[i] == r[i - 1];
    forall i, j | 0 <= i < j < |r'| ensures r'[i] != r'[j] {
      if i == p {
        assert r'[j] in r;
      } else if j == p {
        assert r'[i] in r;
      }
    }
  }

  /** Inserting `x` between the elements it follows and those it precedes keeps the ranking. */
  lemma InsertRanked(text: string, s: seq<string>, r: seq<string>, x: string, p: nat)
    requires AllOccur(text, r) && forall k :: k in r ==> k in s
    requires Occurs(x, text) && x in s && p <= |r|
    requires Ranked(text, s, r)
    requires forall q :: 0 <= q < p ==> Precedes(text, s, r[q], x)
    requires forall q :: p <= q < |r| ==> Precedes(text, s, x, r[q])
    ensures AllOccur(text, r[..p] + [x] + r[p..])
    ensures forall k :: k in r[..p] + [x] + r[p..] ==> k in s
    ensures Ranked(text, s, r[..p] + [x] + r[p..])
  {
    var r' := r[..p] + [x] + r[p..];
    InsertKeepsElements(r, x, p);
    assert forall q :: 0 <= q < p ==> r'[q] == r[q];
    assert forall q :: p < q < |r'| ==> r'[q] == r[q - 1];
    forall i, j | 0 <= i < j < |r'| ensures Precedes(text, s, r'[i], r'[j]) {
      if j < p {
      } else if j == p {
      } else if i < p {
      } else if i == p {
      } else {
        assert r'[i] == r[i - 1] && r'[j] == r[j - 1];
      }
    }
  }

  /** The first position whose element starts later in `text` than `x` (or the end). */
  method InsertionPoint(text: string, r: seq<string>, x: string) returns (p: nat)
    requires AllOccur(text, r) && Occurs(x, text)
    ensures p <= |r|
    ensures forall q :: 0 <= q < p ==> Index(text, r[q]) <= Index(text, x)
    ensures p < |r| ==> Index(text, x) < Index(text, r[p])
  {
    p := 0;
    while p < |r| && Index(text, r[p]) <= Index(text, x)
      invariant 0 <= p <= |r|
      invariant forall q :: 0 <= q < p ==> Index(text, r[q]) <= Index(text, x)
    {
      p := p + 1;
    }
  }

  /** A ranked sequence is sorted by first offset, and ties follow `s`. */
  lemma RankedIsStableSorted(text: string, s: seq<string>, r: seq<string>)
    requires AllOccur(text, r) && forall k :: k in r ==> k in s
    requires Ranked(text, s, r)
    ensures SortedByIndex(text, r) && TiesFollow(text, r, s)
  {
  }

  /**
   * `matches.sort(key=lambda k: text.index(k))` on a list of distinct keys:
   * Python's sort is stable, so the result is a permutation of `s` (same
   * elements, none repeated, same length), ordered by first offset, and
   * elements with equal offsets keep their order in `s`.
   */
  method SortByFirstIndex(text: string, s: seq<string>) returns (r: seq<string>)
    requires Distinct(s)
    requires AllOccur(text, s)
    ensures Distinct(r) && |r| == |s| && forall k :: k in r <==> k in s
    ensures AllOccur(text, r)
    ensures SortedByIndex(text, r)
    ensures TiesFollow(text, r, s)
  {
    r := [];
    for n := 0 to |s|
      invariant Distinct(r) && |r| == n
      invariant forall k :: k in r <==> k in s[..n]
      invariant forall k :: k in r ==> k in s
      invariant AllOccur(text, r)
      invariant Ranked(text, s, r)
    {
      assert s[n] in s;
      var p := InsertionPoint(text, r, s[n]);
      InsertStep(text, s, r, n, p);
      r := r[..p] + [s[n]] + r[p..];
    }
    assert s[..|s|] == s;
    RankedIsStableSorted(text, s, r);
  }

  /**
   * One step of the insertion sort: inserting the next element of `s` at its
   * insertion point keeps the ranking and extends the prefix of `s` covered.
   */
  lemma InsertStep(text: string, s: seq<string>, r: seq<string>, n: nat, p: nat)
    requires Distinct(s) && AllOccur(text, s) && n < |s|
    requires Distinct(r) && |r| == n
    requires forall k :: k in r <==> k in s[..n]
    requires forall k :: k in r ==> k in s
    requires AllOccur(text, r) && Ranked(text, s, r)
    requires p <= |r|
    requires forall q :: 0 <= q < p ==> Index(text, r[q]) <= Index(text, s[n])
    requires p < |r| ==> Index(text, s[n]) < Index(text, r[p])
    ensures var r' := r[..p] + [s[n]] + r[p..];
      && Distinct(r') && |r'| == n + 1
      && (forall k :: k in r' <==> k in s[..n + 1])
      && (forall k :: k in r' ==> k in s)
      && AllOccur(text, r') && Ranked(text, s, r')
  {
    var x := s[n];
    assert x in s && Occurs(x, text);
    NextIsLater(s, r, n);
    IndexOfDistinct(s, n);
    InsertionPointSplits(text, s, r, x, p);
    InsertKeepsElements(r, x, p);
    InsertRanked(text, s, r, x, p);
    assert s[..n + 1] == s[..n] + [x];
  }

  /** The next element of `s` is not yet in `r` and comes after everything in `r`. */
  lemma NextIsLater(s: seq<string>, r: seq<string>, n: nat)
    requires Distinct(s) && n < |s|
    requires forall k :: k in r <==> k in s[..n]
    ensures forall k :: k in r ==> k in s && IndexOf(s, k) < n
    ensures s[n] !in r
  {
    IndexOfDistinct(s, n);
    forall k | k in r ensures k in s && IndexOf(s, k) < n {
      var q :| 0 <= q < n && s[..n][q] == k;
      assert s[q] == k;
    }
  }

  /** Everything before the insertion point precedes `x`, and `x` precedes everything from it on. */
  lemma InsertionPointSplits(text: string, s: seq<string>, r: seq<string>, x: string, p: nat)
    requires Occurs(x, text) && x in s
    requires AllOccur(text, r) && forall k :: k in r ==> k in s && IndexOf(s, k) < IndexOf(s, x)
    requires Ranked(text, s, r)
    requires p <= |r|
    requires forall q :: 0 <= q < p ==> Index(text, r[q]) <= Index(text, x)
    requires p < |r| ==> Index(text, x) < Index(text, r[p])
    ensures forall q :: 0 <= q < p ==> Precedes(text, s, r[q], x)
    ensures forall q :: p <= q < |r| ==> Precedes(text, s, x, r[q])
  {
    forall q | 0 <= q < p ensures Precedes(text, s, r[q], x) {
      assert r[q] in r;
    }
    forall q | p <= q < |r| ensures Precedes(text, s, x, r[q]) {
      assert r[q] in r;
      assert Index(text, x) < Index(text, r[q]) by {
        if p < q {
          assert r[p] in r;
          assert Precedes(text, s, r[p], r[q]);
        }
      }
    }
  }

  /**
   * `find_matches(text, memory)`: the keys of `memory` that occur in `text`,
   * each once, ordered by first offset; keys with the same first offset stay
   * in the memory's iteration order. An empty text or memory gives `[]`.
   */
  method FindMatches(text: string, memory: Memory) returns (matches: seq<string>)
    requires memory.Valid()
    ensures |text| == 0 || |memory.order| == 0 ==> matches == []
    ensures forall k :: k in matches <==> |text| > 0 && k in memory.entries && Occurs(k, text)
    ensures Distinct(matches)
    ensures |matches| <= |memory.order|
    ensures AllOccur(text, matches) && SortedByIndex(text, matches)
    ensures TiesFollow(text, matches, memory.order)
  {
    if |text| == 0 || |memory.order| == 0 {
      return [];
    }
    var found := KeysInText(text, memory.order);
    FirstSeenOrderDistinct(memory.order, found);
    matches := SortByFirstIndex(text, found);
    TiesAcrossOrders(text, matches, found, memory.order);
  }

  /**
   * The loop of `find_matches` before the sort: the keys, in order, that
   * occur in `text`.
   */
  method KeysInText(text: string, keys: seq<string>) returns (found: seq<string>)
    requires Distinct(keys)
    ensures |found| <= |keys|
    ensures forall k :: k in found <==> k in keys && Occurs(k, text)
    ensures FirstSeenOrder(keys, found)
  {
    found := [];
    for i := 0 to |keys|
      invariant |found| <= i
      invariant forall k :: k in found <==> k in keys && IndexOf(keys, k) < i && Occurs(k, text)
      invariant FirstSeenOrder(keys, found)
    {
      var key := keys[i];
      IndexOfDistinct(keys, i);
      if Contains(text, key) {
        assert forall p :: 0 <= p < |found| ==> found[p] in found;
        found := found + [key];
      }
    }
  }

  /**
   * Stability carries over: if ties in `r` follow their order in `s`, and `s`
   * itself runs in `keys` order, ties in `r` follow `keys` order.
   */
  lemma TiesAcrossOrders(text: string, r: seq<string>, s: seq<string>, keys: seq<string>)
    requires AllOccur(text, r)
    requires forall k :: k in r ==> k in s
    requires forall k :: k in s ==> k in keys
    requires TiesFollow(text, r, s)
    requires FirstSeenOrder(keys, s)
    ensures TiesFollow(text, r, keys)
  {
    forall i, j | 0 <= i < j < |r| && Index(text, r[i]) == Index(text, r[j])
      ensures IndexOf(keys, r[i]) < IndexOf(keys, r[j])
    {
      var p, q := IndexOf(s, r[i]), IndexOf(s, r[j]);
      assert p < q;
    }
  }
}
