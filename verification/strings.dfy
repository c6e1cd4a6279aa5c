/**
 * String and sequence primitives that the three services rely on: Python's
 * `str.find` / `in` / `str.index` (substring search), `str.strip()`,
 * `str.join`, and the position of an element in a sequence, which states
 * iteration order.
 */
module Strings {

  /** No element occurs twice (the keys of a dict, in iteration order). */
  predicate Distinct<T(==)>(s: seq<T>) {
    forall i, j :: 0 <= i < j < |s| ==> s[i] != s[j]
  }

  /** Position of the first occurrence of `x` in `s`, used to state iteration order. */
  function IndexOf<T(==)>(s: seq<T>, x: T): (i: nat)
    requires x in s
    ensures i < |s| && s[i] == x && x !in s[..i]
  {
    if s[0] == x then 0
    else
      var j := IndexOf(s[1..], x);
      assert s[..1 + j] == [s[0]] + s[1..][..j];
      1 + j
  }

  /** The first position is the only position `i` with `s[i] == x` and no earlier `x`. */
  lemma IndexOfUnique<T>(s: seq<T>, x: T, i: nat)
    requires i < |s| && s[i] == x && x !in s[..i]
    ensures IndexOf(s, x) == i
  {
  }

  /** Extending a sequence at its end does not move the first occurrence of an element already there. */
  lemma IndexOfPrefix<T>(s: seq<T>, t: seq<T>, x: T)
    requires x in s
    ensures IndexOf(s + t, x) == IndexOf(s, x)
  {
    var i := IndexOf(s, x);
    assert (s + t)[..i] == s[..i];
    IndexOfUnique(s + t, x, i);
  }

  /** In a sequence without repetitions, the first position of `s[i]` is `i`. */
  lemma IndexOfDistinct<T>(s: seq<T>, i: nat)
    requires Distinct(s) && i < |s|
    ensures IndexOf(s, s[i]) == i
  {
    assert s[i] !in s[..i] by {
      forall j | 0 <= j < i ensures s[..i][j] != s[i] {
        assert s[..i][j] == s[j];
      }
    }
    IndexOfUnique(s, s[i], i);
  }

  /** A sequence without repetitions has as many distinct elements as it is long. */
  lemma {:induction false} DistinctCardinality<T>(s: seq<T>)
    requires Distinct(s)
    ensures |set x | x in s| == |s|
  {
    if s != [] {
      var init, last := s[..|s| - 1], s[|s| - 1];
      assert s == init + [last];
      assert Distinct(init);
      DistinctCardinality(init);
      assert last !in init by {
        forall j | 0 <= j < |init| ensures init[j] != last {
          assert init[j] == s[j];
        }
      }
      assert (set x | x in s) == (set x | x in init) + {last};
    }
  }

  /** Every element of `order` is in `keys`, and `order` lists them by their first position in `keys`. */
  predicate FirstSeenOrder(keys: seq<string>, order: seq<string>)
  {
    forall i, j :: 0 <= i < j < |order| ==>
      order[i] in keys && order[j] in keys && IndexOf(keys, order[i]) < IndexOf(keys, order[j])
  }

  /** Visiting one more key keeps the order. */
  lemma FirstSeenOrderStep(init: seq<string>, k: string, order: seq<string>)
    requires forall x :: x in order ==> x in init
    requires FirstSeenOrder(init, order)
    ensures FirstSeenOrder(init + [k], order)
  {
    forall x | x in init ensures IndexOf(init + [k], x) == IndexOf(init, x) {
      IndexOfPrefix(init, [k], x);
    }
  }

  /** A key seen for the first time goes last. */
  lemma FirstSeenOrderAppend(init: seq<string>, k: string, order: seq<string>)
    requires forall x :: x in order ==> x in init
    requires FirstSeenOrder(init, order)
    requires k !in init
    ensures FirstSeenOrder(init + [k], order + [k])
  {
    var keys := init + [k];
    FirstSeenOrderStep(init, k, order);
    assert keys[..|init|] == init;
    IndexOfUnique(keys, k, |init|);
    forall x | x in order ensures IndexOf(keys, x) < |init| {
      IndexOfPrefix(init, [k], x);
    }
    var order' := order + [k];
    forall i, j | 0 <= i < j < |order'|
      ensures order'[i] in keys && order'[j] in keys && IndexOf(keys, order'[i]) < IndexOf(keys, order'[j])
    {
      if j == |order| {
        assert order'[i] in order;
      } else {
        assert order'[i] == order[i] && order'[j] == order[j];
      }
    }
  }

  /** A sequence listed by first position repeats nothing. */
  lemma FirstSeenOrderDistinct(keys: seq<string>, order: seq<string>)
    requires FirstSeenOrder(keys, order)
    ensures Distinct(order)
  {
    forall i, j | 0 <= i < j < |order| ensures order[i] != order[j] {
      assert order[i] in keys && order[j] in keys && IndexOf(keys, order[i]) < IndexOf(keys, order[j]);
    }
  }

  /** `"sep".join(parts)`. */
  function Join(parts: seq<string>, sep: string): string
  {
    if |parts| == 0 then ""
    else if |parts| == 1 then parts[0]
    else parts[0] + sep + Join(parts[1..], sep)
  }

  /** A part followed by at least one more part is rendered as that part and a separator. */
  lemma JoinCons(p: string, rest: seq<string>, sep: string)
    requires |rest| > 0
    ensures Join([p] + rest, sep) == p + sep + Join(rest, sep)
  {
    assert ([p] + rest)[1..] == rest;
  }

  /** Every part occurs in the joined string. */
  lemma {:induction false} JoinContainsParts(parts: seq<string>, sep: string)
    ensures forall i :: 0 <= i < |parts| ==> Occurs(parts[i], Join(parts, sep))
  {
    if |parts| == 1 {
      assert StartsAt(parts[0], parts[0], 0);
    } else if |parts| > 1 {
      var rest := Join(parts[1..], sep);
      JoinContainsParts(parts[1..], sep);
      forall i | 0 <= i < |parts| ensures Occurs(parts[i], Join(parts, sep)) {
        if i == 0 {
          assert StartsAt(parts[0] + sep + rest, parts[0], 0);
        } else {
          assert parts[i] == parts[1..][i - 1];
          OccursAfter(parts[0] + sep, rest, parts[i]);
        }
      }
    }
  }

  /** A string that occurs in `b` occurs in `a + b`. */
  lemma OccursAfter(a: string, b: string, k: string)
    requires Occurs(k, b)
    ensures Occurs(k, a + b)
  {
    var i: nat :| i <= |b| && StartsAt(b, k, i);
    assert (a + b)[|a| + i..|a| + i + |k|] == b[i..i + |k|];
    assert StartsAt(a + b, k, |a| + i);
  }

  // ---------------------------------------------------------------------
  // Substring search: `k in text`, `text.find(k, start)`, `text.index(k)`
  // ---------------------------------------------------------------------

  /** `k` occurs in `text` starting at offset `i`. */
  predicate StartsAt(text: string, k: string, i: nat) {
    i + |k| <= |text| && text[i..i + |k|] == k
  }

  /** `k` is a contiguous (case-sensitive) substring of `text`; the empty string occurs everywhere. */
  predicate Occurs(k: string, text: string) {
    exists i: nat :: i <= |text| && StartsAt(text, k, i)
  }

  /** A string occurs in any concatenation it is the middle of, right after the first part. */
  lemma Middle(a: string, b: string, c: string)
    ensures StartsAt(a + b + c, b, |a|)
  {
    assert (a + b + c)[|a|..|a| + |b|] == b;
  }

  /** `text.find(k, start)`: the least offset at or after `start` where `k` occurs, or -1. */
  function Find(text: string, k: string, start: nat): (r: int)
    ensures r == -1 <==> forall i: nat :: start <= i ==> !StartsAt(text, k, i)
    ensures r != -1 ==> start <= r && StartsAt(text, k, r)
    ensures r != -1 ==> forall i: nat :: start <= i < r ==> !StartsAt(text, k, i)
    decreases |text| - start
  {
    if start + |k| > |text| then -1
    else if text[start..start + |k|] == k then assert StartsAt(text, k, start); start
    else Find(text, k, start + 1)
  }

  /** `k in text` for strings. */
  function Contains(text: string, k: string): (b: bool)
    ensures b <==> Occurs(k, text)
  {
    Find(text, k, 0) != -1
  }

  /** `text.index(k)`: the offset of the first occurrence of `k`; Python raises when there is none. */
  function Index(text: string, k: string): (i: nat)
    requires Occurs(k, text)
    ensures StartsAt(text, k, i)
    ensures forall j: nat :: j < i ==> !StartsAt(text, k, j)
  {
    Find(text, k, 0)
  }

  // ---------------------------------------------------------------------
  // Whitespace trimming: `s.strip()`
  // ---------------------------------------------------------------------

  /** The characters for which Python's `str.isspace()` holds. */
  predicate IsSpace(c: char) {
    || c == ' ' || c == '\t' || c == '\n' || c == '\r'
    || c == '\U{000B}' || c == '\U{000C}'
    || ('\U{001C}' <= c <= '\U{001F}')
    || c == '\U{0085}' || c == '\U{00A0}' || c == '\U{1680}'
    || ('\U{2000}' <= c <= '\U{200A}')
    || c == '\U{2028}' || c == '\U{2029}' || c == '\U{202F}' || c == '\U{205F}' || c == '\U{3000}'
  }

  /** Every character is whitespace (this includes the empty string). */
  predicate Blank(s: string) {
    forall i :: 0 <= i < |s| ==> IsSpace(s[i])
  }

  /** `s.lstrip()`: drops leading whitespace. */
  function TrimStart(s: string): (r: string)
    ensures |r| <= |s|
  {
    if |s| > 0 && IsSpace(s[0]) then TrimStart(s[1..]) else s
  }

  /** `s.rstrip()`: drops trailing whitespace. */
  function TrimEnd(s: string): (r: string)
    ensures |r| <= |s|
  {
    if |s| > 0 && IsSpace(s[|s| - 1]) then TrimEnd(s[..|s| - 1]) else s
  }

  /** `s.lstrip()` leaves the suffix of `s` that starts at its first non-whitespace character. */
  lemma {:induction false} TrimStartSpec(s: string)
    ensures var r := TrimStart(s);
      && |r| <= |s| && r == s[|s| - |r|..]
      && (r == [] || !IsSpace(r[0]))
      && (forall i :: 0 <= i < |s| - |r| ==> IsSpace(s[i]))
  {
    if |s| > 0 && IsSpace(s[0]) {
      TrimStartSpec(s[1..]);
      var r := TrimStart(s[1..]);
      assert s[1..][|s| - 1 - |r|..] == s[|s| - |r|..];
      forall i | 0 <= i < |s| - |r| ensures IsSpace(s[i]) {
        if i > 0 {
          assert s[i] == s[1..][i - 1];
        }
      }
    }
  }

  /** `s.rstrip()` leaves the prefix of `s` that ends at its last non-whitespace character. */
  lemma {:induction false} TrimEndSpec(s: string)
    ensures var r := TrimEnd(s);
      && |r| <= |s| && r == s[..|r|]
      && (r == [] || !IsSpace(r[|r| - 1]))
      && (forall i :: |r| <= i < |s| ==> IsSpace(s[i]))
  {
    if |s| > 0 && IsSpace(s[|s| - 1]) {
      TrimEndSpec(s[..|s| - 1]);
      var r := TrimEnd(s[..|s| - 1]);
      assert s[..|s| - 1][..|r|] == s[..|r|];
      forall i | |r| <= i < |s| ensures IsSpace(s[i]) {
        if i < |s| - 1 {
          assert s[i] == s[..|s| - 1][i];
        }
      }
    }
  }

  /** `s.strip()`. */
  function Strip(s: string): string
  {
    TrimEnd(TrimStart(s))
  }

  /** The stripped string is the piece of `s` that starts where the leading whitespace ends. */
  lemma StripIsSlice(s: string)
    ensures StartsAt(s, Strip(s), |s| - |TrimStart(s)|)
  {
    var t := TrimStart(s);
    var r := TrimEnd(t);
    var a := |s| - |t|;
    TrimStartSpec(s);
    TrimEndSpec(t);
    SliceOfSuffix(s, a, |r|);
  }

  /** A prefix of a suffix is a middle slice. */
  lemma SliceOfSuffix<T>(s: seq<T>, a: nat, m: nat)
    requires a + m <= |s|
    ensures s[a..][..m] == s[a..a + m]
  {
  }

  /** Stripping leaves nothing exactly when every character is whitespace. */
  lemma StripEmptyIffBlank(s: string)
    ensures Strip(s) == [] <==> Blank(s)
  {
    var t := TrimStart(s);
    TrimStartSpec(s);
    TrimEndSpec(t);
  }

  /** A non-empty stripped string neither starts nor ends with whitespace. */
  lemma StripEnds(s: string)
    ensures var r := Strip(s);
      r != [] ==> !IsSpace(r[0]) && !IsSpace(r[|r| - 1])
  {
    var t := TrimStart(s);
    var r := TrimEnd(t);
    TrimStartSpec(s);
    TrimEndSpec(t);
    if r != [] {
      assert r[0] == t[0];
    }
  }

  /**
   * What stripping promises: the result is a piece of `s` that neither starts
   * nor ends with whitespace, everything cut off is whitespace, and it is empty
   * exactly when `s` is blank.
   */
  lemma StripSpec(s: string)
    ensures var r, a := Strip(s), |s| - |TrimStart(s)|;
      && StartsAt(s, r, a)
      && (forall i :: 0 <= i < a ==> IsSpace(s[i]))
      && (forall i :: a + |r| <= i < |s| ==> IsSpace(s[i]))
      && (r == [] <==> Blank(s))
      && (r != [] ==> !IsSpace(r[0]) && !IsSpace(r[|r| - 1]))
  {
    StripIsSlice(s);
    StripCutIsSpace(s);
    StripEmptyIffBlank(s);
    StripEnds(s);
  }

  /** What stripping cuts off, before and after the piece it keeps, is whitespace. */
  lemma StripCutIsSpace(s: string)
    ensures var r, a := Strip(s), |s| - |TrimStart(s)|;
      && (forall i :: 0 <= i < a ==> IsSpace(s[i]))
      && (forall i :: a + |r| <= i < |s| ==> IsSpace(s[i]))
  {
    var t := TrimStart(s);
    var r := TrimEnd(t);
    var a := |s| - |t|;
    TrimStartSpec(s);
    TrimEndSpec(t);
    forall i | a + |r| <= i < |s| ensures IsSpace(s[i]) {
      assert s[i] == t[i - a];
    }
  }

  /** Stripping twice is stripping once. */
  lemma StripIdempotent(s: string)
    ensures Strip(Strip(s)) == Strip(s)
  {
    var r := Strip(s);
    StripSpec(s);
    if r != [] {
      assert TrimStart(r) == r;
      assert TrimEnd(r) == r;
    }
  }

  /** Stripping a string that is not blank leaves a string that is not blank and that stripping leaves alone. */
  lemma StrippedIsClean(s: string)
    requires !Blank(s)
    ensures !Blank(Strip(s)) && Strip(Strip(s)) == Strip(s)
  {
    StripEmptyIffBlank(s);
    StripIdempotent(s);
    StripEmptyIffBlank(Strip(s));
  }
}
