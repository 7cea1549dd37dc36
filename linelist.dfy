/**
 The value a word's line list stands for: the line numbers held by the
 chain `firstln -> ... -> lastln` of `struct lnode`, read from head to tail.
 The comments of main.c promise that this sequence is strictly ascending and
 free of duplicates; `SortedInsert` is the reference definition of adding
 one line number to such a sequence, against which the pointer code in
 module Xref is proved.
 */
module LineSpec {

  /** Strictly ascending: every earlier line number is below every later one. */
  predicate Ascending(s: seq<int>)
  {
    forall i, j :: 0 <= i < j < |s| ==> s[i] < s[j]
  }

  /** Ordered insertion with deduplication: `ln` lands before the first
      larger value, and is dropped when already present. */
  function SortedInsert(s: seq<int>, ln: int): (r: seq<int>)
    ensures forall x :: x in r <==> x in s || x == ln
    ensures |r| == |s| || |r| == |s| + 1
  {
    if s == [] then [ln]
    else if ln < s[0] then [ln] + s
    else if ln == s[0] then s
    else [s[0]] + SortedInsert(s[1..], ln)
  }

  /** The line list's invariant survives every insertion. */
  lemma {:induction false} SortedInsertAscending(s: seq<int>, ln: int)
    requires Ascending(s)
    ensures Ascending(SortedInsert(s, ln))
  {
    if s != [] && ln > s[0] {
      SortedInsertAscending(s[1..], ln);
      var t := SortedInsert(s[1..], ln);
      forall j | 0 <= j < |t| ensures s[0] < t[j] {
        assert t[j] in t;
      }
    }
  }

  /** A line number already on the list leaves it as it was. */
  lemma {:induction false} SortedInsertPresent(s: seq<int>, ln: int)
    requires Ascending(s) && ln in s
    ensures SortedInsert(s, ln) == s
  {
    if ln != s[0] {
      assert ln in s[1..];
      SortedInsertPresent(s[1..], ln);
    }
  }

  /** A line number above the tail is appended at the tail (the fast path). */
  lemma {:induction false} SortedInsertAppend(s: seq<int>, ln: int)
    requires Ascending(s) && s != [] && s[|s| - 1] < ln
    ensures SortedInsert(s, ln) == s + [ln]
  {
    if |s| > 1 {
      SortedInsertAppend(s[1..], ln);
      assert [s[0]] + (s[1..] + [ln]) == s + [ln];
    }
  }

  /** Values all below `ln` at the front are passed over unchanged. */
  lemma {:induction false} SortedInsertPrefix(a: seq<int>, b: seq<int>, ln: int)
    requires forall i :: 0 <= i < |a| ==> a[i] < ln
    ensures SortedInsert(a + b, ln) == a + SortedInsert(b, ln)
  {
    if a == [] {
      assert a + b == b;
    } else {
      assert (a + b)[0] == a[0];
      assert (a + b)[1..] == a[1..] + b;
      SortedInsertPrefix(a[1..], b, ln);
      assert a + SortedInsert(b, ln) == [a[0]] + (a[1..] + SortedInsert(b, ln));
    }
  }

  /** A line number strictly between `s[k]` and `s[k + 1]` (or above `s[k]`
      when `k` is the tail) is spliced in right after position `k`. */
  lemma SortedInsertAfter(s: seq<int>, k: nat, ln: int)
    requires Ascending(s) && k < |s| && s[k] < ln
    requires k + 1 == |s| || ln < s[k + 1]
    ensures SortedInsert(s, ln) == s[..k + 1] + [ln] + s[k + 1..]
  {
    var front := s[..k + 1];
    forall i | 0 <= i < |front| ensures front[i] < ln {
      assert i < k ==> s[i] < s[k];
    }
    assert s == front + s[k + 1..];
    SortedInsertPrefix(front, s[k + 1..], ln);
  }

  /** Dropping the head of an ascending sequence drops exactly that value. */
  lemma AscendingTail(s: seq<int>, x: int)
    requires Ascending(s) && s != []
    ensures Ascending(s[1..])
    ensures x in s[1..] <==> x in s && x != s[0]
  {
    if x in s[1..] {
      var i :| 0 <= i < |s[1..]| && s[1..][i] == x;
      assert s[0] < s[i + 1];
    }
    if x in s && x != s[0] {
      var i :| 0 <= i < |s| && s[i] == x;
      assert s[1..][i - 1] == x;
    }
  }

  /** An ascending sequence is determined by the set of its values. */
  lemma {:induction false} AscendingDetermined(a: seq<int>, b: seq<int>)
    requires Ascending(a) && Ascending(b)
    requires forall x :: x in a <==> x in b
    ensures a == b
  {
    if a != [] || b != [] {
      assert a != [] && b != [] by {
        if a != [] { assert a[0] in a; }
        if b != [] { assert b[0] in b; }
      }
      assert a[0] in b && b[0] in a;
      assert a[0] == b[0];
      forall x ensures x in a[1..] <==> x in b[1..] {
        AscendingTail(a, x);
        AscendingTail(b, x);
      }
      AscendingTail(a, a[0]);
      AscendingTail(b, b[0]);
      AscendingDetermined(a[1..], b[1..]);
      assert a == [a[0]] + a[1..] && b == [b[0]] + b[1..];
    }
  }

  /** Inserting the same line number twice is the same as inserting it once. */
  lemma SortedInsertIdempotent(s: seq<int>, ln: int)
    requires Ascending(s)
    ensures SortedInsert(SortedInsert(s, ln), ln) == SortedInsert(s, ln)
  {
    SortedInsertAscending(s, ln);
    SortedInsertPresent(SortedInsert(s, ln), ln);
  }

  /** Two insertions give the same list in either order. */
  lemma SortedInsertCommutes(s: seq<int>, a: int, b: int)
    requires Ascending(s)
    ensures SortedInsert(SortedInsert(s, a), b) == SortedInsert(SortedInsert(s, b), a)
  {
    SortedInsertAscending(s, a);
    SortedInsertAscending(s, b);
    SortedInsertAscending(SortedInsert(s, a), b);
    SortedInsertAscending(SortedInsert(s, b), a);
    AscendingDetermined(SortedInsert(SortedInsert(s, a), b), SortedInsert(SortedInsert(s, b), a));
  }

  /** The line list after feeding it the line numbers `xs`, in that order. */
  function InsertAll(s: seq<int>, xs: seq<int>): (r: seq<int>)
    ensures forall x :: x in r <==> x in s || x in xs
    decreases |xs|
  {
    if xs == [] then s
    else
      var r := InsertAll(SortedInsert(s, xs[0]), xs[1..]);
      assert forall x :: x in xs <==> x == xs[0] || x in xs[1..];
      r
  }

  lemma {:induction false} InsertAllAscending(s: seq<int>, xs: seq<int>)
    requires Ascending(s)
    ensures Ascending(InsertAll(s, xs))
    decreases |xs|
  {
    if xs != [] {
      SortedInsertAscending(s, xs[0]);
      InsertAllAscending(SortedInsert(s, xs[0]), xs[1..]);
    }
  }

  /** The final line list depends only on which line numbers were seen, not
      on their order or repetition: an increasing stream (all fast-path
      appends) and any reordering of it (scans and splices) agree. */
  lemma OrderIndependent(s: seq<int>, xs: seq<int>, ys: seq<int>)
    requires Ascending(s)
    requires forall x :: x in xs <==> x in ys
    ensures InsertAll(s, xs) == InsertAll(s, ys)
  {
    InsertAllAscending(s, xs);
    InsertAllAscending(s, ys);
    AscendingDetermined(InsertAll(s, xs), InsertAll(s, ys));
  }

  /** Feeding an ascending stream into an empty list rebuilds that stream. */
  lemma AscendingStreamKept(xs: seq<int>)
    requires Ascending(xs)
    ensures InsertAll([], xs) == xs
  {
    InsertAllAscending([], xs);
    AscendingDetermined(InsertAll([], xs), xs);
  }
}
