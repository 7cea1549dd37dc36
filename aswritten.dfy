/**
 What `addlnode` and `addwordandline` of main.c do as written, stated on the
 values of module IndexSpec, next to the corrected behaviour that module Xref
 implements. Each discrepancy is shown by a general lemma and by one concrete
 input.

 The tail bookmark is taken to be the last node of the list here; the source
 never sets it when a word node is created (main.c:113-120), so on a fresh
 node the first comparison at main.c:137 reads an uninitialised pointer.
 */
module AsWritten {
  import opened StrOrder
  import opened LineSpec
  import opened IndexSpec

  /** How the scan of `addlnode` ends: returning the node it stands on
      (`Hit`), or leaving the loop there and calling `insertlnode` (`After`). */
  datatype ScanEnd = Hit(at: nat) | After(at: nat)

  /** The loop of `addlnode` over the line numbers `s`, standing at
      position `k`: it walks on while the next number is below `ln`, and
      returns early when the number it stands on equals `ln`. */
  function Scan(s: seq<int>, k: nat, ln: int): (e: ScanEnd)
    requires k < |s|
    ensures k <= e.at < |s|
    ensures e.Hit? ==> s[e.at] == ln
    decreases |s| - k
  {
    if k + 1 < |s| && ln > s[k + 1] then
      if ln == s[k] then Hit(k) else Scan(s, k + 1, ln)
    else After(k)
  }

  /** `addlnode` as written, on the line numbers of a word's list: append
      above the tail, nothing for the tail itself, and otherwise the scan,
      whose stop node gets the new number after it. */
  function AddLNodeAsWritten(s: seq<int>, ln: int): (r: seq<int>)
    requires s != []
    ensures forall x :: x in r <==> x in s || x == ln
    ensures |s| <= |r| <= |s| + 1
  {
    if ln > s[|s| - 1] then s + [ln]
    else if ln < s[|s| - 1] then
      match Scan(s, 0, ln)
      case Hit(_) => s
      case After(k) =>
        var r := s[..k + 1] + [ln] + s[k + 1..];
        assert s == s[..k + 1] + s[k + 1..];
        r
    else s
  }

  /** On an ascending list the early return never fires: the scan stops on
      the last position from `k` on whose successor is not below `ln`. */
  lemma {:induction false} ScanAscending(s: seq<int>, k: nat, ln: int)
    requires Ascending(s) && k < |s|
    ensures Scan(s, k, ln).After?
    ensures var j := Scan(s, k, ln).at;
            (j == k || s[j] < ln) && (j + 1 == |s| || ln <= s[j + 1])
    ensures ln <= s[k] ==> Scan(s, k, ln).at == k
    decreases |s| - k
  {
    if k + 1 < |s| && ln > s[k + 1] {
      assert s[k] < s[k + 1];
      ScanAscending(s, k + 1, ln);
    }
  }

  /** Below the tail of an ascending list, the code as written splices the
      number in after the scan's stop node `j`: the last node from the head
      on whose successor is not below `ln`. */
  lemma AsWrittenSplicesAt(s: seq<int>, ln: int) returns (j: nat)
    requires s != [] && Ascending(s) && ln < s[|s| - 1]
    ensures j < |s| && AddLNodeAsWritten(s, ln) == s[..j + 1] + [ln] + s[j + 1..]
    ensures (j == 0 || s[j] < ln) && (j + 1 == |s| || ln <= s[j + 1])
    ensures ln <= s[0] ==> j == 0
  {
    ScanAscending(s, 0, ln);
    j := Scan(s, 0, ln).at;
  }

  /** Where the source is right: a number not yet on an ascending list and
      above its head lands where the corrected insertion puts it. */
  lemma AsWrittenAgrees(s: seq<int>, ln: int)
    requires s != [] && Ascending(s) && ln !in s && s[0] < ln
    ensures AddLNodeAsWritten(s, ln) == SortedInsert(s, ln)
  {
    if ln > s[|s| - 1] {
      SortedInsertAppend(s, ln);
    } else {
      assert ln != s[|s| - 1];
      var j := AsWrittenSplicesAt(s, ln);
      assert j + 1 < |s|;
      assert s[j + 1] != ln;
      SortedInsertAfter(s, j, ln);
    }
  }

  /** A number already on an ascending list, below its tail, is inserted a
      second time, so the list is no longer strictly ascending; the
      corrected insertion leaves the list as it was. */
  lemma AsWrittenDuplicates(s: seq<int>, ln: int)
    requires s != [] && Ascending(s) && ln in s && ln < s[|s| - 1]
    ensures |AddLNodeAsWritten(s, ln)| == |s| + 1
    ensures !Ascending(AddLNodeAsWritten(s, ln))
    ensures SortedInsert(s, ln) == s
  {
    SortedInsertPresent(s, ln);
    var j := AsWrittenSplicesAt(s, ln);
    var i :| 0 <= i < |s| && s[i] == ln;
    SpliceRepeats(s, j, ln, i);
  }

  /** Splicing in a number the sequence already holds repeats it. */
  lemma SpliceRepeats(s: seq<int>, j: nat, ln: int, i: nat)
    requires j < |s| && i < |s| && s[i] == ln
    ensures !Ascending(s[..j + 1] + [ln] + s[j + 1..])
  {
    var r := s[..j + 1] + [ln] + s[j + 1..];
    if i <= j {
      assert r[i] == ln && r[j + 1] == ln;
    } else {
      assert r[i + 1] == ln && r[j + 1] == ln;
    }
  }

  /** A number below the head of an ascending list goes in after the head
      instead of before it, which breaks the order. */
  lemma AsWrittenHeadMisorder(s: seq<int>, ln: int)
    requires s != [] && Ascending(s) && ln < s[0]
    ensures AddLNodeAsWritten(s, ln) == [s[0], ln] + s[1..]
    ensures !Ascending(AddLNodeAsWritten(s, ln))
    ensures SortedInsert(s, ln) == [ln] + s
  {
    assert SortedInsert(s, ln) == [ln] + s;
    assert ln < s[|s| - 1] by {
      if |s| > 1 { assert s[0] < s[|s| - 1]; }
    }
    var j := AsWrittenSplicesAt(s, ln);
    assert s[..1] + [ln] + s[1..] == [s[0], ln] + s[1..];
    var r := AddLNodeAsWritten(s, ln);
    assert r[0] == s[0] && r[1] == ln;
    DescentBreaksOrder(r, 0, 1);
  }

  /** A sequence with a later value not above an earlier one is not
      strictly ascending. */
  lemma DescentBreaksOrder(r: seq<int>, i: nat, j: nat)
    requires i < j < |r| && r[j] <= r[i]
    ensures !Ascending(r)
  {
  }

  /** Every line list of a tree is non-empty, as `addwordandline` creates
      each word node with one list node. */
  predicate Populated(t: Index)
  {
    match t
    case Leaf => true
    case Node(l, _, ls, r) => Populated(l) && ls != [] && Populated(r)
  }

  /** The tree reachable from the `node` argument once `addwordandline` as
      written returns. The recursive calls drop their result, so a new word
      node built below an existing node is reachable from nowhere; only an
      existing word's list changes, in place. A null argument stays null:
      there the new node is reachable only through the return value. */
  function ReachableAfter(t: Index, w: string, ln: int): (r: Index)
    requires Populated(t)
    ensures Keys(r) == Keys(t) && SameShape(t, r) && Populated(r)
  {
    match t
    case Leaf => Leaf
    case Node(l, x, ls, rt) =>
      if Compare(w, x) < 0 then
        SameShapeRefl(rt);
        Node(ReachableAfter(l, w, ln), x, ls, rt)
      else if Compare(w, x) > 0 then
        SameShapeRefl(l);
        Node(l, x, ls, ReachableAfter(rt, w, ln))
      else
        SameShapeRefl(l);
        SameShapeRefl(rt);
        Node(l, x, AddLNodeAsWritten(ls, ln), rt)
  }

  /** A word not yet in a non-empty tree is lost by the code as written,
      while the corrected insertion adds it. (On an empty tree the source
      returns the new node, which a caller can keep.) */
  lemma AsWrittenLosesWord(t: Index, w: string, ln: int)
    requires t.Node? && Populated(t) && w !in Keys(t)
    ensures w !in Keys(ReachableAfter(t, w, ln))
    ensures w in Keys(Insert(t, w, ln))
  {
  }

  /** The three discrepancies on concrete inputs. */
  lemma AsWrittenExamples()
    ensures AddLNodeAsWritten([1, 3, 5], 3) == [1, 3, 3, 5] && SortedInsert([1, 3, 5], 3) == [1, 3, 5]
    ensures AddLNodeAsWritten([2, 5], 1) == [2, 1, 5] && SortedInsert([2, 5], 1) == [1, 2, 5]
    ensures ReachableAfter(Node(Leaf, "cat", [1], Leaf), "dog", 2) == Node(Leaf, "cat", [1], Leaf)
    ensures Insert(Node(Leaf, "cat", [1], Leaf), "dog", 2) == Node(Leaf, "cat", [1], Node(Leaf, "dog", [2], Leaf))
  {
    assert Compare("dog", "cat") == 1;
    assert Scan([1, 3, 5], 0, 3) == After(0);
    assert [1, 3, 5][..1] + [3] + [1, 3, 5][1..] == [1, 3, 3, 5];
    assert Scan([2, 5], 0, 1) == After(0);
    assert [2, 5][..1] + [1] + [2, 5][1..] == [2, 1, 5];
  }
}
