/**
 The value a word tree stands for. `Index` mirrors a tree of `struct wnode`
 with each node's line list read as a sequence; `Insert` is the reference
 definition of `addwordandline` with its evident intent (the rebuilt subtree
 is linked back into the parent), against which the pointer code in module
 Xref is proved. Lookup and in-order export are read-only views used to
 state what the tree promises: a binary search tree on `strcmp` order whose
 line lists are ascending and free of duplicates.
 */
module IndexSpec {
  import opened StrOrder
  import opened LineSpec

  datatype Option<T> = None | Some(value: T)

  datatype Index = Leaf | Node(left: Index, word: string, lines: seq<int>, right: Index)

  /** The words held in a tree. */
  function Keys(t: Index): set<string>
  {
    match t
    case Leaf => {}
    case Node(l, w, _, r) => Keys(l) + {w} + Keys(r)
  }

  /** Binary-search-tree order: left words below, right words above. */
  predicate Ordered(t: Index)
  {
    match t
    case Leaf => true
    case Node(l, w, _, r) =>
      Ordered(l) && Ordered(r) &&
      (forall k :: k in Keys(l) ==> Less(k, w)) &&
      (forall k :: k in Keys(r) ==> Less(w, k))
  }

  /** Every line list is non-empty, strictly ascending and duplicate-free. */
  predicate LinesValid(t: Index)
  {
    match t
    case Leaf => true
    case Node(l, _, ls, r) => LinesValid(l) && ls != [] && Ascending(ls) && LinesValid(r)
  }

  /** Adds line `ln` for word `w`: descend by `strcmp`, create a leaf for a
      new word, or add the line to the matching word's list. */
  function Insert(t: Index, w: string, ln: int): (r: Index)
    ensures Keys(r) == Keys(t) + {w}
  {
    match t
    case Leaf => Node(Leaf, w, [ln], Leaf)
    case Node(l, x, ls, rt) =>
      if Compare(w, x) < 0 then Node(Insert(l, w, ln), x, ls, rt)
      else if Compare(w, x) > 0 then Node(l, x, ls, Insert(rt, w, ln))
      else Node(l, x, SortedInsert(ls, ln), rt)
  }

  /** Search by the same comparisons as `Insert`. */
  function Lookup(t: Index, w: string): Option<seq<int>>
  {
    match t
    case Leaf => None
    case Node(l, x, ls, r) =>
      if Compare(w, x) < 0 then Lookup(l, w)
      else if Compare(w, x) > 0 then Lookup(r, w)
      else Some(ls)
  }

  /** The line list recorded for `w`, empty when `w` is absent. */
  function LinesOf(t: Index, w: string): seq<int>
  {
    match Lookup(t, w)
    case None => []
    case Some(ls) => ls
  }

  /** In-order traversal: the report, one entry per word. */
  function Export(t: Index): seq<(string, seq<int>)>
  {
    match t
    case Leaf => []
    case Node(l, w, ls, r) => Export(l) + [(w, ls)] + Export(r)
  }

  /** Same tree shape and same words at the same places; only line lists
      may differ. */
  predicate SameShape(a: Index, b: Index)
  {
    match a
    case Leaf => b == Leaf
    case Node(l, w, _, r) => b.Node? && b.word == w && SameShape(l, b.left) && SameShape(r, b.right)
  }

  /** Insertion keeps the search-tree order. */
  lemma {:induction false} InsertOrdered(t: Index, w: string, ln: int)
    requires Ordered(t)
    ensures Ordered(Insert(t, w, ln))
  {
    match t
    case Leaf =>
    case Node(l, x, ls, r) =>
      CompareFlip(w, x);
      if Compare(w, x) < 0 {
        InsertOrdered(l, w, ln);
      } else if Compare(w, x) > 0 {
        InsertOrdered(r, w, ln);
      }
  }

  /** Insertion keeps every line list ascending and duplicate-free. */
  lemma {:induction false} InsertLinesValid(t: Index, w: string, ln: int)
    requires LinesValid(t)
    ensures LinesValid(Insert(t, w, ln))
  {
    match t
    case Leaf =>
    case Node(l, x, ls, r) =>
      if Compare(w, x) < 0 {
        InsertLinesValid(l, w, ln);
      } else if Compare(w, x) > 0 {
        InsertLinesValid(r, w, ln);
      } else {
        SortedInsertAscending(ls, ln);
      }
  }

  /** A word already in the tree changes no node but its own: the shape and
      the word set stay, and only that word's line list is updated. */
  lemma {:induction false} InsertExistingSameShape(t: Index, w: string, ln: int)
    requires Ordered(t) && w in Keys(t)
    ensures SameShape(t, Insert(t, w, ln))
  {
    match t
    case Node(l, x, ls, r) =>
      CompareFlip(w, x);
      if Compare(w, x) < 0 {
        InsertExistingSameShape(l, w, ln);
        SameShapeRefl(r);
      } else if Compare(w, x) > 0 {
        InsertExistingSameShape(r, w, ln);
        SameShapeRefl(l);
      } else {
        SameShapeRefl(l);
        SameShapeRefl(r);
      }
  }

  lemma {:induction false} SameShapeRefl(t: Index)
    ensures SameShape(t, t)
  {
    match t
    case Leaf =>
    case Node(l, _, _, r) =>
      SameShapeRefl(l);
      SameShapeRefl(r);
  }

  /** In an ordered tree, search finds exactly the words the tree holds. */
  lemma {:induction false} LookupFindsKeys(t: Index, w: string)
    requires Ordered(t)
    ensures Lookup(t, w).Some? <==> w in Keys(t)
  {
    match t
    case Leaf =>
    case Node(l, x, ls, r) =>
      CompareFlip(w, x);
      if Compare(w, x) < 0 {
        LookupFindsKeys(l, w);
      } else if Compare(w, x) > 0 {
        LookupFindsKeys(r, w);
      }
  }

  /** Search after insertion: `w` now carries its old lines plus `ln`;
      every other word keeps its line list. */
  lemma {:induction false} LookupInsert(t: Index, w: string, ln: int, v: string)
    ensures Lookup(Insert(t, w, ln), w).Some?
    ensures LinesOf(Insert(t, w, ln), v) ==
            if v == w then SortedInsert(LinesOf(t, w), ln) else LinesOf(t, v)
  {
    match t
    case Leaf =>
    case Node(l, x, ls, r) =>
      CompareFlip(w, x);
      CompareFlip(v, x);
      if Compare(w, x) < 0 {
        LookupInsert(l, w, ln, v);
      } else if Compare(w, x) > 0 {
        LookupInsert(r, w, ln, v);
      }
  }

  /** A word not yet in an ordered tree gets a node of its own whose line
      list is exactly `[ln]`. */
  lemma InsertNewWord(t: Index, w: string, ln: int)
    requires Ordered(t) && w !in Keys(t)
    ensures LinesOf(Insert(t, w, ln), w) == [ln]
  {
    LookupFindsKeys(t, w);
    LookupInsert(t, w, ln, w);
  }

  /** Every word in the report is a word of the tree. */
  lemma {:induction false} ExportKeys(t: Index)
    ensures forall i :: 0 <= i < |Export(t)| ==> Export(t)[i].0 in Keys(t)
  {
    match t
    case Leaf =>
    case Node(l, x, ls, r) =>
      ExportKeys(l);
      ExportKeys(r);
      var e := Export(t);
      var el := Export(l);
      var er := Export(r);
      assert e == el + [(x, ls)] + er;
      forall i | 0 <= i < |e| ensures e[i].0 in Keys(t) {
        if i < |el| {
          assert e[i] == el[i];
        } else if i > |el| {
          assert e[i] == er[i - |el| - 1];
        }
      }
  }

  /** Every word of the tree appears in the report, at the index returned. */
  lemma {:induction false} ExportIndex(t: Index, k: string) returns (i: int)
    requires k in Keys(t)
    ensures 0 <= i < |Export(t)| && Export(t)[i].0 == k
  {
    match t
    case Node(l, x, ls, r) =>
      var el := Export(l);
      assert Export(t) == el + [(x, ls)] + Export(r);
      if k in Keys(l) {
        i := ExportIndex(l, k);
        assert Export(t)[i] == el[i];
      } else if k == x {
        i := |el|;
      } else {
        assert k in Keys(r);
        var j := ExportIndex(r, k);
        i := |el| + 1 + j;
        assert Export(t)[i] == Export(r)[j];
      }
  }

  /** The report of an ordered tree lists its words in strictly ascending
      `strcmp` order. */
  lemma {:induction false} ExportSorted(t: Index)
    requires Ordered(t)
    ensures forall i, j :: 0 <= i < j < |Export(t)| ==> Less(Export(t)[i].0, Export(t)[j].0)
  {
    match t
    case Leaf =>
    case Node(l, x, ls, r) =>
      ExportSorted(l);
      ExportSorted(r);
      ExportKeys(l);
      ExportKeys(r);
      var e := Export(t);
      var el := Export(l);
      var er := Export(r);
      assert e == el + [(x, ls)] + er;
      forall i, j | 0 <= i < j < |e| ensures Less(e[i].0, e[j].0) {
        if j < |el| {
          assert e[i] == el[i] && e[j] == el[j];
        } else if i > |el| {
          assert e[i] == er[i - |el| - 1] && e[j] == er[j - |el| - 1];
        } else if i == |el| {
          assert e[j] == er[j - |el| - 1];
        } else if j == |el| {
          assert e[i] == el[i];
        } else {
          assert e[i] == el[i] && e[j] == er[j - |el| - 1];
          LessTransitive(e[i].0, x, e[j].0);
        }
      }
  }

  /** Every line list in the report is non-empty, strictly ascending and
      duplicate-free. */
  lemma {:induction false} ExportLinesValid(t: Index)
    requires LinesValid(t)
    ensures forall i :: 0 <= i < |Export(t)| ==> Export(t)[i].1 != [] && Ascending(Export(t)[i].1)
  {
    match t
    case Leaf =>
    case Node(l, x, ls, r) =>
      ExportLinesValid(l);
      ExportLinesValid(r);
      var e := Export(t);
      var el := Export(l);
      var er := Export(r);
      assert e == el + [(x, ls)] + er;
      forall i | 0 <= i < |e| ensures e[i].1 != [] && Ascending(e[i].1) {
        if i < |el| {
          assert e[i] == el[i];
        } else if i > |el| {
          assert e[i] == er[i - |el| - 1];
        }
      }
  }
}
