/**
 The cross-reference index as the pointer structure of main.c: a binary
 search tree of word nodes (`struct wnode`), each owning a singly linked list
 of line-number nodes (`struct lnode`) with a bookmark on its tail.

 The classes carry exactly the fields of the C structs. How the objects hang
 together is described by a ghost `Shape` passed alongside the pointers: the
 tree of word nodes, and for each word node the sequence of its list nodes
 from head to tail. `Rep` ties the heap to a shape, and `Abs` reads the
 shape as an `IndexSpec.Index`, against which every operation is proved.

 The code follows the evident intent of main.c where the source is
 unfinished: `lastln` starts at the first node, a line below the head becomes
 the new head, the scan deduplicates against the node it stops on and its
 successor, the recursive insertion links the returned subtree into its
 parent, and both functions return the node they promise.
 */
module Xref {
  import opened StrOrder
  import opened LineSpec
  import opened IndexSpec

  /** `struct lnode`: one line number and the link to the next node. The
      number is fixed when the node is created. */
  class LNode {
    const lnum: int
    var next: LNode?

    constructor (ln: int, nxt: LNode?)
      ensures lnum == ln && next == nxt
    {
      lnum := ln;
      next := nxt;
    }
  }

  /** `struct wnode`: a word, its line list with a tail bookmark, and the
      two subtrees. */
  class WNode {
    const word: string
    var firstln: LNode
    var lastln: LNode
    var left: WNode?
    var right: WNode?

    /** The node for a word seen for the first time: one list node holding
        `ln`, which is both the head and the tail bookmark, and no children. */
    constructor (w: string, ln: int)
      ensures word == w && left == null && right == null
      ensures firstln == lastln && firstln.lnum == ln && firstln.next == null && fresh(firstln)
    {
      word := w;
      var first := new LNode(ln, null);
      firstln := first;
      lastln := first;
      left := null;
      right := null;
    }
  }

  /** The line numbers held by a sequence of list nodes. */
  function Lines(list: seq<LNode>): seq<int>
  {
    seq(|list|, i requires 0 <= i < |list| => list[i].lnum)
  }

  /** The list invariant of a word node: `list` is its chain from `firstln`
      to `lastln`, and the numbers along it are strictly ascending. */
  ghost predicate Chain(node: WNode, list: seq<LNode>)
    reads node, list
  {
    Linked(node, list) && Ascending(Lines(list))
  }

  ghost predicate Linked(node: WNode, list: seq<LNode>)
    reads node, list
  {
    |list| > 0 && list[0] == node.firstln && list[|list| - 1] == node.lastln && Links(list)
  }

  /** Each node links to the next one and the last links to null. */
  ghost predicate Links(list: seq<LNode>)
    reads list
  {
    |list| > 0 && list[|list| - 1].next == null &&
    (forall i :: 0 <= i < |list| - 1 ==> list[i].next == list[i + 1])
  }

  /** Nodes at different places of an ascending list are different objects. */
  lemma DistinctNodes(list: seq<LNode>, i: int, j: int)
    requires Ascending(Lines(list)) && 0 <= i < |list| && 0 <= j < |list| && i != j
    ensures list[i] != list[j]
  {
    if i < j {
      assert Lines(list)[i] < Lines(list)[j];
    } else {
      assert Lines(list)[j] < Lines(list)[i];
    }
  }

  /** A chain whose only broken link is `list[k] -> nw -> list[k + 1]` is
      the chain with `nw` between positions `k` and `k + 1`. */
  lemma SpliceLinks(list: seq<LNode>, k: nat, nw: LNode)
    requires k + 1 < |list| && list[|list| - 1].next == null
    requires list[k].next == nw && nw.next == list[k + 1]
    requires forall i :: 0 <= i < |list| - 1 && i != k ==> list[i].next == list[i + 1]
    ensures Links(list[..k + 1] + [nw] + list[k + 1..])
  {
    var list' := list[..k + 1] + [nw] + list[k + 1..];
    forall i | 0 <= i < |list'| - 1 ensures list'[i].next == list'[i + 1] {
      if i < k {
        assert list'[i] == list[i] && list'[i + 1] == list[i + 1];
      } else if i == k + 1 {
        assert list'[i + 1] == list[k + 1];
      } else if i > k + 1 {
        assert list'[i] == list[i - 1] && list'[i + 1] == list[i];
      }
    }
  }

  /** `insertlnode`: a new node holding `ln` goes right after `prevnode` and
      takes over its old successor. */
  method InsertLNode(prevnode: LNode, ln: int)
    modifies prevnode
    ensures prevnode.next != null && fresh(prevnode.next)
    ensures prevnode.next.lnum == ln && prevnode.next.next == old(prevnode.next)
  {
    var newnode := new LNode(ln, prevnode.next);
    prevnode.next := newnode;
  }

  /** The list nodes as a set of objects. */
  function Elems(list: seq<LNode>): set<object>
  {
    set x | x in list
  }

  /** `addlnode`: record line `ln` for the word of `node` and return the list
      node that holds it. A line above the tail is appended; a line below it
      is placed by `ScanLNode`; a line equal to the tail is already there. The
      list becomes `SortedInsert` of the old one, the invariant is kept, and a
      line already present changes nothing. */
  method AddLNode(node: WNode, ln: int, ghost list: seq<LNode>) returns (found: LNode, ghost list': seq<LNode>)
    requires Chain(node, list)
    modifies node`firstln, node`lastln, list
    ensures Chain(node, list') && Lines(list') == SortedInsert(Lines(list), ln)
    ensures found in list' && found.lnum == ln
    ensures fresh(Elems(list') - Elems(list))
    ensures ln in Lines(list) ==>
              list' == list && unchanged(list) && node.firstln == old(node.firstln) && node.lastln == old(node.lastln)
    ensures Lines(list)[|list| - 1] < ln ==> list' == list + [found] && node.lastln == found
    ensures ln <= Lines(list)[|list| - 1] ==> node.lastln == old(node.lastln)
    ensures Elems(list) <= Elems(list')
  {
    if ln > node.lastln.lnum {
      assert ln !in Lines(list) by {
        forall i | 0 <= i < |list| ensures Lines(list)[i] < ln {
          assert i < |list| - 1 ==> Lines(list)[i] < Lines(list)[|list| - 1];
        }
      }
      found, list' := AppendLNode(node, ln, list);
    } else if ln < node.lastln.lnum {
      found, list' := ScanLNode(node, ln, list);
    } else {
      found := node.lastln;
      assert Lines(list)[|list| - 1] == ln;
      list' := list;
      SortedInsertPresent(Lines(list), ln);
    }
  }

  /** The fast path of `addlnode`: a new node after the tail, which becomes
      the new bookmark. */
  method AppendLNode(node: WNode, ln: int, ghost list: seq<LNode>) returns (found: LNode, ghost list': seq<LNode>)
    requires Chain(node, list) && node.lastln.lnum < ln
    modifies node`lastln, node.lastln
    ensures Chain(node, list') && Lines(list') == SortedInsert(Lines(list), ln)
    ensures list' == list + [found] && fresh(found) && found.lnum == ln && node.lastln == found
  {
    var newlnode := new LNode(ln, null);
    node.lastln.next := newlnode;
    node.lastln := newlnode;
    SortedInsertAppend(Lines(list), ln);
    SortedInsertAscending(Lines(list), ln);
    list' := list + [newlnode];
    found := newlnode;
    assert Lines(list') == Lines(list) + [ln];
    forall i | 0 <= i < |list'| - 1 ensures list'[i].next == list'[i + 1] {
      if i < |list| - 1 {
        assert Lines(list)[i] < Lines(list)[|list| - 1];
      }
    }
  }

  /** A line below the head becomes the new head. */
  method PrependLNode(node: WNode, ln: int, ghost list: seq<LNode>) returns (found: LNode, ghost list': seq<LNode>)
    requires Chain(node, list) && ln < node.firstln.lnum
    modifies node`firstln
    ensures Chain(node, list') && Lines(list') == SortedInsert(Lines(list), ln)
    ensures list' == [found] + list && fresh(found) && found.lnum == ln && node.firstln == found
  {
    var newlnode := new LNode(ln, node.firstln);
    node.firstln := newlnode;
    list' := [newlnode] + list;
    found := newlnode;
    assert Lines(list') == [ln] + Lines(list);
    SortedInsertAscending(Lines(list), ln);
  }

  /** The scan of `addlnode`: walk from the head while the next node's line
      is still below `ln`. It stops on the last node whose line is below
      `ln`, or on the head. The source also tests `ln == line->lnum` inside the loop; on an
      ascending list that test never holds (the node stood on is below its
      successor, which is below `ln`), so it is left out here. */
  method FindPrev(node: WNode, ln: int, ghost list: seq<LNode>) returns (line: LNode, ghost k: nat)
    requires Chain(node, list) && node.firstln.lnum <= ln
    ensures k < |list| && line == list[k] && line.lnum <= ln
    ensures forall i :: 0 < i <= k ==> list[i].lnum < ln
    ensures k + 1 == |list| || ln <= list[k + 1].lnum
  {
    line := node.firstln;
    k := 0;
    while line.next != null && ln > line.next.lnum
      invariant 0 <= k < |list| && line == list[k] && line.lnum <= ln
      invariant forall i :: 0 < i <= k ==> list[i].lnum < ln
      decreases |list| - k
    {
      line := line.next;
      k := k + 1;
    }
  }

  /** `ln` lies strictly between `list[k]` and its successor: `insertlnode`
      splices it in there. */
  method SpliceLNode(node: WNode, ln: int, ghost list: seq<LNode>, line: LNode, ghost k: nat)
    returns (found: LNode, ghost list': seq<LNode>)
    requires Chain(node, list) && k + 1 < |list| && line == list[k]
    requires line.lnum < ln < list[k + 1].lnum
    modifies line
    ensures Chain(node, list') && Lines(list') == SortedInsert(Lines(list), ln)
    ensures list' == list[..k + 1] + [found] + list[k + 1..] && fresh(found) && found.lnum == ln
    ensures ln !in Lines(list)
  {
    InsertLNode(line, ln);
    found := line.next;
    SortedInsertAfter(Lines(list), k, ln);
    SortedInsertAscending(Lines(list), ln);
    list' := list[..k + 1] + [found] + list[k + 1..];
    assert Lines(list') == Lines(list)[..k + 1] + [ln] + Lines(list)[k + 1..];
    forall i | 0 <= i < |list| && i != k ensures list[i].next == old(list[i].next) {
      DistinctNodes(list, i, k);
    }
    SpliceLinks(list, k, found);
    assert ln !in Lines(list) by {
      forall i | 0 <= i < |list| ensures Lines(list)[i] != ln {
        if i <= k {
          assert Lines(list)[i] <= Lines(list)[k];
        } else {
          assert Lines(list)[k + 1] <= Lines(list)[i];
        }
      }
    }
  }

  /** The slow path of `addlnode`, for a line below the tail: new head,
      existing node (the one the scan stops on or its successor), or a splice
      after the node the scan stops on. The tail bookmark stays. */
  method ScanLNode(node: WNode, ln: int, ghost list: seq<LNode>) returns (found: LNode, ghost list': seq<LNode>)
    requires Chain(node, list) && ln < node.lastln.lnum
    modifies node`firstln, list
    ensures Chain(node, list') && Lines(list') == SortedInsert(Lines(list), ln)
    ensures found in list' && found.lnum == ln
    ensures fresh(Elems(list') - Elems(list))
    ensures ln in Lines(list) ==> list' == list && unchanged(list) && node.firstln == old(node.firstln)
    ensures node.lastln == old(node.lastln)
    ensures Elems(list) <= Elems(list')
  {
    SortedInsertAscending(Lines(list), ln);
    if ln < node.firstln.lnum {
      found, list' := PrependLNode(node, ln, list);
      assert ln !in Lines(list) by {
        forall i | 0 <= i < |list| ensures ln < Lines(list)[i] {
          assert 0 < i ==> Lines(list)[0] < Lines(list)[i];
        }
      }
    } else {
      var line;
      ghost var k;
      line, k := FindPrev(node, ln, list);
      if ln == line.lnum {
        found := line;
        assert Lines(list)[k] == ln;
        list' := list;
        SortedInsertPresent(Lines(list), ln);
      } else if line.next != null && ln == line.next.lnum {
        assert k + 1 < |list| && list[k + 1] == line.next;
        assert Lines(list)[k + 1] == ln;
        found := line.next;
        list' := list;
        SortedInsertPresent(Lines(list), ln);
      } else {
        found, list' := SpliceLNode(node, ln, list, line, k);
      }
    }
  }

  /** The layout of a word tree: each word node with the sequence of its list
      nodes and its two subtrees. */
  datatype Shape = Nil | Tree(left: Shape, node: WNode, list: seq<LNode>, right: Shape)

  /** Every object of a tree: word nodes and list nodes. */
  function Objs(sh: Shape): set<object>
  {
    match sh
    case Nil => {}
    case Tree(l, n, list, r) => Objs(l) + {n} + Elems(list) + Objs(r)
  }

  function Root(sh: Shape): WNode?
  {
    if sh.Nil? then null else sh.node
  }

  /** The index a tree stands for. */
  function Abs(sh: Shape): Index
  {
    match sh
    case Nil => Leaf
    case Tree(l, n, list, r) => Node(Abs(l), n.word, Lines(list), Abs(r))
  }

  /** The objects of a shape held by a caller are allocated. */
  lemma {:induction false} ObjsAllocated(sh: Shape)
    ensures forall o :: o in Objs(sh) ==> allocated(o)
  {
    match sh
    case Nil =>
    case Tree(l, n, list, r) =>
      ObjsAllocated(l);
      ObjsAllocated(r);
  }

  /** The heap-independent part of the invariant: no object is shared
      between two nodes or subtrees, and every line list is non-empty and
      strictly ascending. */
  ghost predicate Shaped(sh: Shape)
    decreases sh
  {
    match sh
    case Nil => true
    case Tree(l, n, list, r) =>
      n !in Objs(l) && n !in Objs(r) && Objs(l) !! Objs(r) &&
      Elems(list) !! Objs(l) && Elems(list) !! Objs(r) &&
      |list| > 0 && Ascending(Lines(list)) &&
      Shaped(l) && Shaped(r)
  }

  /** The pointers agree with the shape: the children of each word node are
      the roots of its subtrees and its list is chained as `Linked` says. */
  ghost predicate Wired(sh: Shape)
    reads Objs(sh)
    decreases sh
  {
    match sh
    case Nil => true
    case Tree(l, n, list, r) =>
      n.left == Root(l) && n.right == Root(r) && Linked(n, list) &&
      Wired(l) && Wired(r)
  }

  /** Frame lemma for the left branch: the right subtree and the node's list
      were not touched, so linking the new left subtree restores `Rep`. */
  twostate lemma RelinkLeft(sh: Shape, new shl: Shape)
    requires sh.Tree? && old(Rep(sh)) && forall o :: o in Objs(sh) ==> old(allocated(o))
    requires unchanged(Objs(sh.right) + Elems(sh.list))
    requires sh.node.right == old(sh.node.right)
    requires sh.node.firstln == old(sh.node.firstln) && sh.node.lastln == old(sh.node.lastln)
    requires sh.node.left == Root(shl) && Rep(shl) && fresh(Objs(shl) - Objs(sh.left))
    ensures Rep(Tree(shl, sh.node, sh.list, sh.right))
  {
    assert Wired(sh.right);
    assert Linked(sh.node, sh.list);
    assert Objs(sh) == Objs(sh.left) + {sh.node} + Elems(sh.list) + Objs(sh.right);
    assert forall o :: o in Objs(shl) ==> o in Objs(sh.left) || !old(allocated(o));
    assert sh.node !in Objs(shl);
    assert Objs(shl) !! Objs(sh.right);
    assert Elems(sh.list) !! Objs(shl);
    assert Shaped(Tree(shl, sh.node, sh.list, sh.right));
  }

  /** Frame lemma for the right branch, symmetric to `RelinkLeft`. */
  twostate lemma RelinkRight(sh: Shape, new shr: Shape)
    requires sh.Tree? && old(Rep(sh)) && forall o :: o in Objs(sh) ==> old(allocated(o))
    requires unchanged(Objs(sh.left) + Elems(sh.list))
    requires sh.node.left == old(sh.node.left)
    requires sh.node.firstln == old(sh.node.firstln) && sh.node.lastln == old(sh.node.lastln)
    requires sh.node.right == Root(shr) && Rep(shr) && fresh(Objs(shr) - Objs(sh.right))
    ensures Rep(Tree(sh.left, sh.node, sh.list, shr))
  {
    assert Wired(sh.left);
    assert Linked(sh.node, sh.list);
    assert Objs(sh) == Objs(sh.left) + {sh.node} + Elems(sh.list) + Objs(sh.right);
    assert forall o :: o in Objs(shr) ==> o in Objs(sh.right) || !old(allocated(o));
    assert sh.node !in Objs(shr);
    assert Objs(sh.left) !! Objs(shr);
    assert Elems(sh.list) !! Objs(shr);
    assert Shaped(Tree(sh.left, sh.node, sh.list, shr));
  }

  /** The heap holds the tree `sh` describes. */
  ghost predicate Rep(sh: Shape)
    reads Objs(sh)
  {
    Shaped(sh) && Wired(sh)
  }

  /** Every line list of a well-formed tree is non-empty, strictly ascending
      and free of duplicates. */
  lemma {:induction false} ShapedLinesValid(sh: Shape)
    requires Shaped(sh)
    ensures LinesValid(Abs(sh))
  {
    match sh
    case Nil =>
    case Tree(l, n, list, r) =>
      ShapedLinesValid(l);
      ShapedLinesValid(r);
  }

  /** `addwordandline`: add line `ln` for `word` to the tree rooted at `node`
      and return the root. An empty tree becomes a new leaf; otherwise the
      word goes left or right by `strcmp` order, or its own list gets the
      line. The result is exactly `IndexSpec.Insert` of the old index. */
  method AddWordAndLine(word: string, ln: int, node: WNode?, ghost sh: Shape) returns (r: WNode, ghost sh': Shape)
    requires Root(sh) == node && Rep(sh)
    modifies Objs(sh)
    ensures Rep(sh') && Root(sh') == r
    ensures Abs(sh') == Insert(Abs(sh), word, ln)
    ensures fresh(Objs(sh') - Objs(sh)) && Objs(sh) <= Objs(sh')
    ensures node != null ==> r == node
    decreases sh, 1
  {
    if node == null {
      r := new WNode(word, ln);
      sh' := Tree(Nil, r, [r.firstln], Nil);
      assert Lines([r.firstln]) == [ln];
      return;
    }
    var diff := Compare(word, node.word);
    if diff < 0 {
      sh' := AddLeft(word, ln, node, sh);
    } else if diff > 0 {
      sh' := AddRight(word, ln, node, sh);
    } else {
      sh' := AddHere(ln, node, sh);
    }
    r := node;
  }

  /** The left branch of `addwordandline`: insert into the left subtree and
      link the result back in as `node.left`. */
  method AddLeft(word: string, ln: int, node: WNode, ghost sh: Shape) returns (ghost sh': Shape)
    requires Root(sh) == node && Rep(sh) && Compare(word, node.word) < 0
    modifies Objs(sh)
    ensures Rep(sh') && Root(sh') == node
    ensures Abs(sh') == Insert(Abs(sh), word, ln)
    ensures fresh(Objs(sh') - Objs(sh)) && Objs(sh) <= Objs(sh')
    decreases sh, 0
  {
    ObjsAllocated(sh);
    var sub;
    ghost var shl;
    sub, shl := AddWordAndLine(word, ln, node.left, sh.left);
    node.left := sub;
    RelinkLeft(sh, shl);
    sh' := Tree(shl, node, sh.list, sh.right);
  }

  /** The right branch of `addwordandline`, symmetric to `AddLeft`. */
  method AddRight(word: string, ln: int, node: WNode, ghost sh: Shape) returns (ghost sh': Shape)
    requires Root(sh) == node && Rep(sh) && Compare(word, node.word) > 0
    modifies Objs(sh)
    ensures Rep(sh') && Root(sh') == node
    ensures Abs(sh') == Insert(Abs(sh), word, ln)
    ensures fresh(Objs(sh') - Objs(sh)) && Objs(sh) <= Objs(sh')
    decreases sh, 0
  {
    ObjsAllocated(sh);
    var sub;
    ghost var shr;
    sub, shr := AddWordAndLine(word, ln, node.right, sh.right);
    node.right := sub;
    RelinkRight(sh, shr);
    sh' := Tree(sh.left, node, sh.list, shr);
  }

  /** The matching-word branch of `addwordandline`: only this node's line
      list changes; the tree keeps its shape. */
  method AddHere(ln: int, node: WNode, ghost sh: Shape) returns (ghost sh': Shape)
    requires Root(sh) == node && Rep(sh)
    modifies Objs(sh)
    ensures Rep(sh') && Root(sh') == node
    ensures Abs(sh') == Node(Abs(sh.left), node.word, SortedInsert(Lines(sh.list), ln), Abs(sh.right))
    ensures fresh(Objs(sh') - Objs(sh)) && Objs(sh) <= Objs(sh')
  {
    ObjsAllocated(sh);
    var found;
    ghost var list';
    found, list' := AddLNode(node, ln, sh.list);
    sh' := Tree(sh.left, node, list', sh.right);
  }
}
