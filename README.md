# Cross-reference index of main.c, in Dafny

`main.c` is meant to build a cross-reference of a text: for every word, the
line numbers it occurs on. The index has two layers:

- **Word tree.** `addwordandline` inserts into an unbalanced binary search
  tree of `struct wnode`, ordered by `strcmp` on the word. A new word
  becomes a leaf with a one-element line list. An existing word passes the
  line number to its own list.
- **Line list.** `addlnode` and `insertlnode` keep a singly linked list of
  `struct lnode` for each word, meant to be strictly ascending and free of
  duplicates. A tail bookmark `lastln` makes the common case an O(1)
  append. A smaller number is placed by a scan from the head.

The project has five modules:

| file | module | contents |
|---|---|---|
| `strorder.dfy` | `StrOrder` | the sign of `strcmp` on `seq<char>`, proved a strict total order |
| `linelist.dfy` | `LineSpec` | the value of a line list (`seq<int>`) and `SortedInsert`, the reference definition of adding one line number |
| `index.dfy` | `IndexSpec` | the value of a word tree (`Index`) and `Insert`, the reference definition of `addwordandline`, with search and in-order views used to state the search-tree properties |
| `xref.dfy` | `Xref` | the pointer code itself: classes `LNode` and `WNode` with exactly the fields of the C structs, and the three functions as imperative methods proved against `SortedInsert` and `Insert` |
| `aswritten.dfy` | `AsWritten` | what the code does as written, on values, with a lemma and a concrete input for each defect listed under Findings |

### How the heap is tied to the values

`Xref` does not add ghost fields to the classes. A ghost `Shape` value is
passed next to the pointers instead. It holds the tree of word nodes, and
for each word node the sequence of its list nodes from head to tail.

- `Rep(sh)` says the heap matches the shape:
  - `Shaped` covers disjointness of all objects, non-empty lists and ascending line numbers.
  - `Wired` covers the child pointers, `firstln`, `lastln` and every `next` link.
- `Abs(sh)` reads the shape as an `IndexSpec.Index`.

### Where the code follows the intent rather than the letter

The source is unfinished. `Xref` implements what it evidently intends, and
`AsWritten` records what it actually does:

- A new word node's `lastln` starts at its first list node. The source never sets it (main.c:113-120).
- The recursive calls of `addwordandline` link their result in as `left` or `right`, and every call returns its node. The source drops the result (main.c:123, 125) and has no `return` on those paths (main.c:129).
- `addlnode` returns the node holding the line on every path. The source falls off the end of the function (main.c:164).
- On the slow path, a number below the head becomes the new head. The scan checks the node it stops on and that node's successor, and splices in only when the number is absent.
- The source's test `ln == line->lnum` inside the loop (main.c:158-159) can never hold on an ascending list, so the corrected scan `Xref.FindPrev` does not repeat it. `AsWritten.Scan` keeps it.

## Model

| member | source | states |
|---|---|---|
| Xref.LNode.constructor | main.c:12-16 | a list node holds the given line number and link |
| Xref.WNode.constructor | main.c:111-120 | a new word node holds the word, has no children, and its one fresh list node holds `ln` and is both `firstln` and `lastln` |
| Xref.InsertLNode | main.c:166-174 | a fresh node holding `ln` becomes `prevnode`'s successor and links to `prevnode`'s old successor; nothing else changes |
| Xref.SpliceLinks | main.c:172-173 | relinking one node around a new node turns the chain into the old chain with the new node inserted right after that position |
| Xref.DistinctNodes | main.c:12-16 | nodes at two different positions of an ascending list are different objects, so relinking one leaves the others alone |
| Xref.AddLNode | main.c:133-164 | the list invariant is kept (chain from `firstln` to `lastln`, ascending). The new line list is `SortedInsert` of the old one. The returned node holds `ln`. Every old node stays in the list, and only fresh nodes are added. A line already present changes nothing. A line above the tail is appended and becomes `lastln`; otherwise `lastln` stays |
| Xref.AppendLNode | main.c:137-144 | above the tail: the list becomes old list ++ [new node], and `lastln` points to it |
| Xref.ScanLNode | main.c:150-163 | below the tail: the list becomes `SortedInsert` of the old one. The node holding `ln` is returned. Every old node stays in the list. A line already present changes nothing. `lastln` is unchanged |
| Xref.FindPrev | main.c:155-161 | the loop stops on the last node whose line is below `ln`, or on the head: every node after the head up to the stop node is below `ln`, and the successor (if any) is at least `ln` |
| Xref.PrependLNode | main.c:150-162 | a line below the head becomes the new head, and the list stays ascending |
| Xref.SpliceLNode | main.c:162 | a line strictly between a node and its successor is spliced in after that node, which is exactly `SortedInsert` |
| Xref.AddWordAndLine | main.c:108-129 | the tree invariant `Rep` is kept. The new tree's value is `IndexSpec.Insert` of the old one. Every old word node and list node stays in the tree, and only fresh objects are added. A non-empty tree keeps its root |
| Xref.AddLeft | main.c:122-123 | a word below the node's word is inserted into the left subtree, which is linked back as `left`; every old node stays in the tree |
| Xref.AddRight | main.c:124-125 | a word above the node's word is inserted into the right subtree, which is linked back as `right`; every old node stays in the tree |
| Xref.AddHere | main.c:126-128 | the matching word's list gets `SortedInsert`, the rest of the tree's value is unchanged, and every old node stays in the tree |
| Xref.RelinkLeft | main.c:123 | updating the left subtree and relinking it leaves the right subtree and the node's list intact, and restores `Rep` |
| Xref.RelinkRight | main.c:125 | the same for the right subtree |
| Xref.ShapedLinesValid | main.c:18-29 | every line list of a well-formed tree is non-empty and strictly ascending |
| StrOrder.Compare | main.c:122-125 | the sign of `strcmp`, which is 0 exactly for equal words |
| StrOrder.CompareFlip | main.c:122-125 | swapping the operands of `strcmp` negates its sign |
| StrOrder.LessTransitive | main.c:122-125 | the `strcmp` order is transitive |
| StrOrder.LessTrichotomous | main.c:122-125 | exactly one of less, equal or greater holds, and no word is below itself |
| LineSpec.SortedInsert | main.c:131-136 | the result holds exactly the old numbers plus `ln`, and grows by at most one |
| LineSpec.SortedInsertAscending | main.c:131-136 | adding a line keeps the list strictly ascending and free of duplicates |
| LineSpec.SortedInsertPresent | main.c:150-162 | a line already on the list leaves it unchanged |
| LineSpec.SortedInsertAppend | main.c:137-143 | a line above the tail is appended at the end |
| LineSpec.SortedInsertPrefix | main.c:155-161 | numbers below `ln` at the front are passed over unchanged |
| LineSpec.SortedInsertAfter | main.c:152-162 | a line between positions k and k+1 is placed right after position k |
| LineSpec.AscendingTail | main.c:18-21 | dropping the head of an ascending list removes exactly that value and keeps it ascending |
| LineSpec.AscendingDetermined | main.c:131-136 | two ascending lists with the same values are equal |
| LineSpec.SortedInsertIdempotent | main.c:131-132 | recording a line twice is the same as recording it once |
| LineSpec.SortedInsertCommutes | main.c:145-154 | two lines recorded in either order give the same list |
| LineSpec.InsertAll | main.c:131-136 | after a stream of lines, the list holds exactly the old numbers plus the streamed ones |
| LineSpec.InsertAllAscending | main.c:131-136 | any stream of lines keeps the list ascending |
| LineSpec.OrderIndependent | main.c:145-154 | the final list depends only on which lines were seen, so the fast and slow paths agree |
| LineSpec.AscendingStreamKept | main.c:131-136 | reading lines in increasing order rebuilds exactly that sequence |
| IndexSpec.Insert | main.c:108-129 | after insertion the tree holds exactly the old words plus `w` |
| IndexSpec.InsertOrdered | main.c:122-125 | insertion keeps the binary-search-tree order on `strcmp` |
| IndexSpec.InsertLinesValid | main.c:126-128 | insertion keeps every line list non-empty and strictly ascending |
| IndexSpec.InsertExistingSameShape | main.c:126-128 | inserting a word already present keeps the tree's shape and word set, and changes only line lists |
| IndexSpec.SameShapeRefl | main.c:22-29 | every tree has its own shape |
| IndexSpec.LookupFindsKeys | main.c:122-125 | in an ordered tree, descending by `strcmp` finds a word exactly when it is present |
| IndexSpec.LookupInsert | main.c:108-129 | after insertion, `w` holds `SortedInsert` of its old lines, and every other word keeps its lines |
| IndexSpec.InsertNewWord | main.c:111-120 | a word absent from an ordered tree gets the line list exactly `[ln]` |
| IndexSpec.ExportKeys | main.c:22-29 | every word listed in order is a word of the tree |
| IndexSpec.ExportIndex | main.c:22-29 | every word of the tree is listed in order |
| IndexSpec.ExportSorted | main.c:122-125 | the in-order listing of an ordered tree is strictly ascending by `strcmp` |
| IndexSpec.ExportLinesValid | main.c:18-29 | every listed line list is non-empty and ascending |
| AsWritten.Scan | main.c:155-161 | the loop as written, including its early return, stops within the list, and an early return stands on `ln` |
| AsWritten.AddLNodeAsWritten | main.c:133-164 | `addlnode` as written: the result holds exactly the old numbers plus `ln`, and grows by at most one |
| AsWritten.ScanAscending | main.c:155-161 | on an ascending list the early return never fires, and the scan stops on the last node whose successor is not below `ln` |
| AsWritten.AsWrittenSplicesAt | main.c:150-162 | below the tail, the code as written splices `ln` after the scan's stop node |
| AsWritten.AsWrittenAgrees | main.c:150-162 | for a number absent from the list and above its head, the code as written agrees with `SortedInsert` |
| AsWritten.AsWrittenDuplicates | main.c:155-162 | a number already present and below the tail is inserted a second time, which breaks strict ascent |
| AsWritten.DescentBreaksOrder | main.c:155-162 | a sequence in which a later value is not above an earlier one is not strictly ascending |
| AsWritten.SpliceRepeats | main.c:162 | splicing in a number the list already holds repeats it |
| AsWritten.AsWrittenHeadMisorder | main.c:155-162 | a number below the head is placed second, which breaks the order |
| AsWritten.ReachableAfter | main.c:122-128 | as written, the tree reachable from a non-null argument keeps its word set and shape |
| AsWritten.AsWrittenLosesWord | main.c:122-125 | a new word added to a non-empty tree is lost as written, while `Insert` adds it |
| AsWritten.AsWrittenExamples | main.c:122-162 | the concrete inputs of the Findings table |

## Left out

- `main`, with its exclusion-word arguments and the `qsort` call (main.c:36-91). This is command-line handling, and its word loop is empty.
- `getword` and `struct attr`. They come from `getword.h`, which is not part of this model. Reading the text is I/O.
- `strcmpwrapper` as a function (main.c:99-106). It adapts `strcmp` for `qsort`. Only the order it wraps is modelled, as `StrOrder.Compare`.
- `malloc` and `strdup` failures. The source does not check for them, so allocation always succeeds here. The word is held as a value, so the `strdup` copy is not modelled.
- `int` overflow of line numbers. Line numbers are unbounded integers.
- Printing. The source has no traversal. `IndexSpec.Export` is an in-order view used only to state the ordering lemmas.
- The uninitialised `lastln` and the missing returns. These are undefined behaviour in C, with no value to model. The model fixes them as described above. `AsWritten` takes the bookmark to be the last list node.
- `addlnode` and `addwordandline` are each split into one method per branch (`AppendLNode`, `ScanLNode`, `AddLeft`, ...), with the fixes listed above.
- AsWritten.ReachableAfter: the code as written is modelled on values, not on the heap. Its in-place effects are the tree reachable from the argument. On a null argument the source returns the new node (main.c:111-120), which a caller can keep; that return value is not part of this function. The new node dropped by a nested call, and the undefined return value on the other paths (main.c:129), are not modelled.
- AsWritten.AddLNodeAsWritten: the returned pointer is not modelled, only the resulting list.
- The search-tree order is proved on values (`IndexSpec.InsertOrdered`), not as part of `Xref.Rep`. `Xref.AddWordAndLine` transfers it through `Abs`.

## Findings

| source | as written | input that shows it | evidently intended | confidence | as-written member | corrected member |
|---|---|---|---|---|---|---|
| main.c:122-125 | the recursive call's result is dropped, so a new word below an existing node is never linked into the tree | tree with the single word "cat" at line 1; add "dog" at line 2 | link the result in as `node->right` (or `left`) and return `node`, so "dog" becomes the right child | not executed | AsWritten.AsWrittenLosesWord | Xref.AddWordAndLine |
| main.c:155-162 | the scan never compares `ln` with the node it stops on or its successor, so a number already present below the tail is inserted again | list [1, 3, 5]; add 3; gives [1, 3, 3, 5] | find the existing node and leave the list as [1, 3, 5] | not executed | AsWritten.AsWrittenDuplicates | Xref.ScanLNode |
| main.c:155-162 | a number below the head is spliced in after the head | list [2, 5]; add 1; gives [2, 1, 5] | make it the new head: [1, 2, 5] | not executed | AsWritten.AsWrittenHeadMisorder | Xref.PrependLNode |
