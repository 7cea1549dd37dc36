/**
 The key order of the word tree: the sign of C's `strcmp` on two
 NUL-terminated strings, stated on `seq<char>`. Characters compare by their
 code, and a proper prefix compares below the longer string (its terminating
 NUL is the smallest character).
 */
module StrOrder {

  /** Sign of `strcmp(a, b)`: -1, 0 or 1. */
  function Compare(a: string, b: string): (c: int)
    ensures -1 <= c <= 1
    ensures c == 0 <==> a == b
  {
    if a == [] then (if b == [] then 0 else -1)
    else if b == [] then 1
    else if a[0] < b[0] then -1
    else if a[0] > b[0] then 1
    else Compare(a[1..], b[1..])
  }

  /** `strcmp(a, b) < 0`: the test that sends a word into a left subtree. */
  predicate Less(a: string, b: string)
  {
    Compare(a, b) < 0
  }

  /** Swapping the operands of `strcmp` flips the sign of its result. */
  lemma {:induction false} CompareFlip(a: string, b: string)
    ensures Compare(b, a) == -Compare(a, b)
  {
    if a != [] && b != [] && a[0] == b[0] {
      CompareFlip(a[1..], b[1..]);
    }
  }

  lemma {:induction false} LessTransitive(a: string, b: string, c: string)
    requires Less(a, b) && Less(b, c)
    ensures Less(a, c)
  {
    if a != [] && b != [] && c != [] && a[0] == b[0] && b[0] == c[0] {
      LessTransitive(a[1..], b[1..], c[1..]);
    }
  }

  /** Exactly one of `Less(a, b)`, `a == b`, `Less(b, a)` holds. */
  lemma LessTrichotomous(a: string, b: string)
    ensures Less(a, b) || a == b || Less(b, a)
    ensures !(Less(a, b) && Less(b, a))
    ensures !Less(a, a)
  {
    CompareFlip(a, b);
  }
}
