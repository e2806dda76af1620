/**
 The level rule shared by both Merkle builders (src/merkle_tree_vec.rs and src/merkle_tree.rs).

 One pass walks a level in chunks of two and emits one combined value per chunk; when the
 last chunk has a single element it is combined with itself ("balancing" by duplication).
 Passes repeat until a single value remains. The rule is generic in the element type so that
 the digest vector (combine = hash of the concatenation) and the node tree (combine = a
 parent node over the two children) are two instances of one definition.
 */
module Levels {

  /** Index of the right partner of chunk `i`: the next element, or the element itself
      when the chunk is the odd one out at the end. */
  function RightOf(n: nat, i: nat): (j: nat)
    requires 2 * i < n
    ensures j < n
    ensures j == 2 * i + 1 || (j == 2 * i && 2 * i + 1 == n)
  {
    if 2 * i + 1 < n then 2 * i + 1 else 2 * i
  }

  /** One pass of `for chunk in level.chunks(2)`: the next level up. */
  function Pairs<T>(level: seq<T>, combine: (T, T) -> T): (r: seq<T>)
    ensures |r| == (|level| + 1) / 2
    ensures forall i :: 0 <= i < |r| ==> r[i] == combine(level[2 * i], level[RightOf(|level|, i)])
    decreases |level|
  {
    if |level| == 0 then []
    else if |level| == 1 then [combine(level[0], level[0])]
    else
      var rest := Pairs(level[2..], combine);
      assert forall i :: 1 <= i <= |rest| ==> level[2..][2 * (i - 1)] == level[2 * i];
      [combine(level[0], level[1])] + rest
  }

  /** The first chunk of a level of two or more elements, followed by the pass over the rest. */
  lemma PairsCons<T>(level: seq<T>, combine: (T, T) -> T)
    requires |level| >= 2
    ensures Pairs(level, combine) == [combine(level[0], level[1])] + Pairs(level[2..], combine)
  {
  }

  /** A pass strictly shrinks every level that has more than one element, so the
      `while len > 1` loop ends; a level of one element still yields one element. */
  lemma PairsShrinks<T>(level: seq<T>, combine: (T, T) -> T)
    requires |level| >= 1
    ensures 1 <= |Pairs(level, combine)|
    ensures |level| > 1 ==> |Pairs(level, combine)| < |level|
  {
  }

  /** `while len > 1 { level = Pairs(level) }`, then the single remaining element. */
  function Collapse<T>(level: seq<T>, combine: (T, T) -> T): T
    requires |level| >= 1
    decreases |level|
  {
    if |level| == 1 then level[0]
    else
      PairsShrinks(level, combine);
      Collapse(Pairs(level, combine), combine)
  }

  /** The root the builders return: one pass is always made (even over a single
      element), then the level is collapsed. */
  function Top<T>(level: seq<T>, combine: (T, T) -> T): T
    requires |level| >= 1
  {
    Collapse(Pairs(level, combine), combine)
  }

  /** The body of `for chunk in level.chunks(2) { ...; upper.push(combined) }`:
      builds the next level by pushing one combined value per chunk. */
  method PairLevel<T>(level: seq<T>, combine: (T, T) -> T) returns (upper: seq<T>)
    ensures upper == Pairs(level, combine)
  {
    upper := [];
    var i := 0;
    while i < |level|
      invariant 0 <= i <= |level| + 1
      invariant i % 2 == 0
      invariant |upper| == i / 2
      invariant forall k :: 0 <= k < |upper| ==> upper[k] == combine(level[2 * k], level[RightOf(|level|, k)])
    {
      var left := level[i];
      var right := if i + 1 < |level| then level[i + 1] else level[i];
      upper := upper + [combine(left, right)];
      i := i + 2;
    }
  }
}
