/**
 * The two array idioms the wallet store uses on its parallel lists:
 * `xs.filter((_, i) => i !== index)` and
 * `flags.map((v, i) => (i === index ? !v : v))`.
 */
module Seqs {

  /**
   * `xs.filter((_, i) => i !== index)`, written as the filter walks: keep
   * every element whose position is not `index`. The contract states the
   * same thing as a slice: exactly one element is removed when `index` is a
   * position of `xs`, and nothing otherwise.
   */
  function RemoveIndex<T>(xs: seq<T>, index: int): (r: seq<T>)
    ensures 0 <= index < |xs| ==> r == xs[..index] + xs[index + 1..]
    ensures !(0 <= index < |xs|) ==> r == xs
    decreases |xs|
  {
    if |xs| == 0 then []
    else
      var init := xs[..|xs| - 1];
      RemoveIndex(init, index) + (if index == |xs| - 1 then [] else [xs[|xs| - 1]])
  }

  /** After a removal, position `j` holds what was at `j` before `index` and at `j + 1` from it on. */
  lemma RemoveIndexShifts<T>(xs: seq<T>, index: int, j: int)
    requires 0 <= index < |xs|
    requires 0 <= j < |xs| - 1
    ensures |RemoveIndex(xs, index)| == |xs| - 1
    ensures RemoveIndex(xs, index)[j] == (if j < index then xs[j] else xs[j + 1])
  {
  }

  /** A removal drops exactly the one removed element from the multiset of contents. */
  lemma RemoveIndexMultiset<T>(xs: seq<T>, index: int)
    requires 0 <= index < |xs|
    ensures multiset(RemoveIndex(xs, index)) + multiset{xs[index]} == multiset(xs)
  {
    SliceMultiset(xs[..index], xs[index], xs[index + 1..]);
    assert xs == xs[..index] + [xs[index]] + xs[index + 1..];
  }

  lemma SliceMultiset<T>(a: seq<T>, x: T, b: seq<T>)
    ensures multiset(a + b) + multiset{x} == multiset(a + [x] + b)
  {
  }

  /** `flags.map((v, i) => (i === index ? !v : v))`: flips the flag at `index`, if there is one. */
  function Toggle(flags: seq<bool>, index: int): (r: seq<bool>)
    ensures |r| == |flags|
    ensures forall i :: 0 <= i < |flags| && i != index ==> r[i] == flags[i]
    ensures 0 <= index < |flags| ==> r[index] == !flags[index]
  {
    seq(|flags|, i requires 0 <= i < |flags| => if i == index then !flags[i] else flags[i])
  }

  /** Toggling is an in-place update of one entry when the index is in range, and the identity otherwise. */
  lemma ToggleIsUpdate(flags: seq<bool>, index: int)
    ensures 0 <= index < |flags| ==> Toggle(flags, index) == flags[index := !flags[index]]
    ensures !(0 <= index < |flags|) ==> Toggle(flags, index) == flags
  {
  }

  /** Toggling the same entry twice restores the flags. */
  lemma ToggleInvolution(flags: seq<bool>, index: int)
    ensures Toggle(Toggle(flags, index), index) == flags
  {
  }
}
