/** Generic facts about sequences that the in-place loops of the batch processor use. */
module Sequences {
  /** Concatenation is associative. */
  lemma AppendAssoc<T>(a: seq<T>, b: seq<T>, c: seq<T>)
    ensures (a + b) + c == a + (b + c)
  {
  }

  /** Taking element `i` from the target instead of the original extends the target's part
      of a splice by one. */
  lemma SpliceStep<T>(target: seq<T>, original: seq<T>, i: int)
    requires 0 <= i < |target| == |original|
    ensures (target[..i] + original[i..])[i := target[i]] == target[..i + 1] + original[i + 1..]
  {
  }

  /** Where target and original agree at `i`, the splice point can move past `i`. */
  lemma SpliceKeep<T>(target: seq<T>, original: seq<T>, i: int)
    requires 0 <= i < |target| == |original| && target[i] == original[i]
    ensures target[..i] + original[i..] == target[..i + 1] + original[i + 1..]
  {
    assert target[..i + 1] == target[..i] + [target[i]];
    assert original[i..] == [original[i]] + original[i + 1..];
  }

  /** A splice whose original part already agrees with the target is the target. */
  lemma SpliceDone<T>(target: seq<T>, original: seq<T>, i: int)
    requires 0 <= i <= |target| == |original|
    requires forall j :: i <= j < |target| ==> original[j] == target[j]
    ensures target[..i] + original[i..] == target
  {
  }

  /** Overwriting element `i` with the target's element extends the prefix that agrees with
      the target by one, and keeps the rest equal to the original. */
  lemma UpdateExtendsPrefix<T>(current: seq<T>, target: seq<T>, original: seq<T>, i: int, x: T)
    requires 0 <= i < |current| == |target| == |original|
    requires forall j :: 0 <= j < i ==> current[j] == target[j]
    requires forall j :: i <= j < |current| ==> current[j] == original[j]
    requires x == target[i]
    ensures forall j :: 0 <= j < i + 1 ==> current[i := x][j] == target[j]
    ensures forall j :: i + 1 <= j < |current| ==> current[i := x][j] == original[j]
  {
  }
}
