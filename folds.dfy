/** Left and right folds over a sequence, the abstract meaning of every
  * `reduce`, `reduceLeft` and `reduceRight` in the collections. A reducer
  * receives the accumulator first and the element second. */
module Folds {
  /** Folds from the first element to the last. */
  function FoldLeft<T, R>(f: (R, T) -> R, acc: R, s: seq<T>): R
    decreases |s|
  {
    if s == [] then acc else FoldLeft(f, f(acc, s[0]), s[1..])
  }

  /** Folds from the last element to the first. */
  function FoldRight<T, R>(f: (R, T) -> R, acc: R, s: seq<T>): R
    decreases |s|
  {
    if s == [] then acc else f(FoldRight(f, acc, s[1..]), s[0])
  }

  /** The elements of `s` in the opposite order. */
  function Reversed<T>(s: seq<T>): (r: seq<T>)
    ensures |r| == |s|
    ensures forall i :: 0 <= i < |s| ==> r[i] == s[|s| - 1 - i]
  {
    if s == [] then [] else Reversed(s[1..]) + [s[0]]
  }

  /** Folding a concatenation folds the second part from where the first ended. */
  lemma {:induction false} FoldLeftConcat<T, R>(f: (R, T) -> R, acc: R, s: seq<T>, t: seq<T>)
    ensures FoldLeft(f, acc, s + t) == FoldLeft(f, FoldLeft(f, acc, s), t)
    decreases |s|
  {
    if s == [] {
      assert s + t == t;
    } else {
      assert (s + t)[1..] == s[1..] + t;
      FoldLeftConcat(f, f(acc, s[0]), s[1..], t);
    }
  }

  /** A right fold is a left fold over the reversed sequence. */
  lemma {:induction false} FoldRightIsFoldLeftOfReversed<T, R>(f: (R, T) -> R, acc: R, s: seq<T>)
    ensures FoldRight(f, acc, s) == FoldLeft(f, acc, Reversed(s))
    decreases |s|
  {
    if s != [] {
      FoldRightIsFoldLeftOfReversed(f, acc, s[1..]);
      FoldLeftConcat(f, acc, Reversed(s[1..]), [s[0]]);
      assert FoldLeft(f, FoldLeft(f, acc, Reversed(s[1..])), [s[0]]) == f(FoldLeft(f, acc, Reversed(s[1..])), s[0]);
    }
  }
}
