/** The integer shrinker: `seriesInt` halves the distance to a target,
  * `IntShrinker.shrink` lists the candidates for an integer, and
  * `shrinkTree` puts a value at the root of a tree whose branches are the
  * trees of its candidates. For integers that tree is finite, so the lazy
  * branches are modelled as a plain list. */
module Shrinker {
  import opened LazyList

  /** `seriesInt(low, high)`: `low`, then the series from the midpoint. The
    * distance `high - low` is an integer at least 2 in the last branch, so
    * `Math.trunc` of its half is plain division. */
  function SeriesInt(low: int, high: int): LazyList<int>
    decreases high - low
  {
    if low >= high then Empty()
    else if low == high - 1 then Prepend(Empty(), low)
    else Prepend(SeriesInt(low + (high - low) / 2, high), low)
  }

  /** The series starts at `low`, strictly increases, stays in `[low, high)`
    * and ends at `high - 1`; it is empty exactly when `low >= high`. */
  lemma {:induction false} SeriesIntShape(low: int, high: int)
    ensures var s := Elements(SeriesInt(low, high));
      && (s == [] <==> low >= high)
      && (s != [] ==> s[0] == low && s[|s| - 1] == high - 1)
      && (forall i :: 0 <= i < |s| ==> low <= s[i] < high)
      && (forall i, j :: 0 <= i < j < |s| ==> s[i] < s[j])
    decreases high - low
  {
    if low < high - 1 {
      var mid := low + (high - low) / 2;
      SeriesIntShape(mid, high);
      var s := Elements(SeriesInt(low, high));
      assert s == [low] + Elements(SeriesInt(mid, high));
    }
  }

  function Negate(x: int): int
  {
    -x
  }

  /** `IntShrinker.shrink`: for a negative `n`, first `-n` and then the
    * negated series towards `-n`; otherwise the series from 0 to `n`. */
  function IntShrink(n: int): LazyList<int>
  {
    if n < 0 then Prepend(Map(SeriesInt(0, -n), Negate), -n)
    else SeriesInt(0, n)
  }

  function Abs(x: int): nat
  {
    if x < 0 then -x else x
  }

  /** The candidates of `shrink(n)`: the series for `n >= 0` (none for 0);
    * for `n < 0`, `-n` followed by the negated series; every candidate but
    * that leading `-n` is smaller than `n` in absolute value. */
  lemma ShrinkCandidates(n: int)
    ensures n >= 0 ==> IntShrink(n) == SeriesInt(0, n)
    ensures IntShrink(0) == Nil
    ensures n < 0 ==> Elements(IntShrink(n))[0] == -n
    ensures n < 0 ==> |Elements(IntShrink(n))| == 1 + |Elements(SeriesInt(0, -n))|
    ensures n < 0 ==> forall i :: 1 <= i < |Elements(IntShrink(n))| ==>
      Elements(IntShrink(n))[i] == -Elements(SeriesInt(0, -n))[i - 1]
    ensures forall i :: 0 <= i < |Elements(IntShrink(n))| && !(n < 0 && i == 0) ==>
      Abs(Elements(IntShrink(n))[i]) < Abs(n)
  {
    if n < 0 {
      SeriesIntShape(0, -n);
      MapKeepsOrder(SeriesInt(0, -n), Negate);
    } else {
      SeriesIntShape(0, n);
    }
  }

  /** `RoseTree`: a value and the trees of its shrink candidates. */
  datatype RoseTree<T> = RoseTree(root: T, branches: LazyList<RoseTree<T>>)

  /** A candidate strictly below its origin in this order, which is what
    * makes the tree finite: `-n` comes just below a negative `n`. */
  function ShrinkRank(n: int): nat
  {
    if n >= 0 then 2 * n else 2 * -n + 1
  }

  lemma CandidatesRankLower(n: int)
    ensures forall c :: c in Elements(IntShrink(n)) ==> ShrinkRank(c) < ShrinkRank(n)
  {
    ShrinkCandidates(n);
    forall c | c in Elements(IntShrink(n))
      ensures ShrinkRank(c) < ShrinkRank(n)
    {
      var i :| 0 <= i < |Elements(IntShrink(n))| && Elements(IntShrink(n))[i] == c;
      if n < 0 && i > 0 {
        SeriesIntShape(0, -n);
        MapKeepsOrder(SeriesInt(0, -n), Negate);
      } else if n >= 0 {
        SeriesIntShape(0, n);
      }
    }
  }

  /** `shrinkTree(root)`: `root` with one branch per candidate of `shrink`. */
  function ShrinkTree(root: int): (t: RoseTree<int>)
    ensures t.root == root
    ensures |Elements(t.branches)| == |Elements(IntShrink(root))|
    ensures forall i :: 0 <= i < |Elements(t.branches)| ==> Elements(t.branches)[i].root == Elements(IntShrink(root))[i]
    decreases ShrinkRank(root), 1
  {
    CandidatesRankLower(root);
    RoseTree(root, ShrinkBranches(IntShrink(root), root))
  }

  /** `ShrinkBranchesThunk.run`: the tree of every candidate, in order. */
  function ShrinkBranches(candidates: LazyList<int>, origin: int): (r: LazyList<RoseTree<int>>)
    requires forall c :: c in Elements(candidates) ==> ShrinkRank(c) < ShrinkRank(origin)
    ensures |Elements(r)| == |Elements(candidates)|
    ensures forall i :: 0 <= i < |Elements(r)| ==> Elements(r)[i].root == Elements(candidates)[i]
    decreases ShrinkRank(origin), 0, candidates
  {
    match candidates
    case Nil => Nil
    case Cons(c, rest) => Cons(ShrinkTree(c), ShrinkBranches(rest, origin))
  }
}
