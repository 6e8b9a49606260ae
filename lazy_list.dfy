/** LazyList: a list whose cells are produced by thunks. Only finite lists
  * are modelled, and a forced list is its value, so `LazyList<T>` is a plain
  * `Nil | Cons` datatype and every thunk becomes the recursion its `run`
  * performs. */
module LazyList {
  import opened Wrappers
  import opened Folds

  datatype LazyList<T> = Nil | Cons(value: T, next: LazyList<T>)

  /** The elements of a list, head first. */
  function Elements<T>(l: LazyList<T>): seq<T>
  {
    match l
    case Nil => []
    case Cons(v, next) => [v] + Elements(next)
  }

  /** `LazyList.empty`. */
  function Empty<T>(): (r: LazyList<T>)
    ensures Elements(r) == []
  {
    Nil
  }

  /** `LazyList.singleton`. */
  function Singleton<T>(value: T): (r: LazyList<T>)
    ensures Elements(r) == [value]
  {
    Cons(value, Nil)
  }

  /** `cons`: `value` in front of the list. */
  function Prepend<T>(l: LazyList<T>, value: T): (r: LazyList<T>)
    ensures Elements(r) == [value] + Elements(l)
  {
    Cons(value, l)
  }

  /** `isEmpty`. */
  function IsEmpty<T>(l: LazyList<T>): (r: bool)
    ensures r <==> Elements(l) == []
  {
    l.Nil?
  }

  /** `headAndTail`: `undefined` on the empty list. */
  function HeadAndTail<T>(l: LazyList<T>): (r: Option<(T, LazyList<T>)>)
    ensures r.None? <==> Elements(l) == []
    ensures r.Some? ==> [r.value.0] + Elements(r.value.1) == Elements(l)
  {
    match l
    case Nil => None
    case Cons(v, next) => Some((v, next))
  }

  /** `take`: `TakeThunk` yields `Nil` for `n <= 0`; `Cons.take` keeps the
    * head and takes `n - 1` of the rest. */
  function Take<T>(l: LazyList<T>, n: int): LazyList<T>
  {
    if n <= 0 then Nil
    else match l
      case Nil => Nil
      case Cons(v, next) => Cons(v, Take(next, n - 1))
  }

  lemma {:induction false} TakePrefix<T>(l: LazyList<T>, n: int)
    ensures n <= 0 ==> Elements(Take(l, n)) == []
    ensures n > 0 ==> Elements(Take(l, n)) == Elements(l)[..if n < |Elements(l)| then n else |Elements(l)|]
  {
    if n > 0 && l.Cons? {
      TakePrefix(l.next, n - 1);
    }
  }

  /** `drop`: `DropThunk` returns the list itself for `n <= 0`;
    * `Cons.drop` drops `n - 1` from the rest. */
  function Drop<T>(l: LazyList<T>, n: int): LazyList<T>
  {
    if n <= 0 then l
    else match l
      case Nil => Nil
      case Cons(_, next) => Drop(next, n - 1)
  }

  lemma {:induction false} DropSuffix<T>(l: LazyList<T>, n: int)
    ensures n <= 0 ==> Drop(l, n) == l
    ensures n > 0 ==> Elements(Drop(l, n)) == Elements(l)[if n < |Elements(l)| then n else |Elements(l)|..]
  {
    if n > 0 && l.Cons? {
      DropSuffix(l.next, n - 1);
    }
  }

  /** `takeWhile`: stops at the first element `shouldTake` rejects. */
  function TakeWhile<T>(l: LazyList<T>, shouldTake: T -> bool): LazyList<T>
  {
    match l
    case Nil => Nil
    case Cons(v, next) => if shouldTake(v) then Cons(v, TakeWhile(next, shouldTake)) else Nil
  }

  /** The result of `takeWhile` is the longest prefix whose elements all
    * satisfy `shouldTake`. */
  lemma {:induction false} TakeWhileLongestPrefix<T>(l: LazyList<T>, shouldTake: T -> bool)
    ensures var r := Elements(TakeWhile(l, shouldTake));
      && |r| <= |Elements(l)| && r == Elements(l)[..|r|]
      && (forall i :: 0 <= i < |r| ==> shouldTake(r[i]))
      && (|r| < |Elements(l)| ==> !shouldTake(Elements(l)[|r|]))
  {
    if l.Cons? && shouldTake(l.value) {
      TakeWhileLongestPrefix(l.next, shouldTake);
    }
  }

  /** `member`: strict equality against each element in turn. */
  function Member<T(==)>(l: LazyList<T>, element: T): bool
  {
    match l
    case Nil => false
    case Cons(v, next) => v == element || Member(next, element)
  }

  lemma {:induction false} MemberIsElementOf<T>(l: LazyList<T>, element: T)
    ensures Member(l, element) <==> element in Elements(l)
  {
    if l.Cons? {
      MemberIsElementOf(l.next, element);
    }
  }

  /** `reduce`: the reducer sees the head first. */
  function Reduce<T, R>(l: LazyList<T>, reducer: (R, T) -> R, seed: R): R
  {
    match l
    case Nil => seed
    case Cons(v, next) => Reduce(next, reducer, reducer(seed, v))
  }

  lemma {:induction false} ReduceIsFoldLeft<T, R>(l: LazyList<T>, reducer: (R, T) -> R, seed: R)
    ensures Reduce(l, reducer, seed) == FoldLeft(reducer, seed, Elements(l))
  {
    if l.Cons? {
      ReduceIsFoldLeft(l.next, reducer, reducer(seed, l.value));
    }
  }

  function ToArrayStep<T>(acc: seq<T>, element: T): seq<T>
  {
    acc + [element]
  }

  lemma {:induction false} ToArrayReduce<T>(l: LazyList<T>, acc: seq<T>)
    ensures Reduce(l, ToArrayStep, acc) == acc + Elements(l)
  {
    if l.Cons? {
      ToArrayReduce(l.next, acc + [l.value]);
      assert acc + [l.value] + Elements(l.next) == acc + Elements(l);
    }
  }

  /** `toArray`: a reduce pushing every element. */
  function ToArray<T>(l: LazyList<T>): (r: seq<T>)
    ensures r == Elements(l)
  {
    ToArrayReduce(l, []);
    Reduce(l, ToArrayStep, [])
  }

  /** `map`. */
  function Map<T, U>(l: LazyList<T>, mapper: T -> U): LazyList<U>
  {
    match l
    case Nil => Nil
    case Cons(v, next) => Cons(mapper(v), Map(next, mapper))
  }

  lemma {:induction false} MapKeepsOrder<T, U>(l: LazyList<T>, mapper: T -> U)
    ensures |Elements(Map(l, mapper))| == |Elements(l)|
    ensures forall i :: 0 <= i < |Elements(l)| ==> Elements(Map(l, mapper))[i] == mapper(Elements(l)[i])
  {
    if l.Cons? {
      MapKeepsOrder(l.next, mapper);
    }
  }

  function MinLength(a: nat, b: nat): nat { if a < b then a else b }

  /** `mapTwo`: forces the first list, then the second, and pairs heads. */
  function MapTwo<A, B, C>(mapper: (A, B) -> C, list1: LazyList<A>, list2: LazyList<B>): LazyList<C>
  {
    match list1
    case Nil => Nil
    case Cons(a, next1) =>
      match list2
      case Nil => Nil
      case Cons(b, next2) => Cons(mapper(a, b), MapTwo(mapper, next1, next2))
  }

  lemma {:induction false} MapTwoPairsByPosition<A, B, C>(mapper: (A, B) -> C, list1: LazyList<A>, list2: LazyList<B>)
    ensures var r := Elements(MapTwo(mapper, list1, list2));
      && |r| == MinLength(|Elements(list1)|, |Elements(list2)|)
      && forall i :: 0 <= i < |r| ==> r[i] == mapper(Elements(list1)[i], Elements(list2)[i])
  {
    if list1.Cons? && list2.Cons? {
      MapTwoPairsByPosition(mapper, list1.next, list2.next);
    }
  }

  /** `mapThree`: as `mapTwo` over three lists. */
  function MapThree<A, B, C, D>(mapper: (A, B, C) -> D, list1: LazyList<A>, list2: LazyList<B>, list3: LazyList<C>): LazyList<D>
  {
    match list1
    case Nil => Nil
    case Cons(a, next1) =>
      match list2
      case Nil => Nil
      case Cons(b, next2) =>
        match list3
        case Nil => Nil
        case Cons(c, next3) => Cons(mapper(a, b, c), MapThree(mapper, next1, next2, next3))
  }

  lemma {:induction false} MapThreePairsByPosition<A, B, C, D>(mapper: (A, B, C) -> D, list1: LazyList<A>, list2: LazyList<B>, list3: LazyList<C>)
    ensures var r := Elements(MapThree(mapper, list1, list2, list3));
      && |r| == MinLength(MinLength(|Elements(list1)|, |Elements(list2)|), |Elements(list3)|)
      && forall i :: 0 <= i < |r| ==> r[i] == mapper(Elements(list1)[i], Elements(list2)[i], Elements(list3)[i])
  {
    if list1.Cons? && list2.Cons? && list3.Cons? {
      MapThreePairsByPosition(mapper, list1.next, list2.next, list3.next);
    }
  }

  /** `append` as written: `new AppendThunk(list, this)` forces the argument
    * first and appends `this` to it with the forced `List.append`. */
  function Append<T>(l: LazyList<T>, list: LazyList<T>): LazyList<T>
    decreases |Elements(l)| + |Elements(list)|, 1
  {
    ForcedAppend(list, l)
  }

  /** `Nil.append` returns the argument; `Cons.append` keeps its head and
    * appends through `LazyList.append` of its tail. */
  function ForcedAppend<T>(l: LazyList<T>, list: LazyList<T>): LazyList<T>
    decreases |Elements(l)| + |Elements(list)|, 0
  {
    match l
    case Nil => list
    case Cons(v, next) => Cons(v, Append(next, list))
  }

  /** Alternating merge, starting with the first sequence. */
  function Interleaved<T>(x: seq<T>, y: seq<T>): seq<T>
    decreases |x| + |y|
  {
    if x == [] then y else [x[0]] + Interleaved(y, x[1..])
  }

  /** What `a.append(b)` yields: the elements of `b` and `a` alternately,
    * starting with `b`; so appending to or from the empty list is the
    * identity and the length is the sum of the lengths. */
  lemma {:induction false} AppendInterleaves<T>(a: LazyList<T>, b: LazyList<T>)
    ensures Elements(Append(a, b)) == Interleaved(Elements(b), Elements(a))
    ensures Append(Nil, b) == b && Append(a, Nil) == a
    ensures |Elements(Append(a, b))| == |Elements(a)| + |Elements(b)|
    decreases |Elements(a)| + |Elements(b)|
  {
    match b
    case Nil =>
    case Cons(v, next) =>
      AppendInterleaves(next, a);
      assert Append(Nil, b) == Cons(v, Append(next, Nil));
  }

  /** The interleaving on a small example: [1, 2].append([3, 4]) is
    * [3, 1, 4, 2], not [1, 2, 3, 4]. */
  lemma AppendInterleavesExample()
    ensures Elements(Append(Cons(1, Cons(2, Nil)), Cons(3, Cons(4, Nil)))) == [3, 1, 4, 2]
  {
  }

  /** `append` as it is meant: `new AppendThunk(this, list)`. */
  function Concat<T>(l: LazyList<T>, list: LazyList<T>): (r: LazyList<T>)
    ensures Elements(r) == Elements(l) + Elements(list)
  {
    match l
    case Nil => list
    case Cons(v, next) => Cons(v, Concat(next, list))
  }

  /** `flatten` as written: each inner list is appended, with the `append`
    * above, to the flattening of the rest. */
  function Flatten<T>(lists: LazyList<LazyList<T>>): LazyList<T>
  {
    match lists
    case Nil => Nil
    case Cons(head, tail) => Append(head, Flatten(tail))
  }

  /** The elements of the inner lists, one list after another. */
  function ConcatAll<T>(lists: LazyList<LazyList<T>>): seq<T>
  {
    match lists
    case Nil => []
    case Cons(head, tail) => Elements(head) + ConcatAll(tail)
  }

  /** An alternating merge holds the elements of both sequences. */
  lemma {:induction false} InterleavedMultiset<T>(x: seq<T>, y: seq<T>)
    ensures multiset(Interleaved(x, y)) == multiset(x) + multiset(y)
    decreases |x| + |y|
  {
    if x != [] {
      InterleavedMultiset(y, x[1..]);
      assert x == [x[0]] + x[1..];
    }
  }

  /** Flattening as written keeps every element of every inner list, each
    * as often as it occurs there, so its length is the sum of the lengths;
    * only the order differs from the concatenation. */
  lemma {:induction false} FlattenKeepsElements<T>(lists: LazyList<LazyList<T>>)
    ensures multiset(Elements(Flatten(lists))) == multiset(ConcatAll(lists))
    ensures |Elements(Flatten(lists))| == |ConcatAll(lists)|
  {
    if lists.Cons? {
      FlattenKeepsElements(lists.next);
      AppendInterleaves(lists.value, Flatten(lists.next));
      InterleavedMultiset(Elements(Flatten(lists.next)), Elements(lists.value));
    }
  }

  /** The interleaving reaches `flatten`: flattening [[1, 2], [3, 4]] as
    * written gives [3, 1, 4, 2], not [1, 2, 3, 4]. */
  lemma FlattenInterleavesExample()
    ensures Elements(Flatten(Cons(Cons(1, Cons(2, Nil)), Cons(Cons(3, Cons(4, Nil)), Nil)))) == [3, 1, 4, 2]
    ensures ConcatAll(Cons(Cons(1, Cons(2, Nil)), Cons(Cons(3, Cons(4, Nil)), Nil))) == [1, 2, 3, 4]
  {
    var tail: LazyList<LazyList<int>> := Cons(Cons(3, Cons(4, Nil)), Nil);
    assert Flatten(tail) == Cons(3, Cons(4, Nil)) by {
      AppendInterleaves(Cons(3, Cons(4, Nil)), Nil);
    }
    AppendInterleavesExample();
  }

  /** `flatten` as it is meant, over the intended `append`: the elements of
    * the inner lists one list after another. */
  function FlattenConcat<T>(lists: LazyList<LazyList<T>>): (r: LazyList<T>)
    ensures Elements(r) == ConcatAll(lists)
  {
    match lists
    case Nil => Nil
    case Cons(head, tail) => Concat(head, FlattenConcat(tail))
  }
}
