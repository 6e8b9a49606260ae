/** The persistent cons list of LinkedList.ts: `LinkedEmpty` and
  * `LinkedElement(value, next)`. The loops of the source (`reduceLeft`,
  * `drop`, `range`, the iterator) are methods proved against the folds of
  * the Folds module; `reverse`, `length`, `map` and `toArray` are
  * compositions of those folds. */
module LinkedList {
  import opened Wrappers
  import opened Folds

  datatype List<T> = Empty | Element(value: T, next: List<T>)

  /** The elements of a list, head first. */
  function Elements<T>(l: List<T>): seq<T>
  {
    match l
    case Empty => []
    case Element(v, next) => [v] + Elements(next)
  }

  function Max(a: int, b: int): int { if a < b then b else a }
  function Min(a: int, b: int): int { if a < b then a else b }

  /** `cons`: a new head in front of the list; the list itself is shared. */
  function Cons<T>(l: List<T>, v: T): (r: List<T>)
    ensures Elements(r) == [v] + Elements(l)
    ensures r.next == l
  {
    Element(v, l)
  }

  /** `LinkedElement.reduceLeft` walks the list with a cursor; on
    * `LinkedEmpty` the seed comes back as it is. */
  method ReduceLeft<T, R>(l: List<T>, reducer: (R, T) -> R, seed: R) returns (acc: R)
    ensures acc == FoldLeft(reducer, seed, Elements(l))
    ensures l.Empty? ==> acc == seed
  {
    acc := seed;
    var current := l;
    while current.Element?
      invariant FoldLeft(reducer, acc, Elements(current)) == FoldLeft(reducer, seed, Elements(l))
      decreases current
    {
      acc := reducer(acc, current.value);
      current := current.next;
    }
  }

  /** `ReverseReducer`. */
  function ReverseStep<T>(acc: List<T>, element: T): List<T>
  {
    Cons(acc, element)
  }

  /** `LengthReducer`. */
  function LengthStep<T>(acc: int, element: T): int
  {
    acc + 1
  }

  /** `ToArrayReducer`. */
  function ToArrayStep<T>(acc: seq<T>, element: T): seq<T>
  {
    acc + [element]
  }

  /** `MapReducer`. */
  function MapStep<T, U>(mapper: T -> U): (List<U>, T) -> List<U>
  {
    (acc: List<U>, element: T) => Cons(acc, mapper(element))
  }

  lemma {:induction false} ReverseFold<T>(acc: List<T>, s: seq<T>)
    ensures Elements(FoldLeft(ReverseStep, acc, s)) == Reversed(s) + Elements(acc)
    decreases |s|
  {
    if s != [] {
      ReverseFold(ReverseStep(acc, s[0]), s[1..]);
      assert Reversed(s) == Reversed(s[1..]) + [s[0]];
    }
  }

  /** `reverse`: a left fold of `cons` starting from the empty list. */
  function Reverse<T>(l: List<T>): (r: List<T>)
    ensures Elements(r) == Reversed(Elements(l))
  {
    ReverseFold(Empty, Elements(l));
    FoldLeft(ReverseStep, Empty, Elements(l))
  }

  lemma {:induction false} LengthFold<T>(acc: int, s: seq<T>)
    ensures FoldLeft(LengthStep, acc, s) == acc + |s|
    decreases |s|
  {
    if s != [] {
      LengthFold(acc + 1, s[1..]);
    }
  }

  /** `length`: a left fold counting the elements. */
  function Length<T>(l: List<T>): (r: int)
    ensures r == |Elements(l)|
  {
    LengthFold(0, Elements(l));
    FoldLeft(LengthStep, 0, Elements(l))
  }

  lemma {:induction false} ToArrayFold<T>(acc: seq<T>, s: seq<T>)
    ensures FoldLeft(ToArrayStep, acc, s) == acc + s
    decreases |s|
  {
    if s != [] {
      ToArrayFold(acc + [s[0]], s[1..]);
      assert acc + [s[0]] + s[1..] == acc + s;
    }
  }

  /** `toArray`: a left fold pushing every element. */
  function ToArray<T>(l: List<T>): (r: seq<T>)
    ensures r == Elements(l)
  {
    ToArrayFold([], Elements(l));
    FoldLeft(ToArrayStep, [], Elements(l))
  }

  lemma {:induction false} MapFold<T, U>(mapper: T -> U, s: seq<T>)
    ensures var r := Elements(FoldRight(MapStep(mapper), Empty, s));
      |r| == |s| && forall i :: 0 <= i < |s| ==> r[i] == mapper(s[i])
    decreases |s|
  {
    if s != [] {
      MapFold(mapper, s[1..]);
    }
  }

  /** `map`: a right fold of `cons`, so the order of the elements is kept. */
  function Map<T, U>(l: List<T>, mapper: T -> U): (r: List<U>)
    ensures |Elements(r)| == |Elements(l)|
    ensures forall i :: 0 <= i < |Elements(l)| ==> Elements(r)[i] == mapper(Elements(l)[i])
  {
    MapFold(mapper, Elements(l));
    FoldRight(MapStep(mapper), Empty, Elements(l))
  }

  /** `reduceRight` gives what a left fold over the reversed list gives. */
  lemma ReduceRightIsReverseReduceLeft<T, R>(l: List<T>, reducer: (R, T) -> R, seed: R)
    ensures FoldRight(reducer, seed, Elements(l)) == FoldLeft(reducer, seed, Elements(Reverse(l)))
  {
    FoldRightIsFoldLeftOfReversed(reducer, seed, Elements(l));
  }

  /** The state of `ReduceRightHelper`: it consumes up to four elements per
    * frame, recursing for the rest, and after 500 frames falls back to
    * reversing the remaining list and folding it from the left. */
  class ReduceRightHelper<T, R> {
    var count: int
    const reducer: (R, T) -> R
    var seed: R
    var list: List<T>

    constructor (reducer: (R, T) -> R, seed: R, list: List<T>)
      ensures this.reducer == reducer && this.seed == seed && this.list == list && count == 0
    {
      this.count := 0;
      this.reducer := reducer;
      this.seed := seed;
      this.list := list;
    }

    method ReduceNextElements() returns (r: R)
      modifies this
      ensures r == FoldRight(reducer, old(seed), Elements(old(list)))
      decreases |Elements(list)|, 4
    {
      if count > 500 {
        r := ReduceLeft(Reverse(list), reducer, seed);
        ReduceRightIsReverseReduceLeft(list, reducer, seed);
        return;
      }
      count := count + 1;
      r := ReduceFirstElement();
    }

    method ReduceFourthElement(first: T, second: T, third: T) returns (r: R)
      modifies this
      ensures r == reducer(reducer(reducer(FoldRight(reducer, old(seed), Elements(old(list))), third), second), first)
      decreases |Elements(list)|, 0
    {
      if list.Empty? {
        r := reducer(reducer(reducer(seed, third), second), first);
        return;
      }
      var fourth := list;
      list := fourth.next;
      seed := ReduceNextElements();
      r := reducer(reducer(reducer(reducer(seed, fourth.value), third), second), first);
    }

    method ReduceThirdElement(first: T, second: T) returns (r: R)
      modifies this
      ensures r == reducer(reducer(FoldRight(reducer, old(seed), Elements(old(list))), second), first)
      decreases |Elements(list)|, 1
    {
      if list.Empty? {
        r := reducer(reducer(seed, second), first);
        return;
      }
      var third := list;
      list := third.next;
      r := ReduceFourthElement(first, second, third.value);
    }

    method ReduceSecondElement(first: T) returns (r: R)
      modifies this
      ensures r == reducer(FoldRight(reducer, old(seed), Elements(old(list))), first)
      decreases |Elements(list)|, 2
    {
      if list.Empty? {
        r := reducer(seed, first);
        return;
      }
      var second := list;
      list := second.next;
      r := ReduceThirdElement(first, second.value);
    }

    method ReduceFirstElement() returns (r: R)
      modifies this
      ensures r == FoldRight(reducer, old(seed), Elements(old(list)))
      decreases |Elements(list)|, 3
    {
      if list.Empty? {
        r := seed;
        return;
      }
      var first := list;
      list := first.next;
      r := ReduceSecondElement(first.value);
    }

    method Reduce() returns (r: R)
      modifies this
      ensures r == FoldRight(reducer, old(seed), Elements(old(list)))
    {
      r := ReduceFirstElement();
    }
  }

  /** `reduceRight`: folds from the last element to the first. */
  method ReduceRight<T, R>(l: List<T>, reducer: (R, T) -> R, seed: R) returns (r: R)
    ensures r == FoldRight(reducer, seed, Elements(l))
    ensures r == FoldLeft(reducer, seed, Elements(Reverse(l)))
  {
    var helper := new ReduceRightHelper(reducer, seed, l);
    r := helper.Reduce();
    ReduceRightIsReverseReduceLeft(l, reducer, seed);
  }

  /** `drop`: steps the cursor at most `n` times, stopping at the end. */
  method Drop<T>(l: List<T>, n: int) returns (r: List<T>)
    ensures Elements(r) == Elements(l)[Min(Max(n, 0), |Elements(l)|)..]
    ensures n <= 0 ==> r == l
  {
    r := l;
    var i := 0;
    while i < n
      invariant 0 <= i <= Max(n, 0) && i <= |Elements(l)|
      invariant Elements(r) == Elements(l)[i..]
      invariant i == 0 ==> r == l
      decreases n - i
    {
      if r.Empty? {
        return;
      }
      r := r.next;
      i := i + 1;
    }
  }

  /** `range(start, end)`: conses from `end` down to `start`. */
  method Range(start: int, end: int) returns (r: List<int>)
    ensures Elements(r) == seq(Max(end - start + 1, 0), i => start + i)
  {
    var current := end;
    r := Empty;
    while current >= start
      invariant start - 1 <= current <= end || current == end
      invariant Elements(r) == seq(end - current, i => current + 1 + i)
      decreases current - start
    {
      r := Cons(r, current);
      current := current - 1;
    }
  }

  /** `LinkedListIterator`: the cursor of a `for ... of` over a list. */
  class Iterator<T> {
    var nextList: List<T>

    constructor (l: List<T>)
      ensures nextList == l
    {
      nextList := l;
    }

    method Next() returns (done: bool, value: Option<T>)
      modifies this
      ensures done <==> old(nextList).Empty?
      ensures done ==> value == None && nextList == old(nextList)
      ensures !done ==> value == Some(old(nextList).value) && nextList == old(nextList).next
    {
      if nextList.Empty? {
        return true, None;
      }
      value := Some(nextList.value);
      nextList := nextList.next;
      done := false;
    }
  }

  /** A `for ... of` loop collecting what the iterator yields: exactly `toArray`. */
  method Iterate<T>(l: List<T>) returns (yielded: seq<T>)
    ensures yielded == ToArray(l)
  {
    var it := new Iterator(l);
    yielded := [];
    while true
      invariant yielded + Elements(it.nextList) == Elements(l)
      decreases |Elements(it.nextList)|
    {
      var done, value := it.Next();
      if done {
        break;
      }
      yielded := yielded + [value.value];
    }
  }
}
