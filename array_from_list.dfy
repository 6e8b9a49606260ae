/** ArrayFromList: takes up to `arrayLength` leading elements of a linked
  * list into an array and keeps the rest of the list. */
module ArrayFromList {
  import opened LinkedList

  class ArrayFromList<T> {
    var taken: seq<T>  // the field `array`
    var remainsOfList: List<T>

    /** The while loop of the constructor writes one element per step and
      * advances `remainsOfList`; the array is then cut to what was written. */
    constructor (arrayLength: nat, list: List<T>)
      ensures |taken| == Min(arrayLength, |Elements(list)|)
      ensures taken == Elements(list)[..|taken|]
      ensures Elements(remainsOfList) == Elements(list)[|taken|..]
      ensures taken + Elements(remainsOfList) == Elements(list)
    {
      taken := [];
      remainsOfList := list;
      new;
      var currentIndex := 0;
      var currentElement := list;
      while currentIndex < arrayLength && currentElement.Element?
        invariant currentIndex == |taken| <= arrayLength
        invariant currentIndex <= |Elements(list)|
        invariant currentElement == remainsOfList
        invariant taken == Elements(list)[..currentIndex]
        invariant Elements(remainsOfList) == Elements(list)[currentIndex..]
        decreases arrayLength - currentIndex
      {
        taken := taken + [currentElement.value];
        remainsOfList := currentElement.next;
        currentElement := remainsOfList;
        currentIndex := currentIndex + 1;
      }
      assert Elements(list)[..currentIndex] + Elements(list)[currentIndex..] == Elements(list);
    }
  }

  /** The example of the source's own test: three of 6, 5, 4, 3, 2, 1. */
  method SplitSixAtThree() returns (taken: seq<int>, rest: seq<int>)
    ensures taken == [6, 5, 4] && rest == [3, 2, 1]
  {
    var list := Cons(Cons(Cons(Cons(Cons(Cons(Empty, 1), 2), 3), 4), 5), 6);
    var split := new ArrayFromList(3, list);
    taken := split.taken;
    rest := Elements(split.remainsOfList);
  }
}
