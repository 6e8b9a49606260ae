/** ArrayHelper: a copy-on-write cell around an array. `set` and `push`
  * copy the current array into a fresh one, change the copy and rebind the
  * field, so an array handed to the constructor is never written. The
  * functions below state the value each operation produces; the class
  * methods are proved against them, and the persistent trie of ArrayTree
  * uses the functions. */
module ArrayHelper {
  import opened Wrappers
  import opened Errors

  /** `get` as it is meant: an index outside the array fails. */
  function ElementAt<T>(a: seq<T>, index: int): (r: Result<T>)
    ensures r.Success? <==> 0 <= index < |a|
    ensures r.Success? ==> r.value == a[index]
  {
    if index < 0 || index >= |a| then Failure(IndexOutOfBounds) else Success(a[index])
  }

  /** `get` as written: the upper guard reads the free global `length`
    * instead of the array's. Where no such global exists (`None`, as under
    * Node.js) reading it throws a ReferenceError; in a browser it is the
    * window's frame count. Past the end of the array the read yields
    * `undefined` (`None`). */
  function ElementAtAsWritten<T>(a: seq<T>, index: int, globalLength: Option<int>): (r: Result<Option<T>>)
    ensures r.Failure? <==> index < 0 || globalLength.None? || index >= globalLength.value
    ensures r.Success? ==> (r.value.Some? <==> index < |a|)
    ensures r.Success? && index < |a| ==> r.value == Some(a[index])
  {
    if index < 0 then Failure(IndexOutOfBounds)
    else if globalLength.None? then Failure(LengthNotDefined)
    else if index >= globalLength.value then Failure(IndexOutOfBounds)
    else if index < |a| then Success(Some(a[index]))
    else Success(None)
  }

  /** Without the global, or with a window holding no frames, every read
    * fails, including those the intended check lets through. */
  lemma ElementAtAsWrittenRejects<T>(a: seq<T>, index: int, globalLength: Option<int>)
    requires 0 <= index < |a|
    requires globalLength == None || globalLength == Some(0)
    ensures ElementAtAsWritten(a, index, globalLength).Failure?
    ensures ElementAt(a, index) == Success(a[index])
  {
  }

  /** With a global larger than the array, an index at the end of the
    * array is let through as written and rejected as intended. */
  lemma ElementAtAsWrittenPassesEnd<T>(a: seq<T>)
    ensures ElementAtAsWritten(a, |a|, Some(|a| + 1)) == Success(None)
    ensures ElementAt(a, |a|).Failure?
  {
  }

  /** The array `set` leaves behind. */
  function Replaced<T>(a: seq<T>, index: int, value: T): (r: Result<seq<T>>)
    ensures r.Success? <==> 0 <= index < |a|
    ensures r.Success? ==> |r.value| == |a| && r.value[index] == value
    ensures r.Success? ==> forall i :: 0 <= i < |a| && i != index ==> r.value[i] == a[i]
  {
    if index < 0 || index >= |a| then Failure(IndexOutOfBounds) else Success(a[index := value])
  }

  /** The array `push` leaves behind. */
  function Pushed<T>(a: seq<T>, value: T): (r: seq<T>)
    ensures |r| == |a| + 1 && r[|a|] == value && r[..|a|] == a
  {
    a + [value]
  }

  /** A replaced element reads back, and every other one is unchanged. */
  lemma ReplacedThenElementAt<T>(a: seq<T>, index: int, value: T, j: int)
    requires 0 <= index < |a|
    ensures ElementAt(Replaced(a, index, value).value, j)
         == if j == index then Success(value) else ElementAt(a, j)
  {
  }

  class ArrayHelper<T> {
    var contents: array<T>  // the field `array`

    constructor (contents: array<T>)
      ensures this.contents == contents
    {
      this.contents := contents;
    }

    /** `get`, with the bounds check the code means to make. */
    method Get(index: int) returns (r: Result<T>)
      ensures r == ElementAt(contents[..], index)
    {
      if index < 0 || index >= contents.Length {
        return Failure(IndexOutOfBounds);
      }
      r := Success(contents[index]);
    }

    /** `set`: copies into a fresh array, writes the copy and rebinds the field. */
    method Set(index: int, value: T) returns (r: Result<ArrayHelper<T>>)
      modifies this
      ensures r.Success? <==> Replaced(old(contents[..]), index, value).Success?
      ensures r.Success? ==> r.value == this && fresh(contents)
      ensures r.Success? ==> contents[..] == Replaced(old(contents[..]), index, value).value
      ensures r.Failure? ==> contents == old(contents)
      ensures unchanged(old(contents))
    {
      var length := contents.Length;
      if index < 0 || index >= length {
        return Failure(IndexOutOfBounds);
      }
      var result := new T[length](_ => value);
      for i := 0 to length
        invariant result[..i] == contents[..i]
        modifies result
      {
        result[i] := contents[i];
      }
      assert result[..] == contents[..];
      result[index] := value;
      contents := result;
      r := Success(this);
    }

    /** `push`: copies into a fresh array one longer, with `value` last. */
    method Push(value: T) returns (r: ArrayHelper<T>)
      modifies this
      ensures r == this && fresh(contents)
      ensures contents[..] == Pushed(old(contents[..]), value)
      ensures unchanged(old(contents))
    {
      var length := contents.Length;
      var result := new T[length + 1](_ => value);
      for i := 0 to length
        invariant result[..i] == contents[..i]
        modifies result
      {
        result[i] := contents[i];
      }
      result[length] := value;
      assert result[..] == contents[..] + [value];
      contents := result;
      r := this;
    }

    /** `getResult`: the current array itself, not a copy. */
    method GetResult() returns (r: array<T>)
      ensures r == contents
    {
      r := contents;
    }
  }
}
