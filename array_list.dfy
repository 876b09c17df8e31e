/** The program's own array-backed list (List.cs). Every insertion or removal allocates a new
    array one longer or one shorter and copies the elements across with `ArrayCopy`. */
module ArrayLists {
  import opened Common
  import opened Sequences

  /** How many elements `ArrayCopy` moves: `length` (or, when it is -1, the shorter array's
      length), cut short when either array runs out. */
  function CopyCount(sourceLength: int, sourceIdx: int, destLength: int, destIdx: int, length: int): (n: nat)
    ensures length >= 0 ==> n <= length
    ensures length == -1 && sourceIdx == destIdx == 0 && sourceLength >= 0 && destLength >= 0 ==>
      n == Min(sourceLength, destLength)
    ensures n > 0 ==> sourceIdx + n <= sourceLength && destIdx + n <= destLength
  {
    var len := if length == -1 then Min(sourceLength, destLength) else length;
    var m := Min(len, Min(sourceLength - sourceIdx, destLength - destIdx));
    if m < 0 then 0 else m
  }

  /** b is a with one unset slot at `at`: at the end when `at` is -1 or past the end. */
  ghost predicate SpaceAddedAt<T>(a: seq<T>, b: seq<T>, at: int) {
    var p := if 0 <= at <= |a| then at else |a|;
    |b| == |a| + 1 && b[..p] == a[..p] && b[p + 1..] == a[p..]
  }

  class List<T(0, ==)> {
    var internalArray: array<T>

    /** The elements, in order. */
    ghost function Contents(): seq<T>
      reads this, internalArray
    {
      internalArray[..]
    }

    function Length(): (n: nat)
      reads this, internalArray
      ensures n == |Contents()|
    {
      internalArray.Length
    }

    /** `new List()`: empty. */
    constructor ()
      ensures Contents() == [] && fresh(internalArray)
    {
      internalArray := new T[0];
    }

    /** `new List(list)`: a copy in a fresh array, same length and order. */
    constructor Copy(list: List<T>)
      ensures Contents() == list.Contents() && fresh(internalArray)
    {
      var arr := new T[list.Length()];
      var i := 0;
      while i < list.Length()
        invariant 0 <= i <= list.Length() == arr.Length
        invariant arr[..i] == list.Contents()[..i]
      {
        arr[i] := list.internalArray[i];
        i := i + 1;
      }
      assert arr[..] == arr[..i];
      internalArray := arr;
    }

    /** `new List(array)`: the array's elements, in a fresh array. */
    constructor FromArray(source: array<T>)
      ensures Contents() == source[..] && fresh(internalArray)
    {
      internalArray := new T[source.Length];
      new;
      ArrayCopy(source, 0, internalArray, 0, -1);
      assert internalArray[..] == source[..];
    }

    /** The indexer's getter: a C# array access, so any index outside 0..Length-1 throws. */
    method Get(i: int) returns (r: Result<T>)
      ensures 0 <= i < |Contents()| ==> r == Ok(Contents()[i])
      ensures !(0 <= i < |Contents()|) ==> r == Err(IndexOutOfRange)
    {
      if 0 <= i < internalArray.Length {
        return Ok(internalArray[i]);
      }
      return Err(IndexOutOfRange);
    }

    /** The indexer's setter. */
    method Set(i: int, x: T) returns (r: Outcome)
      modifies internalArray
      ensures 0 <= i < |old(Contents())| ==> r == Done && Contents() == old(Contents())[i := x]
      ensures !(0 <= i < |old(Contents())|) ==> r == Fail(IndexOutOfRange) && Contents() == old(Contents())
    {
      if 0 <= i < internalArray.Length {
        internalArray[i] := x;
        return Done;
      }
      return Fail(IndexOutOfRange);
    }

    /** `Add(item)` and `PushBack(item)` both call `Append(item)`. */
    method Add(item: T)
      modifies this
      ensures Contents() == old(Contents()) + [item] && fresh(internalArray)
    {
      Append(item);
    }

    method PushBack(item: T)
      modifies this
      ensures Contents() == old(Contents()) + [item] && fresh(internalArray)
    {
      Append(item);
    }

    /** `Append(item)`: asks `AddSpace` for a slot past the end, which leaves the elements in
        front, and stores item in the last slot. */
    method Append(item: T)
      modifies this
      ensures Contents() == old(Contents()) + [item] && fresh(internalArray)
    {
      var newArr := AddSpace(internalArray, internalArray.Length + 1);
      internalArray := newArr;
      internalArray[internalArray.Length - 1] := item;
      assert internalArray[..] == internalArray[..internalArray.Length - 1] + [item];
    }

    /** `AddAt(item, index)`: inserts at index, shifting the rest right; an index past the end
        throws. */
    method AddAt(item: T, index: int) returns (r: Outcome)
      requires 0 <= index
      modifies this
      ensures index <= |old(Contents())| ==>
        r == Done && Contents() == InsertedAt(old(Contents()), index, item) && fresh(internalArray)
      ensures index > |old(Contents())| ==>
        r == Fail(ArgumentOutOfRange) && internalArray == old(internalArray)
    {
      if index > Length() && index >= 0 {
        return Fail(ArgumentOutOfRange);
      }
      ghost var before := internalArray[..];
      var newArr := AddSpace(internalArray, index);
      internalArray := newArr;
      internalArray[index] := item;
      assert internalArray[..] == before[..index] + [item] + before[index..] by {
        assert internalArray[..] == internalArray[..index] + [item] + internalArray[index + 1..];
      }
      return Done;
    }

    /** `Remove(item)`: `RemoveByData(item)`. */
    method Remove(item: T)
      modifies this
      ensures Contents() == RemovedFirst(old(Contents()), item)
    {
      RemoveByData(item);
    }

    /** `RemoveByData(data)`: removes the element at `IndexOf(data)`, if there is one. */
    method RemoveByData(item: T)
      modifies this
      ensures Contents() == RemovedFirst(old(Contents()), item)
    {
      var rmIdx := IndexOf(item);
      if rmIdx != -1 {
        var _ := RemoveByIndex(rmIdx);
      }
    }

    /** `RemoveAt(index)`: removes index, shifting the rest left; an index past the end throws. */
    method RemoveAt(index: int) returns (r: Outcome)
      requires 0 <= index
      modifies this
      ensures index < |old(Contents())| ==>
        r == Done && Contents() == RemovedAt(old(Contents()), index) && fresh(internalArray)
      ensures index >= |old(Contents())| ==>
        r == Fail(ArgumentOutOfRange) && internalArray == old(internalArray)
    {
      if index >= Length() && index >= 0 {
        return Fail(ArgumentOutOfRange);
      }
      r := RemoveByIndex(index);
    }

    /** `RemoveByIndex(index)`. */
    method RemoveByIndex(index: int) returns (r: Outcome)
      requires 0 <= index
      modifies this
      ensures index < |old(Contents())| ==>
        r == Done && Contents() == RemovedAt(old(Contents()), index) && fresh(internalArray)
      ensures index >= |old(Contents())| ==>
        r == Fail(IndexOutOfRange) && internalArray == old(internalArray)
    {
      if index < Length() {
        var newArr := RemoveSpace(internalArray, index);
        internalArray := newArr;
        return Done;
      }
      return Fail(IndexOutOfRange);
    }

    /** `PopBack()`: removes and returns the last element; an empty list throws. */
    method PopBack() returns (r: Result<T>)
      modifies this
      ensures |old(Contents())| == 0 ==> r == Err(InvalidOperation) && internalArray == old(internalArray)
      ensures |old(Contents())| > 0 ==>
        r == Ok(old(Contents())[|old(Contents())| - 1]) &&
        Contents() == old(Contents())[..|old(Contents())| - 1] && fresh(internalArray)
    {
      if internalArray.Length == 0 {
        return Err(InvalidOperation);
      }
      var ret := internalArray[Length() - 1];
      var newArr := RemoveSpace(internalArray, Length() - 1);
      internalArray := newArr;
      return Ok(ret);
    }

    /** `Contains(data)`. */
    method Contains(data: T) returns (b: bool)
      ensures b <==> data in Contents()
    {
      var i := IndexOf(data);
      return i != -1;
    }

    /** `IndexOf(data)`: the first index holding data, or -1. */
    method IndexOf(data: T) returns (idx: int)
      ensures idx == Sequences.IndexOf(Contents(), data)
    {
      var i := 0;
      while i < Length()
        invariant 0 <= i <= Length()
        invariant data !in Contents()[..i]
      {
        if data == internalArray[i] {
          IndexOfIsFirst(Contents(), data);
          return i;
        }
        assert Contents()[..i + 1] == Contents()[..i] + [Contents()[i]];
        i := i + 1;
      }
      assert Contents()[..i] == Contents();
      return -1;
    }

    /** `Clear()`. */
    method Clear()
      modifies this
      ensures Contents() == [] && fresh(internalArray)
    {
      internalArray := new T[0];
    }

    /** `ToArray()`: a fresh array with the elements in order. */
    method ToArray() returns (arr: array<T>)
      ensures fresh(arr) && arr[..] == Contents()
    {
      arr := new T[Length()];
      var idx := 0;
      var i := 0;
      while i < Length()
        invariant 0 <= i <= Length() == arr.Length && idx == i
        invariant arr[..i] == Contents()[..i]
      {
        arr[idx] := internalArray[i];
        idx := idx + 1;
        i := i + 1;
      }
      assert arr[..] == arr[..i];
    }

    /** `AddSpace(ref array, at)`: a fresh array one longer, with the elements moved apart at
        `at` (or kept in front when `at` is -1 or past the end). */
    method AddSpace(arr: array<T>, at: int) returns (newArr: array<T>)
      requires at >= -1
      ensures fresh(newArr) && SpaceAddedAt(arr[..], newArr[..], at)
    {
      newArr := new T[arr.Length + 1];
      if at == arr.Length || at == -1 {
        ArrayCopy(arr, 0, newArr, 0, -1);
      } else if at == 0 {
        ArrayCopy(arr, 0, newArr, 1, -1);
      } else {
        ArrayCopy(arr, 0, newArr, 0, at);
        ArrayCopy(arr, at, newArr, at + 1, arr.Length - at);
      }
      ghost var p := if 0 <= at <= arr.Length then at else arr.Length;
      assert newArr[..p] == arr[..p];
      assert newArr[p + 1..] == arr[p..];
    }

    /** `RemoveSpace(ref array, at)`: a fresh array one shorter, without position `at`. */
    method RemoveSpace(arr: array<T>, at: int) returns (newArr: array<T>)
      requires 0 <= at < arr.Length
      ensures fresh(newArr) && newArr[..] == RemovedAt(arr[..], at)
    {
      newArr := new T[arr.Length - 1];
      if at == arr.Length - 1 || at == -1 {
        ArrayCopy(arr, 0, newArr, 0, -1);
      } else if at == 0 {
        ArrayCopy(arr, 1, newArr, 0, -1);
      } else {
        ArrayCopy(arr, 0, newArr, 0, at);
        ArrayCopy(arr, at + 1, newArr, at, arr.Length - at);
      }
      assert newArr[..] == RemovedAt(arr[..], at);
    }

    /** `ArrayCopy(source, sourceIdx, dest, destIdx, length)`: copies `CopyCount` elements from
        sourceIdx on into dest from destIdx on, and leaves the rest of dest alone. */
    method ArrayCopy(source: array<T>, sourceIdx: int, dest: array<T>, destIdx: int, length: int)
      requires 0 <= sourceIdx && 0 <= destIdx && source != dest
      modifies dest
      ensures var n := CopyCount(source.Length, sourceIdx, dest.Length, destIdx, length);
        forall k :: 0 <= k < dest.Length ==>
          dest[k] == if destIdx <= k < destIdx + n then source[sourceIdx + k - destIdx] else old(dest[k])
    {
      var len := length;
      if len == -1 {
        len := if source.Length < dest.Length then source.Length else dest.Length;
      }
      ghost var n := CopyCount(source.Length, sourceIdx, dest.Length, destIdx, length);
      var count := 0;
      var s, d := sourceIdx, destIdx;
      while count < len && source.Length > s && dest.Length > d
        invariant 0 <= count <= n && s == sourceIdx + count && d == destIdx + count
        invariant forall k :: 0 <= k < dest.Length ==>
          dest[k] == if destIdx <= k < destIdx + count then source[sourceIdx + k - destIdx] else old(dest[k])
      {
        dest[d] := source[s];
        d, s := d + 1, s + 1;
        count := count + 1;
      }
    }
  }
}
