/** The program's own doubly linked list (LinkedList.cs, LinkedListNode.cs): nodes with Prev and
    Next links, and a list object holding First, Last and Length. The ghost sequence `Nodes`
    is the chain from First to Last, and `Contents` the data it carries. */
module LinkedLists {
  import opened Common
  import opened Sequences

  class Node<T> {
    var Prev: Node?<T>
    var Next: Node?<T>
    var Data: T

    constructor (data: T)
      ensures Data == data && Prev == null && Next == null
    {
      Data := data;
      Prev := null;
      Next := null;
    }
  }

  class LinkedList<T(0, ==)> {
    var Length: int
    var First: Node?<T>
    var Last: Node?<T>

    ghost var Nodes: seq<Node<T>>
    ghost var Contents: seq<T>
    ghost var Repr: set<object>

    /** The chain runs First, ..., Last through Next (and back through Prev), visits every node
        once, and Length counts it. */
    ghost predicate Valid()
      reads this, Repr
    {
      this in Repr &&
      (forall i :: 0 <= i < |Nodes| ==> Nodes[i] in Repr) &&
      Length == |Nodes| == |Contents| &&
      (forall i :: 0 <= i < |Nodes| ==> Nodes[i].Data == Contents[i]) &&
      Distinct(Nodes) &&
      First == (if Nodes == [] then null else Nodes[0]) &&
      Last == (if Nodes == [] then null else Nodes[|Nodes| - 1]) &&
      (Nodes != [] ==> Nodes[0].Prev == null && Nodes[|Nodes| - 1].Next == null) &&
      (forall i, j :: 0 <= i && j == i + 1 && j < |Nodes| ==>
        Nodes[i].Next == Nodes[j] && Nodes[j].Prev == Nodes[i])
    }

    /** The links of the node at position i, read off Valid(). */
    lemma Links(i: int)
      requires Valid() && 0 <= i < |Nodes|
      ensures Nodes[i] in Repr
      ensures Nodes[i].Next == if i + 1 < |Nodes| then Nodes[i + 1] else null
      ensures Nodes[i].Prev == if i > 0 then Nodes[i - 1] else null
      ensures i + 1 < |Nodes| ==> Nodes[i + 1] in Repr
      ensures i > 0 ==> Nodes[i - 1] in Repr
    {
      if i + 1 < |Nodes| {
        assert Nodes[i].Next == Nodes[i + 1];
      }
      if i > 0 {
        assert Nodes[i].Prev == Nodes[i - 1];
      }
    }

    /** `new LinkedList()`. */
    constructor ()
      ensures Valid() && fresh(Repr) && Contents == []
    {
      Length := 0;
      First := null;
      Last := null;
      Nodes := [];
      Contents := [];
      Repr := {this};
    }

    /** `new LinkedList(linkedList)`: a copy with fresh nodes, same length and order. */
    constructor Copy(other: LinkedList<T>)
      requires other.Valid()
      ensures Valid() && fresh(Repr) && Contents == other.Contents
    {
      Length := 0;
      First := null;
      Last := null;
      Nodes := [];
      Contents := [];
      Repr := {this};
      new;
      var node := other.First;
      ghost var i := 0;
      ghost var nodes, contents := other.Nodes, other.Contents;
      assert forall j {:trigger nodes[j].Next} :: 0 <= j < |nodes| ==>
        nodes[j].Next == if j + 1 < |nodes| then nodes[j + 1] else null;
      while node != null
        invariant Valid() && fresh(Repr)
        invariant 0 <= i <= |nodes| == |contents|
        invariant node == if i < |nodes| then nodes[i] else null
        invariant Contents == contents[..i]
        invariant forall j :: 0 <= j < |nodes| ==> nodes[j] !in Repr
        invariant forall j {:trigger nodes[j].Next} :: i <= j < |nodes| ==>
          nodes[j].Next == if j + 1 < |nodes| then nodes[j + 1] else null
        invariant forall j {:trigger nodes[j].Data} :: i <= j < |nodes| ==> nodes[j].Data == contents[j]
        decreases |nodes| - i
      {
        PrefixSnoc(contents, i);
        assert node.Data == contents[i];
        var newNode := new Node(node.Data);
        AddToChainBack(newNode);
        assert Contents == contents[..i + 1];
        node := node.Next;
        i := i + 1;
      }
    }

    /** `new LinkedList(array)`: the array's elements, in order. */
    constructor FromArray(source: array<T>)
      ensures Valid() && fresh(Repr) && Contents == source[..]
    {
      Length := 0;
      First := null;
      Last := null;
      Nodes := [];
      Contents := [];
      Repr := {this};
      new;
      if source.Length > 0 {
        // The program stores the new node in First before the call; AddToChain sets it again.
        var first := new Node(source[0]);
        AddToChain(first, null, null, 0);
        var previousItem := first;
        var i := 1;
        while i < source.Length
          invariant Valid() && fresh(Repr)
          invariant 1 <= i <= source.Length
          invariant Contents == source[..i] && previousItem == Last && Last != null
        {
          var newItem := new Node(source[i]);
          AddToChain(newItem, previousItem, null, |Nodes|);
          previousItem := newItem;
          i := i + 1;
        }
      }
    }

    /** `AddToChain(node, previousNode, nextNode)`: splices a new node in at position k, between
        its two neighbours (null at either end of the chain). */
    method AddToChain(node: Node<T>, previousNode: Node?<T>, nextNode: Node?<T>, ghost k: int)
      requires Valid() && node !in Repr && 0 <= k <= |Nodes|
      requires previousNode == if k == 0 then null else Nodes[k - 1]
      requires nextNode == if k == |Nodes| then null else Nodes[k]
      modifies this, node, previousNode, nextNode
      ensures Valid() && Repr == old(Repr) + {node}
      ensures Nodes == InsertedAt(old(Nodes), k, node)
      ensures Contents == InsertedAt(old(Contents), k, old(node.Data))
    {
      ghost var before, contents, repr, data := Nodes, Contents, Repr, node.Data;
      if previousNode != null {
        previousNode.Next := node;
      } else {
        First := node;
      }
      if nextNode != null {
        nextNode.Prev := node;
      } else {
        Last := node;
      }
      node.Next := nextNode;
      node.Prev := previousNode;
      Length := Length + 1;
      Nodes := InsertedAt(before, k, node);
      Contents := InsertedAt(contents, k, data);
      Repr := repr + {node};
      forall i, j | 0 <= i && j == i + 1 && j < |before|
        ensures i != k - 1 ==> before[i].Next == before[j]
        ensures j != k ==> before[j].Prev == before[i]
      {
        assert before[i] != node && before[j] != node;
        assert old(before[i].Next) == before[j] && old(before[j].Prev) == before[i];
      }
      forall i | 0 <= i < |before| ensures before[i].Data == contents[i] {
        assert before[i] != node;
      }
      Spliced(node, k, before, contents, repr);
    }

    /** A chain of distinct nodes, whose links were re-pointed at a new node around position k,
        is valid again once the node is recorded at that position. */
    lemma Spliced(node: Node<T>, k: int, before: seq<Node<T>>, contents: seq<T>, repr: set<object>)
      requires 0 <= k <= |before| == |contents| && Distinct(before) && node !in repr
      requires this in repr && forall i :: 0 <= i < |before| ==> before[i] in repr
      requires forall i, j :: 0 <= i && j == i + 1 && j < |before| ==>
        (i != k - 1 ==> before[i].Next == before[j]) && (j != k ==> before[j].Prev == before[i])
      requires forall i :: 0 <= i < |before| ==> before[i].Data == contents[i]
      requires 0 < k ==> before[k - 1].Next == node
      requires k < |before| ==> before[k].Prev == node
      requires node.Next == (if k == |before| then null else before[k])
      requires node.Prev == (if k == 0 then null else before[k - 1])
      requires First == (if k == 0 then node else before[0])
      requires Last == (if k == |before| then node else before[|before| - 1])
      requires before != [] && k != 0 ==> before[0].Prev == null
      requires before != [] && k != |before| ==> before[|before| - 1].Next == null
      requires Length == |before| + 1 && Repr == repr + {node}
      requires Nodes == InsertedAt(before, k, node)
      requires Contents == InsertedAt(contents, k, node.Data)
      ensures Valid()
    {
      InsertedDistinct(before, k, node);
      forall i, j | 0 <= i && j == i + 1 && j < |Nodes|
        ensures Nodes[i].Next == Nodes[j] && Nodes[j].Prev == Nodes[i]
      {
        if j < k {
          assert Nodes[i] == before[i] && Nodes[j] == before[j];
        } else if i > k {
          assert Nodes[i] == before[i - 1] && Nodes[j] == before[j - 1];
        }
      }
    }

    /** `AddToChainFront(node)`. */
    method AddToChainFront(node: Node<T>)
      requires Valid() && node !in Repr
      modifies this, node, First
      ensures Valid() && Repr == old(Repr) + {node}
      ensures Contents == [old(node.Data)] + old(Contents)
    {
      AddToChain(node, null, First, 0);
    }

    /** `AddToChainBack(node)`. */
    method AddToChainBack(node: Node<T>)
      requires Valid() && node !in Repr
      modifies this, node, Last
      ensures Valid() && Repr == old(Repr) + {node}
      ensures Contents == old(Contents) + [old(node.Data)]
    {
      AddToChain(node, Last, null, |Nodes|);
    }

    /** `RemoveFromChain(node)` for the node at position k: its neighbours are linked to each
        other, and the removed node keeps its own Prev and Next. */
    method RemoveFromChain(node: Node<T>, ghost k: int)
      requires Valid() && 0 <= k < |Nodes| && node == Nodes[k]
      modifies Repr
      ensures Valid() && Repr == old(Repr)
      ensures Nodes == RemovedAt(old(Nodes), k) && Contents == RemovedAt(old(Contents), k)
      ensures node.Next == old(node.Next) && node.Prev == old(node.Prev)
    {
      ghost var before, contents := Nodes, Contents;
      Links(k);
      if node.Prev != null {
        node.Prev.Next := node.Next;
      } else {
        First := node.Next;
      }
      if node.Next != null {
        node.Next.Prev := node.Prev;
      } else {
        Last := node.Prev;
      }
      Length := Length - 1;
      Nodes := RemovedAt(before, k);
      Contents := RemovedAt(contents, k);
      forall i, j | 0 <= i && j == i + 1 && j < |before|
        ensures i != k - 1 ==> before[i].Next == before[j]
        ensures j != k + 1 ==> before[j].Prev == before[i]
      {
        assert old(before[i].Next) == before[j] && old(before[j].Prev) == before[i];
      }
      forall i | 0 <= i < |before| ensures before[i].Data == contents[i] {
        assert old(before[i].Data) == contents[i];
      }
      Unspliced(k, before, contents);
    }

    /** A chain of distinct nodes whose neighbours of position k were linked to each other is
        valid again once position k is dropped from it. */
    lemma Unspliced(k: int, before: seq<Node<T>>, contents: seq<T>)
      requires 0 <= k < |before| == |contents| && Distinct(before)
      requires this in Repr && forall i :: 0 <= i < |before| ==> before[i] in Repr
      requires forall i, j :: 0 <= i && j == i + 1 && j < |before| ==>
        (i != k - 1 ==> before[i].Next == before[j]) && (j != k + 1 ==> before[j].Prev == before[i])
      requires forall i :: 0 <= i < |before| ==> before[i].Data == contents[i]
      requires 0 < k ==> before[k - 1].Next == (if k + 1 < |before| then before[k + 1] else null)
      requires k + 1 < |before| ==> before[k + 1].Prev == (if 0 < k then before[k - 1] else null)
      requires First == if k == 0 then (if 1 < |before| then before[1] else null) else before[0]
      requires Last == if k + 1 == |before| then (if 0 < k then before[k - 1] else null) else before[|before| - 1]
      requires k != 0 ==> before[0].Prev == null
      requires k + 1 != |before| ==> before[|before| - 1].Next == null
      requires Length == |before| - 1
      requires Nodes == RemovedAt(before, k) && Contents == RemovedAt(contents, k)
      ensures Valid()
    {
      RemovedDistinct(before, k);
      forall i, j | 0 <= i && j == i + 1 && j < |Nodes|
        ensures Nodes[i].Next == Nodes[j] && Nodes[j].Prev == Nodes[i]
      {
        if j < k {
          assert Nodes[i] == before[i] && Nodes[j] == before[j];
        } else if i >= k {
          assert Nodes[i] == before[i + 1] && Nodes[j] == before[j + 1];
        } else {
          assert Nodes[i] == before[k - 1] && Nodes[j] == before[k + 1];
        }
      }
    }

    /** `Add(item)` and `PushBack(item)`: the item becomes the last element. */
    method Add(item: T)
      requires Valid()
      modifies Repr
      ensures Valid() && fresh(Repr - old(Repr))
      ensures Contents == old(Contents) + [item] && Length == old(Length) + 1
    {
      var newItem := new Node(item);
      AddToChain(newItem, Last, null, |Nodes|);
    }

    method PushBack(item: T)
      requires Valid()
      modifies Repr
      ensures Valid() && fresh(Repr - old(Repr))
      ensures Contents == old(Contents) + [item] && Length == old(Length) + 1
    {
      Add(item);
    }

    /** `RemoveByNode(node)`: unlinks a node of this list; the unlinked node keeps its Next, so
        a caller walking the list can go on from it. A null node throws. */
    method RemoveByNode(node: Node?<T>) returns (r: Outcome)
      requires Valid() && (node == null || node in Nodes)
      modifies Repr
      ensures Valid() && Repr == old(Repr)
      ensures node == null ==> r == Fail(NullReference) && Contents == old(Contents)
      ensures node != null ==>
        r == Done && Nodes == RemovedAt(old(Nodes), IndexOf(old(Nodes), node)) &&
        Contents == RemovedAt(old(Contents), IndexOf(old(Nodes), node)) &&
        node.Next == old(node.Next)
    {
      if node == null {
        return Fail(NullReference);
      }
      var k := IndexOf(Nodes, node);
      RemoveFromChain(node, k);
      return Done;
    }

    /** `Remove(item)`: removes the first element equal to the item, if any. */
    method Remove(item: T)
      requires Valid()
      modifies Repr
      ensures Valid() && Repr == old(Repr)
      ensures Contents == RemovedFirst(old(Contents), item)
    {
      if Length > 0 {
        var toBeRemoved := Find(item);
        if toBeRemoved != null {
          RemoveFromChain(toBeRemoved, IndexOf(Contents, item));
        }
      }
    }

    /** `RemoveAt(index)`: removes position index, or does nothing when index >= Length. */
    method RemoveAt(index: int)
      requires Valid() && 0 <= index
      modifies Repr
      ensures Valid() && Repr == old(Repr)
      ensures Contents == if index < |old(Contents)| then RemovedAt(old(Contents), index) else old(Contents)
    {
      if index < Length {
        var toBeRemoved := GetNodeAt(index);
        if toBeRemoved.Ok? {
          RemoveFromChain(toBeRemoved.value, index);
        }
      }
    }

    /** `PopBack()`: removes and returns the last element; an empty list throws. */
    method PopBack() returns (r: Result<T>)
      requires Valid()
      modifies Repr
      ensures Valid() && Repr == old(Repr)
      ensures old(Length) == 0 ==> r == Err(InvalidOperation) && Contents == old(Contents)
      ensures old(Length) > 0 ==>
        r == Ok(old(Contents)[|old(Contents)| - 1]) &&
        Contents == old(Contents)[..|old(Contents)| - 1]
    {
      if Length == 0 {
        return Err(InvalidOperation);
      }
      var ret := Last.Data;
      RemoveFromChain(Last, |Nodes| - 1);
      return Ok(ret);
    }

    /** `Get(index)` and the indexer's getter. */
    method Get(index: int) returns (r: Result<T>)
      requires Valid() && 0 <= index
      ensures r == if index < |Contents| then Ok(Contents[index]) else Err(IndexOutOfRange)
    {
      var node :- GetNodeAt(index);
      return Ok(node.Data);
    }

    /** `SetAt(index, data)` and the indexer's setter: replaces one element; an index past the
        end throws. */
    method SetAt(index: int, data: T) returns (r: Outcome)
      requires Valid() && 0 <= index
      modifies Repr
      ensures Valid() && Repr == old(Repr) && Length == old(Length)
      ensures index < old(Length) ==> r == Done && Contents == old(Contents)[index := data]
      ensures index >= old(Length) ==> r == Fail(IndexOutOfRange) && Contents == old(Contents)
    {
      var node := GetNodeAt(index);
      if node.Err? {
        return Fail(node.error);
      }
      node.value.Data := data;
      Contents := Contents[index := data];
      return Done;
    }

    /** `GetLLItemByIndex(index)`. The program walks forward when index <= index / 2, which for
        a non-negative index holds only for 0, and backward from Last otherwise. */
    method GetNodeAt(index: int) returns (r: Result<Node<T>>)
      requires Valid() && 0 <= index
      ensures index < |Nodes| ==> r == Ok(Nodes[index])
      ensures index >= |Nodes| ==> r == Err(IndexOutOfRange)
    {
      if index < Length {
        var firstHalf := index / 2;
        var node;
        if index <= firstHalf {
          node := SearchByIndexForward(index);
        } else {
          node := SearchByIndexBackward(index);
        }
        return Ok(node);
      }
      return Err(IndexOutOfRange);
    }

    /** `SearchByIndexForward(index)`: follows Next index times from First. */
    method SearchByIndexForward(index: int) returns (node: Node<T>)
      requires Valid() && 0 <= index < Length
      ensures node == Nodes[index]
    {
      node := First;
      var i := 0;
      while i < index
        invariant Valid() && 0 <= i <= index && node == Nodes[i]
      {
        Links(i);
        node := node.Next;
        i := i + 1;
      }
    }

    /** `SearchByIndexBackward(index)`: follows Prev from Last down to index. */
    method SearchByIndexBackward(index: int) returns (node: Node<T>)
      requires Valid() && 0 <= index < Length
      ensures node == Nodes[index]
    {
      node := Last;
      var i := Length - 1;
      while i > index
        invariant Valid() && index <= i < Length && node == Nodes[i]
      {
        Links(i);
        node := node.Prev;
        i := i - 1;
      }
    }

    /** `Contains(data)`. */
    method Contains(data: T) returns (b: bool)
      requires Valid()
      ensures b <==> data in Contents
    {
      var node := First;
      ghost var i := 0;
      while node != null
        invariant Valid() && 0 <= i <= |Nodes|
        invariant node == if i < |Nodes| then Nodes[i] else null
        invariant data !in Contents[..i]
        decreases |Nodes| - i
      {
        if node.Data == data {
          return true;
        }
        assert Contents[..i + 1] == Contents[..i] + [Contents[i]];
        Links(i);
        node := node.Next;
        i := i + 1;
      }
      assert Contents[..i] == Contents;
      return false;
    }

    /** `Find(data)` (`GetLLItemByData`): the node of the first element equal to data, or null. */
    method Find(data: T) returns (node: Node?<T>)
      requires Valid()
      ensures IndexOf(Contents, data) == -1 ==> node == null
      ensures IndexOf(Contents, data) != -1 ==> node == Nodes[IndexOf(Contents, data)]
    {
      node := First;
      ghost var i := 0;
      while node != null && data != node.Data
        invariant Valid() && 0 <= i <= |Nodes|
        invariant node == if i < |Nodes| then Nodes[i] else null
        invariant data !in Contents[..i]
        decreases |Nodes| - i
      {
        assert Contents[..i + 1] == Contents[..i] + [Contents[i]];
        Links(i);
        node := node.Next;
        i := i + 1;
      }
      IndexOfIsFirst(Contents, data);
      if node == null {
        assert Contents[..i] == Contents;
      }
    }

    /** `Clear()`. */
    method Clear()
      requires Valid()
      modifies this
      ensures Valid() && Contents == [] && Length == 0
    {
      First := null;
      Last := null;
      Length := 0;
      Nodes := [];
      Contents := [];
    }

    /** `ToArray()`: a fresh array with the elements in order. */
    method ToArray() returns (arr: array<T>)
      requires Valid()
      ensures fresh(arr) && arr[..] == Contents
    {
      arr := new T[Length];
      var idx := 0;
      var node := First;
      while node != null
        invariant Valid() && 0 <= idx <= |Nodes| == arr.Length
        invariant node == if idx < |Nodes| then Nodes[idx] else null
        invariant arr[..idx] == Contents[..idx]
        decreases |Nodes| - idx
      {
        Links(idx);
        arr[idx] := node.Data;
        idx := idx + 1;
        node := node.Next;
      }
      assert arr[..] == arr[..idx];
      assert Contents == Contents[..idx];
    }
  }
}
