/**
 * The sentinel-headed singly linked list. The first `Add` creates a head
 * node that never counts as data; data index 0 is the node after the head.
 */
module LinkLists {
  import opened Options
  import opened Nodes

  class LinkList<T> {
    var counter: int
    var head: Node?<T>

    /** The head followed by the data nodes, in link order. */
    ghost var nodes: seq<Node<T>>
    /** The data elements: the values held by nodes[1..]. */
    ghost var Contents: seq<T>
    ghost var Repr: set<object>

    ghost predicate Valid()
      reads this, Repr
      ensures Valid() ==> this in Repr
    {
      this in Repr &&
      (forall k :: 0 <= k < |nodes| ==> nodes[k] in Repr) &&
      counter == |Contents| &&
      (head == null <==> nodes == []) &&
      (head == null ==> Contents == []) &&
      (head != null ==> nodes[0] == head && |nodes| == |Contents| + 1 && Contents != []) &&
      (forall k {:trigger nodes[k].next} :: 0 <= k < |nodes| - 1 ==> nodes[k].next == nodes[k + 1]) &&
      (nodes != [] ==> nodes[|nodes| - 1].next == null) &&
      (forall k {:trigger nodes[k].data} :: 1 <= k < |nodes| ==> nodes[k].data == Contents[k - 1]) &&
      (forall j, k :: 0 <= j < k < |nodes| ==> nodes[j] != nodes[k])
    }

    /** In a chain whose links follow `nodes`, only the last node has no successor. */
    lemma NullLinkMarksLast(k: int)
      requires 0 <= k < |nodes| && nodes[|nodes| - 1].next == null
      requires forall j {:trigger nodes[j].next} :: 0 <= j < |nodes| - 1 ==> nodes[j].next == nodes[j + 1]
      ensures nodes[k].next == null <==> k == |nodes| - 1
    {
      if k < |nodes| - 1 {
        assert nodes[k].next == nodes[k + 1];
      }
    }

    /** A list with no head node and a zero counter. */
    constructor ()
      ensures Valid() && fresh(Repr) && Contents == []
    {
      counter := 0;
      head := null;
      nodes := [];
      Contents := [];
      Repr := {this};
    }

    /**
     * Appends `data`. On a list without a head the head is created first,
     * and a second node holding `data` is still linked after it.
     */
    method Add(data: T)
      requires Valid()
      modifies Repr
      ensures Valid() && fresh(Repr - old(Repr))
      ensures Contents == old(Contents) + [data]
    {
      if head == null {
        head := new Node(data);
        nodes := [head];
        Repr := Repr + {head};
      }
      var temp := new Node(data);
      var nodeCurrent: Node<T> := head;
      ghost var k := 0;
      var nxt := nodeCurrent.GetNext();
      while nxt != null
        modifies {}
        invariant 0 <= k < |nodes| && nodeCurrent == nodes[k] && nxt == nodeCurrent.next
        decreases |nodes| - k
      {
        nodeCurrent := nxt;
        k := k + 1;
        nxt := nodeCurrent.GetNext();
      }
      NullLinkMarksLast(k);
      LinkAtEnd(nodeCurrent, temp, k);
    }

    /**
     * Links `temp` after `last`, the node `k` links after the head, as the
     * last statement of `add` does. The chain may hold only its head.
     */
    method LinkAtEnd(last: Node<T>, temp: Node<T>, ghost k: nat)
      requires this in Repr && head != null && k == |nodes| - 1 && |nodes| == |Contents| + 1
      requires nodes[0] == head && last == nodes[k] && last.next == null && counter == |Contents|
      requires forall j :: 0 <= j < |nodes| ==> nodes[j] in Repr
      requires forall j {:trigger nodes[j].next} :: 0 <= j < |nodes| - 1 ==> nodes[j].next == nodes[j + 1]
      requires forall j {:trigger nodes[j].data} :: 1 <= j < |nodes| ==> nodes[j].data == Contents[j - 1]
      requires forall i, j :: 0 <= i < j < |nodes| ==> nodes[i] != nodes[j]
      requires temp !in Repr && temp.next == null
      modifies this, last
      ensures Valid() && Repr == old(Repr) + {temp}
      ensures nodes == old(nodes) + [temp] && Contents == old(Contents) + [temp.data]
    {
      last.SetNext(temp);
      nodes := nodes + [temp];
      Contents := Contents + [temp.data];
      Repr := Repr + {temp};
      counter := counter + 1;
    }

    /**
     * Inserts `data` after the node reached by walking `index` links from
     * the head, stopping early at the last node: the new element lands at
     * data index min(max(index, 0), size). The head is dereferenced
     * unconditionally, so the list must already hold an element.
     */
    method AddAt(data: T, index: int)
      requires Valid() && Contents != []
      modifies Repr
      ensures Valid() && fresh(Repr - old(Repr))
      ensures var k := if index < 0 then 0 else if index < |old(Contents)| then index else |old(Contents)|;
              Contents == old(Contents)[..k] + [data] + old(Contents)[k..]
    {
      var temp := new Node(data);
      var currentNode: Node<T> := head;
      var i := 0;
      var nxt := currentNode.GetNext();
      while i < index && nxt != null
        modifies {}
        invariant 0 <= i < |nodes| && currentNode == nodes[i] && nxt == currentNode.next
        invariant i == 0 || i <= index
      {
        NullLinkMarksLast(i);
        currentNode := nxt;
        i := i + 1;
        nxt := currentNode.GetNext();
      }
      NullLinkMarksLast(i);
      SpliceAfter(currentNode, temp, i);
    }

    /**
     * Links `temp` between `currentNode` (the node `i` links after the
     * head) and its successor, as the last three statements of
     * `add(E, int)` do.
     */
    method SpliceAfter(currentNode: Node<T>, temp: Node<T>, ghost i: nat)
      requires Valid() && head != null && i < |nodes| && currentNode == nodes[i]
      requires temp !in Repr
      modifies Repr, temp
      ensures Valid() && Repr == old(Repr) + {temp}
      ensures nodes == old(nodes[..i + 1] + [temp] + nodes[i + 1..])
      ensures Contents == old(Contents[..i] + [temp.data] + Contents[i..])
    {
      ghost var oldNodes, oldContents := nodes, Contents;
      var after := currentNode.GetNext();
      temp.SetNext(after);
      currentNode.SetNext(temp);
      nodes := nodes[..i + 1] + [temp] + nodes[i + 1..];
      Contents := Contents[..i] + [temp.data] + Contents[i..];
      Repr := Repr + {temp};
      counter := counter + 1;
      forall k | 0 <= k < |nodes| - 1
        ensures nodes[k].next == nodes[k + 1]
      {
        if k < i {
          assert nodes[k] == oldNodes[k] && nodes[k + 1] == oldNodes[k + 1];
        } else if i + 1 < k {
          assert nodes[k] == oldNodes[k - 1] && nodes[k + 1] == oldNodes[k];
        }
      }
      forall k | 1 <= k < |nodes|
        ensures nodes[k].data == Contents[k - 1]
      {
        if k <= i {
          assert nodes[k] == oldNodes[k] && Contents[k - 1] == oldContents[k - 1];
        } else if i + 1 < k {
          assert nodes[k] == oldNodes[k - 1] && Contents[k - 1] == oldContents[k - 2];
        }
      }
      forall j, k | 0 <= j < k < |nodes|
        ensures nodes[j] != nodes[k]
      {
        if j != i + 1 && k != i + 1 {
          var j', k' := if j <= i then j else j - 1, if k <= i then k else k - 1;
          assert nodes[j] == oldNodes[j'] && nodes[k] == oldNodes[k'];
        }
      }
    }

    /**
     * The element at data index `index`, or None when the index is
     * negative, past the last element, or the list has no head.
     */
    method Get(index: int) returns (r: Option<T>)
      requires Valid()
      ensures r == if 0 <= index < |Contents| then Some(Contents[index]) else None
    {
      if index < 0 {
        return None;
      }
      if head != null {
        var nodeCurrent := head.GetNext();
        var i := 0;
        while i < index
          invariant 0 <= i <= index && i < |Contents| && nodeCurrent == nodes[i + 1]
        {
          var nxt := nodeCurrent.GetNext();
          if nxt == null {
            NullLinkMarksLast(i + 1);
            return None;
          }
          nodeCurrent := nxt;
          i := i + 1;
        }
        var d := nodeCurrent.GetData();
        return Some(d);
      }
      return None;
    }

    /**
     * Accepts 1 <= index <= size but unlinks the element at data index
     * `index`, so the element at index 0 can never be removed. With
     * index == size the walk ends on the last node and its missing
     * successor is dereferenced; callers must not ask for that.
     */
    method Remove(index: int) returns (removed: bool)
      requires Valid()
      requires 1 <= index ==> index != |Contents|
      modifies Repr
      ensures Valid() && Repr == old(Repr)
      ensures removed <==> 1 <= index < |old(Contents)|
      ensures Contents == if removed then old(Contents)[..index] + old(Contents)[index + 1..] else old(Contents)
    {
      if index < 1 || index > Size() {
        return false;
      }
      // A size of at least one means the head exists; the walk never meets
      // a missing successor, because index < size.
      var currentNode: Node<T> := head;
      var i := 0;
      while i < index
        modifies {}
        invariant 0 <= i <= index && currentNode == nodes[i]
      {
        var nxt := currentNode.GetNext();
        assert nxt == nodes[i + 1];
        currentNode := nxt;
        i := i + 1;
      }
      UnlinkAfter(currentNode, index);
      return true;
    }

    /**
     * Unlinks the successor of `currentNode` (the node `i` links after the
     * head), as the last statements of `remove` do.
     */
    method UnlinkAfter(currentNode: Node<T>, ghost i: nat)
      requires Valid() && 1 <= i < |Contents| && currentNode == nodes[i]
      modifies Repr
      ensures Valid() && Repr == old(Repr)
      ensures nodes == old(nodes[..i + 1] + nodes[i + 2..])
      ensures Contents == old(Contents[..i] + Contents[i + 1..])
    {
      assert currentNode.next == nodes[i + 1];
      var victim := currentNode.GetNext();
      var after := victim.GetNext();
      ghost var oldNodes, oldContents := nodes, Contents;
      currentNode.SetNext(after);
      nodes := nodes[..i + 1] + nodes[i + 2..];
      Contents := Contents[..i] + Contents[i + 1..];
      counter := counter - 1;
      forall k | 0 <= k < |nodes| - 1
        ensures nodes[k].next == nodes[k + 1]
      {
        if k < i {
          assert nodes[k] == oldNodes[k] && nodes[k + 1] == oldNodes[k + 1];
        } else if i < k {
          assert nodes[k] == oldNodes[k + 1] && nodes[k + 1] == oldNodes[k + 2];
        }
      }
      forall k | 1 <= k < |nodes|
        ensures nodes[k].data == Contents[k - 1]
      {
        if k <= i {
          assert nodes[k] == oldNodes[k] && Contents[k - 1] == oldContents[k - 1];
        } else {
          assert nodes[k] == oldNodes[k + 1] && Contents[k - 1] == oldContents[k];
        }
      }
      forall j, k | 0 <= j < k < |nodes|
        ensures nodes[j] != nodes[k]
      {
        var j', k' := if j <= i then j else j + 1, if k <= i then k else k + 1;
        assert nodes[j] == oldNodes[j'] && nodes[k] == oldNodes[k'];
      }
    }

    /** The counter kept by Add, AddAt and Remove. */
    function Size(): (n: int)
      reads this, Repr
      requires Valid()
      ensures n == |Contents|
    {
      counter
    }

    /** A fresh iterator positioned on the head. */
    method Iterator() returns (it: ListIterator<T>)
      requires Valid()
      ensures fresh(it) && it.Valid() && it.list == this && it.position == 0
    {
      it := new ListIterator(this);
    }
  }

  /** A cursor over a list's nodes that starts at the head and yields data in index order. */
  class ListIterator<T> {
    var currentNode: Node?<T>
    ghost const list: LinkList<T>
    /** How many elements have been returned so far. */
    ghost var position: nat

    ghost predicate Valid()
      reads this, list, list.Repr
    {
      list.Valid() &&
      position <= |list.Contents| &&
      (list.nodes == [] ==> currentNode == null) &&
      (list.nodes != [] ==> currentNode == list.nodes[position])
    }

    constructor (list: LinkList<T>)
      requires list.Valid()
      ensures Valid() && this.list == list && position == 0
    {
      currentNode := list.head;
      this.list := list;
      position := 0;
    }

    /** The cursor is dereferenced, so the list must have a head. */
    method HasNext() returns (b: bool)
      requires Valid() && list.Contents != []
      ensures b <==> position < |list.Contents|
    {
      assert position < |list.nodes| - 1 ==> list.nodes[position].next == list.nodes[position + 1];
      var nxt := currentNode.GetNext();
      b := nxt != null;
    }

    method Next() returns (r: Option<T>)
      requires Valid() && list.Contents != []
      modifies this
      ensures Valid()
      ensures old(position) < |list.Contents| ==> r == Some(list.Contents[old(position)]) && position == old(position) + 1
      ensures old(position) == |list.Contents| ==> r == None && position == old(position)
    {
      var more := HasNext();
      if more {
        currentNode := currentNode.GetNext();
        position := position + 1;
        var d := currentNode.GetData();
        return Some(d);
      }
      return None;
    }
  }
}
