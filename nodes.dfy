/** A cell of the singly linked list: one value and a link to the next cell. */
module Nodes {

  class Node<T> {
    var next: Node?<T>
    var data: T

    /** A node holding `data` with no successor. */
    constructor (data: T)
      ensures this.data == data && next == null
    {
      next := null;
      this.data := data;
    }

    /** A node holding `data` linked to `nextValue`. */
    constructor WithNext(data: T, nextValue: Node?<T>)
      ensures this.data == data && next == nextValue
    {
      this.data := data;
      next := nextValue;
    }

    method GetData() returns (d: T)
      ensures d == data
    {
      d := data;
    }

    method SetData(dataValue: T)
      modifies this`data
      ensures data == dataValue && next == old(next)
    {
      data := dataValue;
    }

    method GetNext() returns (n: Node?<T>)
      ensures n == next
    {
      n := next;
    }

    method SetNext(nextValue: Node?<T>)
      modifies this`next
      ensures next == nextValue && data == old(data)
    {
      next := nextValue;
    }
  }
}
