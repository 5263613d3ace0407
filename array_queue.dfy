/** `structures::ArrayQueue<T>`: a bounded FIFO queue stored in a fixed array. The oldest element
    is always at index 0; `dequeue` shifts the rest down one slot. */
module ArrayQueues {
  import opened Exceptions

  /** `DEFAULT_SIZE`, the capacity of a queue built without one. */
  const DefaultSize: nat := 10

  class ArrayQueue<T(0)> {
    var contents: array<T>
    var size: nat
    var maxSize: nat

    ghost predicate Valid()
      reads this
    {
      contents.Length == maxSize && size <= maxSize
    }

    /** The queued elements, oldest first. */
    ghost function Contents(): seq<T>
      reads this, contents
      requires Valid()
    {
      contents[..size]
    }

    constructor ()
      ensures Valid() && fresh(contents)
      ensures maxSize == DefaultSize && Contents() == []
    {
      contents := new T[DefaultSize];
      size := 0;
      maxSize := DefaultSize;
    }

    constructor WithCapacity(max: nat)
      ensures Valid() && fresh(contents)
      ensures maxSize == max && Contents() == []
    {
      contents := new T[max];
      size := 0;
      maxSize := max;
    }

    /** Throws when full, otherwise writes `contents[size_++]`. */
    method Enqueue(d: T) returns (r: Outcome)
      requires Valid()
      modifies this, contents
      ensures Valid() && contents == old(contents) && maxSize == old(maxSize)
      ensures r == if |old(Contents())| == maxSize then Fails(FullQueue) else Done
      ensures Contents() == if r.Done? then old(Contents()) + [d] else old(Contents())
    {
      if Full() {
        return Fails(FullQueue);
      }
      contents[size] := d;
      size := size + 1;
      return Done;
    }

    /** Throws when empty, otherwise returns `contents[0]`, the oldest element, and moves the
        others one slot down. */
    method Dequeue() returns (r: Result<T>)
      requires Valid()
      modifies this, contents
      ensures Valid() && contents == old(contents) && maxSize == old(maxSize)
      ensures old(Contents()) == [] ==> r == Throws(EmptyQueue) && Contents() == []
      ensures old(Contents()) != [] ==>
                r == Ok(old(Contents())[0]) && Contents() == old(Contents())[1..]
    {
      if Empty() {
        return Throws(EmptyQueue);
      }
      var aux := contents[0];
      size := size - 1;
      MoveElements();
      return Ok(aux);
    }

    /** Called after `size_` has been decremented: copies slot `i + 1` into slot `i` for every
        `i < size_`, so it reads no slot beyond the old last element. */
    method MoveElements()
      requires contents.Length == maxSize && size < maxSize
      modifies contents
      ensures contents[..size] == old(contents[1..size + 1])
      ensures contents[size..] == old(contents[size..])
    {
      var i := 0;
      while i < size
        invariant 0 <= i <= size
        invariant forall k :: 0 <= k < i ==> contents[k] == old(contents[k + 1])
        invariant forall k :: i <= k < contents.Length ==> contents[k] == old(contents[k])
      {
        contents[i] := contents[i + 1];
        i := i + 1;
      }
    }

    /** Throws when empty, otherwise returns the element enqueued last; nothing changes. */
    method Back() returns (r: Result<T>)
      requires Valid()
      ensures Contents() == [] ==> r == Throws(EmptyQueue)
      ensures Contents() != [] ==> r == Ok(Contents()[|Contents()| - 1])
    {
      if Empty() {
        return Throws(EmptyQueue);
      }
      return Ok(contents[size - 1]);
    }

    method Clear()
      requires Valid()
      modifies this
      ensures Valid() && contents == old(contents) && maxSize == old(maxSize)
      ensures Contents() == []
    {
      size := 0;
    }

    function Size(): (r: nat)
      reads this, contents
      requires Valid()
      ensures r == |Contents()|
    {
      size
    }

    function MaxSize(): (r: nat)
      reads this
      requires Valid()
      ensures r == contents.Length
    {
      maxSize
    }

    function Empty(): (r: bool)
      reads this, contents
      requires Valid()
      ensures r <==> Contents() == []
    {
      size == 0
    }

    function Full(): (r: bool)
      reads this, contents
      requires Valid()
      ensures r <==> |Contents()| == contents.Length
    {
      size == maxSize
    }
  }

  /** Elements leave the queue in the order they entered it: two enqueues into an empty queue
      followed by two dequeues give them back first-in first-out. */
  method FirstInFirstOut<T(0)>(q: ArrayQueue<T>, x: T, y: T) returns (first: Result<T>, second: Result<T>)
    requires q.Valid() && q.Contents() == [] && q.maxSize >= 2
    modifies q, q.contents
    ensures first == Ok(x) && second == Ok(y)
    ensures q.Valid() && q.Contents() == []
  {
    var e := q.Enqueue(x);
    e := q.Enqueue(y);
    first := q.Dequeue();
    second := q.Dequeue();
  }
}
