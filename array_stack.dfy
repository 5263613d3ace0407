/** `structures::ArrayStack<T>`: a bounded stack stored in a fixed array, `top_` indexing the top
    element (-1 when empty). */
module ArrayStacks {
  import opened Exceptions
  import SizeT

  /** `DEFAULT_SIZE`, the capacity of a stack built without one. */
  const DefaultSize: nat := 10

  /** `top_` is an `int` (32 bits), so the largest index it can hold is 2^31 - 1: a capacity above
      2^31 would let `++top_` overflow before the stack is full. */
  const MaxCapacity: nat := 0x8000_0000

  class ArrayStack<T(0)> {
    var contents: array<T>
    var top: int
    var maxSize: nat

    /** The object invariant: `-1 <= top_ < max_size_`, and the array has `max_size_` slots, a
        number an `int` index can reach. */
    ghost predicate Valid()
      reads this
    {
      contents.Length == maxSize && maxSize <= MaxCapacity && -1 <= top < maxSize
    }

    /** The stacked elements, bottom first. */
    ghost function Contents(): seq<T>
      reads this, contents
      requires Valid()
    {
      contents[..top + 1]
    }

    constructor ()
      ensures Valid() && fresh(contents)
      ensures maxSize == DefaultSize && Contents() == []
    {
      maxSize := DefaultSize;
      contents := new T[DefaultSize];
      top := -1;
    }

    constructor WithCapacity(max: nat)
      requires max <= MaxCapacity
      ensures Valid() && fresh(contents)
      ensures maxSize == max && Contents() == []
    {
      maxSize := max;
      contents := new T[max];
      top := -1;
    }

    /** Throws when full, otherwise stores `d` at `++top_`. */
    method Push(d: T) returns (r: Outcome)
      requires Valid()
      modifies this, contents
      ensures Valid() && contents == old(contents) && maxSize == old(maxSize)
      ensures r == if |old(Contents())| == maxSize then Fails(FullStack) else Done
      ensures Contents() == if r.Done? then old(Contents()) + [d] else old(Contents())
    {
      if Full() {
        return Fails(FullStack);
      }
      top := top + 1;
      contents[top] := d;
      return Done;
    }

    /** Throws when empty, otherwise returns `contents[top_--]`: the last element pushed. */
    method Pop() returns (r: Result<T>)
      requires Valid()
      modifies this
      ensures Valid() && contents == old(contents) && maxSize == old(maxSize)
      ensures old(Contents()) == [] ==> r == Throws(EmptyStack) && Contents() == []
      ensures old(Contents()) != [] ==>
                r == Ok(old(Contents())[|old(Contents())| - 1]) &&
                Contents() == old(Contents())[..|old(Contents())| - 1]
    {
      if Empty() {
        return Throws(EmptyStack);
      }
      r := Ok(contents[top]);
      top := top - 1;
    }

    /** Throws when empty, otherwise returns the top element; nothing changes. */
    method Top() returns (r: Result<T>)
      requires Valid()
      ensures Contents() == [] ==> r == Throws(EmptyStack)
      ensures Contents() != [] ==> r == Ok(Contents()[|Contents()| - 1])
    {
      if Empty() {
        return Throws(EmptyStack);
      }
      return Ok(contents[top]);
    }

    method Clear()
      requires Valid()
      modifies this
      ensures Valid() && contents == old(contents) && maxSize == old(maxSize)
      ensures Contents() == []
    {
      top := -1;
    }

    /** `top_ + 1`, converted to `std::size_t`. */
    function Size(): (r: nat)
      reads this, contents
      requires Valid()
      ensures r == |Contents()|
    {
      SizeT.Wrap(top + 1)
    }

    function MaxSize(): (r: nat)
      reads this
      requires Valid()
      ensures r == contents.Length
    {
      maxSize
    }

    function Empty(): (r: bool)
      reads this, contents
      requires Valid()
      ensures r <==> Contents() == []
    {
      top == -1
    }

    /** `top_ == max_size_ - 1`, where C++ converts both sides to `std::size_t`: with capacity 0 both
        are the largest `std::size_t`, so a stack without room is full from the start. However the
        conversion falls, the test holds exactly when the stack has no free slot. */
    function Full(): (r: bool)
      reads this, contents
      requires Valid()
      ensures r <==> |Contents()| == maxSize
    {
      SizeT.Wrap(top) == SizeT.Wrap(maxSize - 1)
    }
  }
}
