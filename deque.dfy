/** A double-ended queue kept in a circular array that doubles when full
    (Deque/deque.h). Slots front, front + 1, ... of the array, wrapping past its
    end, hold the elements from front to back. */
module Deques {
  import opened Failures

  /** An index one lap past the end of an array of n slots, brought back to the start. */
  function Wrap(k: int, n: int): int
  {
    if k < n then k else k - n
  }

  /** Where `resize(position)` puts old slot i: the block from `position` on moves up
      by `shift` slots, the rest stays. */
  function Moved(i: int, position: int, shift: int): int
  {
    if i < position then i else i + shift
  }

  /** After growing at the end of a full array of n slots, element i of a deque that
      started at slot 0 is in slot i, which is also slot 2n + i wrapped. */
  lemma SlotAfterGrowAtEnd(n: int, i: int)
    requires 0 <= i < n
    ensures Moved(Wrap(i, n), n, n) == Wrap(i, 2 * n) == Wrap(2 * n + i, 2 * n)
  {
  }

  /** After growing a full array of n slots at the front slot f, element i of the
      deque sits in slot f + n + i of the doubled array, wrapped. */
  lemma SlotAfterGrowAt(n: int, f: int, i: int)
    requires 0 <= f < n && 0 <= i < n
    ensures Moved(Wrap(f + i, n), f, n) == Wrap(f + n + i, 2 * n)
  {
  }

  /** The slot `operator[]` reads for position `pos`, with the `static_cast<int>` of
      the 64-bit `size_t` argument written out; None is the out_of_range throw. */
  function SlotAsWritten(front: int, arraySize: int, size: int, pos: nat): Option<int>
  {
    var a := Int32(pos);
    if a >= 0 && a < size then
      if front + a < arraySize then Some(front + pos) else Some(front + pos - arraySize)
    else None
  }

  /** The two's-complement value of the low 32 bits of x. */
  function Int32(x: nat): (r: int)
    ensures -0x8000_0000 <= r < 0x8000_0000
    ensures x < 0x8000_0000 ==> r == x
  {
    var m := x % 0x1_0000_0000;
    if m < 0x8000_0000 then m else m - 0x1_0000_0000
  }

  /** A position of 2^32 passes the range check of a one-element deque as 0 but is
      then used unconverted: the slot read lies far outside the three-slot array. */
  lemma SlotAsWrittenEscapes()
    ensures SlotAsWritten(0, 3, 1, 0x1_0000_0000) == Some(0x1_0000_0000)
  {
  }

  class Deque<T(0)> {
    // public view
    ghost var Contents: seq<T>
    ghost var Repr: set<object>

    // implementation: the fields of the C++ class, `array_size` named capacity
    var data: array<T>
    var size: int
    var capacity: int
    var front: int
    var tail: int

    /** The representation invariant. While the deque holds elements the array has
        `capacity` slots, `tail` is the slot of the last element, and element i sits
        in slot front + i, wrapped. While it is empty only the counters matter:
        `Clear` resets `capacity` without installing a matching array. */
    ghost predicate Valid()
      reads this, Repr
      ensures Valid() ==> this in Repr
    {
      this in Repr && data in Repr &&
      1 <= capacity && 0 <= size <= capacity && |Contents| == size &&
      (size > 0 ==>
        0 <= front < capacity && 0 <= tail < capacity &&
        tail == Wrap(front + size - 1, capacity) && Placed(front))
    }

    /** Element i of the contents sits in slot first + i of the array, wrapped. */
    ghost predicate Placed(first: int)
      reads this, Repr
    {
      data in Repr && data.Length == capacity && |Contents| == size <= capacity &&
      0 <= first <= capacity &&
      forall i :: 0 <= i < size ==> Contents[i] == data[Wrap(first + i, capacity)]
    }

    constructor ()
      ensures Valid() && fresh(Repr) && Contents == []
    {
      data := new T[3];
      size, capacity, front, tail := 0, 3, -1, 0;
      Contents := [];
      Repr := {this, data};
    }

    function Empty(): (b: bool)
      requires Valid()
      reads Repr
      ensures b <==> Contents == []
    {
      size == 0
    }

    function Size(): (n: int)
      requires Valid()
      reads Repr
      ensures n == |Contents|
    {
      size
    }

    /** `check_full`: every slot of the array holds an element. */
    function IsFull(): (b: bool)
      requires Valid()
      reads Repr
      ensures b <==> |Contents| == capacity
      ensures b && Contents != [] ==> data.Length == |Contents|
    {
      size == capacity
    }

    /** `operator[]`: the element at position `pos`, or out_of_range. */
    function Get(pos: nat): (r: Result<T>)
      requires Valid()
      reads Repr
      ensures pos < |Contents| ==> r == Ok(Contents[pos])
      ensures pos >= |Contents| ==> r == Err(OutOfRange)
    {
      if pos < size then
        if front + pos < capacity then Ok(data[front + pos]) else Ok(data[front + pos - capacity])
      else Err(OutOfRange)
    }

    function Front(): (r: Result<T>)
      requires Valid()
      reads Repr
      ensures Contents != [] ==> r == Ok(Contents[0])
      ensures Contents == [] ==> r == Err(OutOfRange)
    {
      if size > 0 then Ok(data[front]) else Err(OutOfRange)
    }

    function Back(): (r: Result<T>)
      requires Valid()
      reads Repr
      ensures Contents != [] ==> r == Ok(Contents[|Contents| - 1])
      ensures Contents == [] ==> r == Err(OutOfRange)
    {
      if size > 0 then Ok(data[tail]) else Err(OutOfRange)
    }

    /** Makes the deque empty; the three-slot array it allocates is never installed. */
    method Clear()
      requires Valid()
      modifies Repr
      ensures Valid() && fresh(Repr - old(Repr))
      ensures Contents == [] && capacity == 3 && data == old(data)
    {
      var discarded := new T[3];
      capacity, size, front, tail := 3, 0, -1, 0;
      Contents := [];
    }

    /** `resize(position)`: a full array is copied into one twice as large, the
        block from `position` on moved up by `size` slots. */
    method Resize(position: int, ghost first: int)
      requires this in Repr && 1 <= size == capacity && 0 <= position <= capacity
      requires first < capacity && Placed(first)
      modifies this
      ensures size == old(size) && front == old(front) && tail == old(tail)
      ensures Contents == old(Contents) && Repr == old(Repr) + {data}
      ensures fresh(data) && data.Length == 2 * old(capacity) && capacity == 2 * old(capacity)
      ensures forall i :: 0 <= i < size ==>
        Contents[i] == data[Moved(Wrap(first + i, old(capacity)), position, size)]
    {
      var count := 0;
      var grown := new T[capacity * 2];
      for i := 0 to capacity
        modifies grown
        invariant count == if i <= position then i else i + size
        invariant forall j :: 0 <= j < i ==> grown[Moved(j, position, size)] == data[j]
      {
        if position == i {
          count := i + size;
        }
        grown[count] := data[i];
        count := count + 1;
      }
      forall i | 0 <= i < size
        ensures Contents[i] == grown[Moved(Wrap(first + i, capacity), position, size)]
      {
        assert Contents[i] == data[Wrap(first + i, capacity)];
      }
      data := grown;
      capacity := capacity * 2;
      Repr := Repr + {data};
    }

    /** The state halfway through a push: the array has room, `tail` is where
        Valid() wants it once `size` counts one more, and the elements sit from slot
        `first` on; the slot the new element goes to is free. */
    ghost predicate Room(first: int)
      reads this, Repr
    {
      this in Repr && data in Repr && |Contents| == size &&
      data.Length == capacity && 0 <= size < capacity &&
      0 <= front < capacity && 0 <= tail < capacity &&
      tail == Wrap(front + size, capacity) && Placed(first)
    }

    /** How a push into an empty deque starts over: a fresh three-slot array with
        `front` and `tail` at slot 0. */
    method Restart()
      requires Valid() && size == 0
      modifies this
      ensures Room(front) && Room(front + 1) && Contents == old(Contents)
      ensures front == tail == 0 && fresh(data) && Repr == old(Repr) + {data}
    {
      front, tail := 0, 0;
      data := new T[3];
      capacity := 3;
      Repr := Repr + {data};
    }

    /** The index work of `PushFront` before the store: steps `front` back one slot,
        growing the array first when it is full. */
    method RoomFront()
      requires Valid()
      modifies Repr
      ensures Room(front + 1) && fresh(Repr - old(Repr)) && Contents == old(Contents)
    {
      if size == 0 {
        Restart();
      } else if front == 0 {
        FrontAround();
      } else {
        FrontDown();
      }
    }

    /** `PushFront` with the front in slot 0: the new front is the last slot, of the
        doubled array if this one is full. */
    method FrontAround()
      requires Valid() && size > 0 && front == 0
      modifies this
      ensures Room(front + 1) && Repr - old(Repr) <= {data} && fresh(Repr - old(Repr))
      ensures Contents == old(Contents)
    {
      front := capacity - 1;
      if size == capacity {
        Resize(capacity, 0);
        front := capacity - 1;
        forall i | 0 <= i < size
          ensures Contents[i] == data[Wrap(front + 1 + i, capacity)]
        {
          SlotAfterGrowAtEnd(size, i);
        }
      }
    }

    /** `PushFront` with the front past slot 0: the new front is the slot below it;
        a full array is doubled with the block from the front moved up first. */
    method FrontDown()
      requires Valid() && size > 0 && front > 0
      modifies this
      ensures Room(front + 1) && Repr - old(Repr) <= {data} && fresh(Repr - old(Repr))
      ensures Contents == old(Contents)
    {
      front := front - 1;
      if size == capacity {
        front := front + 1;
        Resize(front, front);
        forall i | 0 <= i < size
          ensures Contents[i] == data[Wrap(front + size + i, capacity)]
        {
          SlotAfterGrowAt(size, front, i);
        }
        front := front + size - 1;
      }
    }

    method PushFront(value: T)
      requires Valid()
      modifies Repr
      ensures Valid() && fresh(Repr - old(Repr))
      ensures Contents == [value] + old(Contents)
    {
      RoomFront();
      size := size + 1;
      data[front] := value;
      Contents := [value] + Contents;
    }

    /** The index work of `PushBack` before the store: steps `tail` on one slot,
        growing the array first when it is full. */
    method RoomBack()
      requires Valid()
      modifies Repr
      ensures Room(front) && fresh(Repr - old(Repr)) && Contents == old(Contents)
    {
      if size == 0 {
        Restart();
      } else if tail == size - 1 {
        BackUnwrapped();
      } else if tail == capacity - 1 {
        if front != 0 {
          tail := 0;
        } else {
          // front == 0 would put the last element in slot size - 1, the branch above
          assert false;
        }
      } else {
        BackUp();
      }
    }

    /** `PushBack` with the tail in slot size - 1, that is with the front in slot 0:
        the new tail is the next slot, of the doubled array if this one is full. */
    method BackUnwrapped()
      requires Valid() && size > 0 && tail == size - 1
      modifies this
      ensures Room(front) && Repr - old(Repr) <= {data} && fresh(Repr - old(Repr))
      ensures Contents == old(Contents)
    {
      tail := tail + 1;
      if size == capacity {
        Resize(tail, front);
        forall i | 0 <= i < size
          ensures Contents[i] == data[Wrap(front + i, capacity)]
        {
          SlotAfterGrowAtEnd(size, i);
        }
      }
    }

    /** `PushBack` with the tail below the last slot and not in slot size - 1: the new
        tail is the next slot; when that is the front, the array is doubled with the
        block from the front moved up. */
    method BackUp()
      requires Valid() && size > 0 && tail != size - 1 && tail < capacity - 1
      modifies this
      ensures Room(front) && Repr - old(Repr) <= {data} && fresh(Repr - old(Repr))
      ensures Contents == old(Contents)
    {
      tail := tail + 1;
      if size == capacity {
        Resize(front, front);
        forall i | 0 <= i < size
          ensures Contents[i] == data[Wrap(front + size + i, capacity)]
        {
          SlotAfterGrowAt(size, front, i);
        }
        front := front + size;
      }
    }

    method PushBack(value: T)
      requires Valid()
      modifies Repr
      ensures Valid() && fresh(Repr - old(Repr))
      ensures Contents == old(Contents) + [value]
    {
      RoomBack();
      size := size + 1;
      data[tail] := value;
      Contents := Contents + [value];
    }

    method PopFront() returns (r: Outcome)
      requires Valid()
      modifies Repr
      ensures Valid() && fresh(Repr - old(Repr))
      ensures old(Contents) == [] ==> r == Fail(OutOfRange) && Contents == []
      ensures old(Contents) != [] ==> r == Pass && Contents == old(Contents)[1..]
    {
      if size == 0 {
        return Fail(OutOfRange);
      } else if size == 1 {
        front, tail := -1, -1;
        size := size - 1;
      } else if front == capacity - 1 {
        front := 0;
        size := size - 1;
      } else {
        front := front + 1;
        size := size - 1;
      }
      Contents := Contents[1..];
      r := Pass;
    }

    method PopBack() returns (r: Outcome)
      requires Valid()
      modifies Repr
      ensures Valid() && fresh(Repr - old(Repr))
      ensures old(Contents) == [] ==> r == Fail(OutOfRange) && Contents == []
      ensures old(Contents) != [] ==> r == Pass && Contents == old(Contents)[..|old(Contents)| - 1]
    {
      if size == 0 {
        return Fail(OutOfRange);
      } else if size == 1 {
        front, tail := -1, -1;
        size := size - 1;
      } else if tail == 0 {
        tail := capacity - 1;
        size := size - 1;
      } else {
        tail := tail - 1;
        size := size - 1;
      }
      Contents := Contents[..|Contents| - 1];
      r := Pass;
    }

    /** Halves the array, repacking the elements from slot 0, when fewer than a
        quarter of its slots are in use; otherwise does nothing. */
    method ShrinkToFit()
      requires Valid()
      modifies Repr
      ensures Valid() && fresh(Repr - old(Repr))
      ensures Contents == old(Contents)
      ensures old(capacity) / 4 > old(size) ==> capacity == old(capacity) / 2 && front == 0 && tail == old(size) - 1
      ensures old(capacity) / 4 <= old(size) ==>
        capacity == old(capacity) && data == old(data) && front == old(front) && tail == old(tail)
    {
      if capacity / 4 > size {
        var shrunk := new T[capacity / 2];
        var tempFront := front;
        for i := 0 to size
          modifies shrunk
          invariant size > 0 ==> tempFront == if front + i <= capacity then front + i else front + i - capacity
          invariant forall j :: 0 <= j < i ==> shrunk[j] == Contents[j]
        {
          if tempFront >= capacity {
            tempFront := 0;
          }
          shrunk[i] := data[tempFront];
          tempFront := tempFront + 1;
        }
        front := 0;
        tail := size - 1;
        capacity := capacity / 2;
        data := shrunk;
        Repr := Repr + {data};
      }
    }
  }
}
