/** The boarding-order program (Deque/plane_boarding.cc): passengers numbered at
    most the first-class capacity join the back of a deque, the others its front,
    and the deque is then emptied from the back. */
module Boarding {
  import opened Failures
  import opened Decimal
  import opened Deques

  /** Validates the capacity argument: any character that is not a digit is
      refused, and so is a value that is not positive (which covers the empty
      string). `atoi` of a digit string is its value. */
  method ParseCapacity(arg: string) returns (r: Result<int>)
    ensures r.Ok? <==> AllDigits(arg) && DigitsValue(arg) > 0
    ensures r.Ok? ==> r.value == DigitsValue(arg)
    ensures r.Err? ==> r.error == InvalidCapacity
  {
    for i := 0 to |arg|
      invariant AllDigits(arg[..i])
    {
      if !IsDigit(arg[i]) {
        return Err(InvalidCapacity);
      }
      assert arg[..i + 1] == arg[..i] + [arg[i]];
    }
    assert arg[..|arg|] == arg;
    var firstClass := DigitsValue(arg);
    if firstClass <= 0 {
      return Err(InvalidCapacity);
    }
    r := Ok(firstClass);
  }

  /** The deque's front-to-back contents after the passengers have been seated in
      arrival order. */
  function Seated(passengers: seq<int>, firstClass: int): seq<int>
  {
    if passengers == [] then []
    else
      var p := passengers[|passengers| - 1];
      var earlier := Seated(passengers[..|passengers| - 1], firstClass);
      if p <= firstClass then earlier + [p] else [p] + earlier
  }

  function Reverse(s: seq<int>): seq<int>
  {
    if s == [] then [] else [s[|s| - 1]] + Reverse(s[..|s| - 1])
  }

  /** The first-class passengers, in arrival order. */
  function FirstClass(passengers: seq<int>, firstClass: int): seq<int>
  {
    if passengers == [] then []
    else
      var p := passengers[|passengers| - 1];
      FirstClass(passengers[..|passengers| - 1], firstClass) + (if p <= firstClass then [p] else [])
  }

  /** The other passengers, in arrival order. */
  function Others(passengers: seq<int>, firstClass: int): seq<int>
  {
    if passengers == [] then []
    else
      var p := passengers[|passengers| - 1];
      Others(passengers[..|passengers| - 1], firstClass) + (if p <= firstClass then [] else [p])
  }

  lemma {:induction false} ReverseAppend(a: seq<int>, b: seq<int>)
    ensures Reverse(a + b) == Reverse(b) + Reverse(a)
  {
    if b == [] {
      assert a + b == a;
    } else {
      var init := b[..|b| - 1];
      assert (a + b)[..|a + b| - 1] == a + init;
      ReverseAppend(a, init);
    }
  }

  lemma {:induction false} ReverseReverse(s: seq<int>)
    ensures Reverse(Reverse(s)) == s
  {
    if s != [] {
      var init := s[..|s| - 1];
      ReverseReverse(init);
      ReverseAppend([s[|s| - 1]], Reverse(init));
      assert Reverse([s[|s| - 1]]) == [s[|s| - 1]];
      assert init + [s[|s| - 1]] == s;
    }
  }

  lemma {:induction false} ReversePermutes(s: seq<int>)
    ensures multiset(Reverse(s)) == multiset(s)
  {
    if s != [] {
      var init := s[..|s| - 1];
      ReversePermutes(init);
      assert init + [s[|s| - 1]] == s;
    }
  }

  /** The deque holds the other passengers latest first, then the first-class
      passengers in arrival order. */
  lemma {:induction false} SeatedShape(passengers: seq<int>, firstClass: int)
    ensures Seated(passengers, firstClass) == Reverse(Others(passengers, firstClass)) + FirstClass(passengers, firstClass)
  {
    if passengers != [] {
      var init := passengers[..|passengers| - 1];
      var p := passengers[|passengers| - 1];
      SeatedShape(init, firstClass);
      var others, first := Others(init, firstClass), FirstClass(init, firstClass);
      if p <= firstClass {
        assert Seated(passengers, firstClass) == Reverse(Others(passengers, firstClass)) + FirstClass(passengers, firstClass) by {
          assert Seated(passengers, firstClass) == Reverse(others) + first + [p];
          assert Others(passengers, firstClass) == others;
          assert FirstClass(passengers, firstClass) == first + [p];
        }
      } else {
        assert Seated(passengers, firstClass) == Reverse(Others(passengers, firstClass)) + FirstClass(passengers, firstClass) by {
          assert Seated(passengers, firstClass) == [p] + Reverse(others) + first;
          assert Others(passengers, firstClass) == others + [p];
          assert FirstClass(passengers, firstClass) == first;
          ReverseAppend(others, [p]);
          assert Reverse([p]) == [p];
        }
      }
    }
  }

  /** Every passenger is seated exactly once, split between the two classes. */
  lemma {:induction false} ClassesPartition(passengers: seq<int>, firstClass: int)
    ensures multiset(FirstClass(passengers, firstClass)) + multiset(Others(passengers, firstClass)) == multiset(passengers)
  {
    if passengers != [] {
      var init := passengers[..|passengers| - 1];
      ClassesPartition(init, firstClass);
      assert init + [passengers[|passengers| - 1]] == passengers;
    }
  }

  /** The printed order: first-class passengers latest first, then the others in
      arrival order; every passenger appears exactly once. */
  lemma BoardingOrder(passengers: seq<int>, firstClass: int)
    ensures Reverse(Seated(passengers, firstClass)) == Reverse(FirstClass(passengers, firstClass)) + Others(passengers, firstClass)
    ensures multiset(Reverse(Seated(passengers, firstClass))) == multiset(passengers)
  {
    var others := Others(passengers, firstClass);
    var first := FirstClass(passengers, firstClass);
    SeatedShape(passengers, firstClass);
    ReverseAppend(Reverse(others), first);
    ReverseReverse(others);
    ReversePermutes(first);
    ReversePermutes(others);
    ClassesPartition(passengers, firstClass);
  }

  /** Seats the passengers in arrival order, then prints the back of the deque and
      pops it as many times as the deque holds passengers. */
  method Board(passengers: seq<int>, firstClass: int) returns (printed: seq<int>, seats: Deque<int>)
    ensures printed == Reverse(FirstClass(passengers, firstClass)) + Others(passengers, firstClass)
    ensures multiset(printed) == multiset(passengers)
    ensures seats.Valid() && seats.Contents == []
  {
    seats := new Deque<int>();
    for i := 0 to |passengers|
      invariant seats.Valid() && fresh(seats.Repr)
      invariant seats.Contents == Seated(passengers[..i], firstClass)
    {
      assert passengers[..i + 1][..i] == passengers[..i];
      if passengers[i] <= firstClass {
        seats.PushBack(passengers[i]);
      } else {
        seats.PushFront(passengers[i]);
      }
    }
    assert passengers[..|passengers|] == passengers;
    ghost var seated := seats.Contents;
    var size := seats.Size();
    printed := [];
    for i := 0 to size
      invariant seats.Valid() && fresh(seats.Repr)
      invariant |seats.Contents| == size - i
      invariant printed + Reverse(seats.Contents) == Reverse(seated)
    {
      var back := seats.Back();
      printed := printed + [back.value];
      var _ := seats.PopBack();
    }
    BoardingOrder(passengers, firstClass);
  }
}
