/** Client code of SimpleVector: worked examples, checked against
    the operations' contracts alone, and the reserving constructor's
    defect shown on a concrete input. */
module Scenarios {
  import opened VectorSpec
  import opened SimpleVectors

  /** Insert(pos, v) followed by Erase(pos) gives back the live sequence,
      whatever the vector and the position. */
  method InsertThenEraseRestores<T(0,==)>(v: SimpleVector<T>, pos: nat, value: T, dflt: T)
    requires v.Valid() && pos <= v.size
    modifies v, v.items
    ensures v.Valid() && v.Elements() == old(v.Elements())
  {
    ghost var live := v.Elements();
    var p := v.Insert(pos, value, dflt);
    p := v.Erase(p);
    EraseUndoesInsert(live, pos, value);
  }

  /** [1, 2, 3]: inserting 9 at 1 gives [1, 9, 2, 3]; erasing at 1 gives
      [1, 2, 3] again. */
  method ListInsertErase() {
    var v := new SimpleVector<int>.FromList([1, 2, 3]);
    var p := v.Insert(1, 9, 0);
    assert p == 1 && v.Elements() == [1, 9, 2, 3] && v.GetSize() == 4;
    p := v.Erase(1);
    assert v.Elements() == [1, 2, 3];
  }

  /** Pushing 5, 7, 9 onto an empty vector gives capacities 1, 2, 4. */
  method PushBackGrowth() {
    var v := new SimpleVector<int>.Default();
    v.PushBack(5, 0);
    assert v.size == 1 && v.capacity == 1;
    v.PushBack(7, 0);
    assert v.size == 2 && v.capacity == 2;
    v.PushBack(9, 0);
    assert v.size == 3 && v.capacity == 4;
    assert v.Elements() == [5, 7, 9];
    assert v.capacity == PushBackCapacity(3);
  }

  /** k pushes onto a default-constructed vector leave capacity
      PushBackCapacity(k), which PushBackCapacityBound places at the least
      power of two not below k. */
  method PushMany(k: nat) returns (v: SimpleVector<int>)
    ensures v.Valid() && v.size == k && v.capacity == PushBackCapacity(k)
    ensures k >= 1 ==> PowerOfTwo(v.capacity) && k <= v.capacity < 2 * k
  {
    v := new SimpleVector<int>.Default();
    var i := 0;
    while i < k
      invariant 0 <= i <= k
      invariant fresh(v) && fresh(v.items)
      invariant v.Valid() && v.size == i && v.capacity == PushBackCapacity(i)
    {
      v.PushBack(i, 0);
      i := i + 1;
    }
    if k >= 1 {
      PushBackCapacityBound(k);
    }
  }

  /** At on an empty vector reports out_of_range for every index. */
  method AtOnEmpty(index: nat) {
    var v := new SimpleVector<int>.Default();
    assert v.At(index) == OutOfRange;
  }

  /** After Reserve(10) on an empty vector, ten pushes keep capacity 10 and
      the buffer in place. */
  method ReserveThenPushBack() {
    var v := new SimpleVector<int>.Default();
    v.Reserve(10);
    assert v.size == 0 && v.capacity == 10;
    var buffer := v.items;
    var i := 0;
    while i < 10
      invariant 0 <= i <= 10
      invariant v.Valid() && v.size == i && v.capacity == 10 && v.items == buffer
    {
      v.PushBack(i, 0);
      i := i + 1;
    }
  }

  /** A copy is equal to its source, and writing to the copy leaves the
      source as it was. */
  method CopyIsIndependent() {
    var a := new SimpleVector<int>.FromList([1, 2, 3]);
    var b := new SimpleVector<int>.Copy(a);
    assert Equal(a, b);
    b.Set(0, 7);
    assert a.Elements() == [1, 2, 3] && b.Elements() == [7, 2, 3];
  }

  /** Moving leaves the source empty with capacity 0. */
  method MoveLeavesSourceEmpty() {
    var a := new SimpleVector<int>.FromList([4, 5]);
    var b := new SimpleVector<int>.Move(a);
    assert b.Elements() == [4, 5];
    assert a.IsEmpty() && a.GetCapacity() == 0;
  }

  /** Assigning a value-equal vector keeps the target's larger capacity;
      self-assignment changes nothing. */
  method AssignEqualKeepsCapacity() {
    var a := new SimpleVector<int>.FromList([1, 2]);
    a.Reserve(10);
    var b := new SimpleVector<int>.FromList([1, 2]);
    a.Assign(b);
    assert a.capacity == 10 && a.Elements() == [1, 2];
    a.Assign(a);
    assert a.capacity == 10 && a.Elements() == [1, 2];
  }

  /** The reserving constructor as written, on Reserve(5): capacity 5 over
      a buffer of no slots. The next PushBack's Resize(1) stays in place
      (1 is within capacity), and its first write, slot 0, lies outside the
      buffer. */
  method ReserveTagCounterexample() returns (v: SimpleVector<int>)
    ensures v.size == 0 && v.capacity == 5 && v.items.Length == 0
    ensures !v.Valid()
    ensures 1 <= v.capacity && v.items.Length <= 0
  {
    v := new SimpleVector<int>.FromReserveAsWritten(ReserveProxyObj(5));
  }

  /** The corrected reserving constructor on Reserve(5): five slots, and a
      PushBack stays in that buffer. */
  method ReserveTagCorrected() {
    var v := new SimpleVector<int>.FromReserve(ReserveProxyObj(5));
    assert v.Valid() && v.items.Length == 5;
    var buffer := v.items;
    v.PushBack(1, 0);
    assert v.items == buffer && v.Elements() == [1] && v.capacity == 5;
  }
}
