/** SimpleVector<Type>: a resizable array over one owned buffer, with a
    logical size and an allocated capacity, and the free comparison
    operators over the live elements items[0..size). */
module SimpleVectors {
  import opened VectorSpec

  /** The capacity hint that selects the reserving constructor; the free
      helper Reserve(n) is the datatype constructor ReserveProxyObj(n). */
  datatype ReserveProxyObj = ReserveProxyObj(capacity: nat)

  /** Outcome of the checked accessor At. */
  datatype Checked<T> = Ok(value: T) | OutOfRange

  /** Copies src[0..n) to dst[0..n) in index order, as std::move/std::copy
      into a fresh buffer; dst[n..] is left as it was. */
  method MoveElements<T>(src: array<T>, dst: array<T>, n: nat)
    requires n <= src.Length && n <= dst.Length && src != dst
    modifies dst
    ensures dst[..n] == src[..n]
    ensures dst[n..] == old(dst[n..])
  {
    var i := 0;
    while i < n
      invariant 0 <= i <= n
      invariant forall k :: 0 <= k < i ==> dst[k] == src[k]
      invariant forall k :: n <= k < dst.Length ==> dst[k] == old(dst[k])
    {
      dst[i] := src[i];
      i := i + 1;
    }
  }

  /** Assigns v to a[from..to), the element-assignment loop of Resize. */
  method FillRange<T>(a: array<T>, from: nat, to: nat, v: T)
    requires from <= to <= a.Length
    modifies a
    ensures a[..from] == old(a[..from])
    ensures forall k :: from <= k < to ==> a[k] == v
    ensures a[to..] == old(a[to..])
  {
    var i := from;
    while i < to
      invariant from <= i <= to
      invariant forall k :: 0 <= k < from ==> a[k] == old(a[k])
      invariant forall k :: from <= k < i ==> a[k] == v
      invariant forall k :: i <= k < a.Length ==> a[k] == old(a[k])
    {
      a[i] := v;
      i := i + 1;
    }
  }

  class SimpleVector<T(0,==)> {
    var items: array<T>
    var size: nat
    var capacity: nat

    /** The class invariant: size <= capacity, and the buffer has exactly
        capacity slots. */
    ghost predicate Valid()
      reads this
    {
      size <= capacity && items.Length == capacity
    }

    /** The live elements items[0..size). */
    function Elements(): (s: seq<T>)
      reads this, items
      requires Valid()
      ensures |s| == size
    {
      items[..size]
    }

    /** SimpleVector(): empty, with no storage. */
    constructor Default()
      ensures Valid() && fresh(items)
      ensures Elements() == [] && capacity == 0
    {
      items := new T[0];
      size := 0;
      capacity := 0;
    }

    /** SimpleVector(size, value), and SimpleVector(size) with value = Type{}. */
    constructor Filled(n: nat, value: T)
      ensures Valid() && fresh(items)
      ensures size == n && capacity == n
      ensures forall k :: 0 <= k < n ==> Elements()[k] == value
    {
      items := new T[n](_ => value);
      size := n;
      capacity := n;
    }

    /** SimpleVector(std::initializer_list): the list's items in order. */
    constructor FromList(init: seq<T>)
      ensures Valid() && fresh(items)
      ensures Elements() == init && capacity == |init|
    {
      items := new T[|init|](k requires 0 <= k < |init| => init[k]);
      size := |init|;
      capacity := |init|;
    }

    /** Copy constructor: an equal vector in storage of its own, with
        capacity equal to other's size. */
    constructor Copy(other: SimpleVector<T>)
      requires other.Valid()
      ensures Valid() && fresh(items)
      ensures Elements() == other.Elements() && capacity == other.size
    {
      var a := new T[other.size];
      var i := 0;
      while i < other.size
        invariant 0 <= i <= other.size
        invariant forall k :: 0 <= k < i ==> a[k] == other.items[k]
      {
        a[i] := other.items[i];
        i := i + 1;
      }
      items := a;
      size := other.size;
      capacity := other.size;
    }

    /** SimpleVector(ReserveProxyObj) as intended: empty, with
        storage for proxy.capacity elements. */
    constructor FromReserve(proxy: ReserveProxyObj)
      ensures Valid() && fresh(items)
      ensures Elements() == [] && capacity == proxy.capacity
    {
      items := new T[proxy.capacity];
      size := 0;
      capacity := proxy.capacity;
    }

    /** SimpleVector(ReserveProxyObj) as written: capacity_ is set from the
        proxy first, so the following Reserve(capacity_) sees
        new_capacity <= capacity_, returns early and never allocates. */
    constructor FromReserveAsWritten(proxy: ReserveProxyObj)
      ensures size == 0 && capacity == proxy.capacity && items.Length == 0
      ensures Valid() <==> proxy.capacity == 0
    {
      items := new T[0];
      size := 0;
      capacity := proxy.capacity;
    }

    /** Move constructor: takes other's buffer and fields and leaves other
        empty with capacity 0. */
    constructor Move(other: SimpleVector<T>)
      requires other.Valid()
      modifies other
      ensures Valid() && other.Valid()
      ensures items == old(other.items) && capacity == old(other.capacity)
      ensures Elements() == old(other.Elements())
      ensures other.Elements() == [] && other.capacity == 0
    {
      items := other.items;
      size := other.size;
      capacity := other.capacity;
      new;
      other.items := new T[0];
      other.size := 0;
      other.capacity := 0;
    }

    function GetSize(): (r: nat)
      reads this, items
      requires Valid()
      ensures r == |Elements()|
    {
      size
    }

    function GetCapacity(): (r: nat)
      reads this, items
      requires Valid()
      ensures r >= |Elements()| && r == items.Length
    {
      capacity
    }

    function IsEmpty(): (r: bool)
      reads this, items
      requires Valid()
      ensures r <==> Elements() == []
    {
      size == 0
    }

    /** operator[] for reading: the caller guarantees index < size. */
    function Get(index: nat): (r: T)
      reads this, items
      requires Valid() && index < size
      ensures r == Elements()[index]
    {
      items[index]
    }

    /** Assignment through the reference operator[] returns. */
    method Set(index: nat, value: T)
      requires Valid() && index < size
      modifies items
      ensures Valid()
      ensures Elements() == old(Elements())[index := value]
    {
      items[index] := value;
    }

    /** At: out_of_range exactly when index >= size. */
    function At(index: nat): (r: Checked<T>)
      reads this, items
      requires Valid()
      ensures r.OutOfRange? <==> index >= |Elements()|
      ensures r.Ok? ==> r.value == Elements()[index]
    {
      if index >= size then OutOfRange else Ok(items[index])
    }

    /** Clear: size becomes 0; capacity and storage are kept. */
    method Clear()
      requires Valid()
      modifies this
      ensures Valid() && Elements() == []
      ensures items == old(items) && capacity == old(capacity)
    {
      size := 0;
    }

    /** Resize: the live sequence becomes Resized(old, newSize, dflt), where
        dflt stands for Type{}; a request above capacity moves the elements
        to a buffer of max(capacity * 2, newSize) slots. */
    method Resize(newSize: nat, dflt: T)
      requires Valid()
      modifies this, items
      ensures Valid()
      ensures Elements() == Resized(old(Elements()), newSize, dflt)
      ensures capacity == GrownCapacity(old(capacity), newSize)
      ensures newSize <= old(capacity) ==> items == old(items)
      ensures newSize > old(capacity) ==> fresh(items)
    {
      if newSize > size && newSize <= capacity {
        FillRange(items, size, newSize, dflt);
      }
      if newSize > capacity {
        var newCapacity := Max(capacity * 2, newSize);
        var buffer := new T[newCapacity];
        MoveElements(items, buffer, size);
        items := buffer;
        FillRange(items, size, newSize, dflt);
        capacity := newCapacity;
      }
      size := newSize;
    }

    /** Reserve: a no-op unless newCapacity exceeds the capacity, otherwise
        the live elements move, in order, to a buffer of exactly
        newCapacity slots. */
    method Reserve(newCapacity: nat)
      requires Valid()
      modifies this
      ensures Valid() && Elements() == old(Elements())
      ensures newCapacity <= old(capacity) ==> items == old(items) && capacity == old(capacity)
      ensures newCapacity > old(capacity) ==> fresh(items) && capacity == newCapacity
    {
      if newCapacity <= capacity {
        return;
      }
      var buffer := new T[newCapacity];
      MoveElements(items, buffer, size);
      items := buffer;
      capacity := newCapacity;
    }

    /** Insert: value is placed at pos and the elements from pos on move one
        slot right; a full vector doubles its capacity (0 goes to 1). */
    method Insert(pos: nat, value: T, dflt: T) returns (r: nat)
      requires Valid() && pos <= size
      modifies this, items
      ensures Valid() && r == pos
      ensures Elements() == Inserted(old(Elements()), pos, value)
      ensures capacity == if old(size) < old(capacity) then old(capacity)
                          else if old(capacity) == 0 then 1
                          else 2 * old(capacity)
      ensures old(size) < old(capacity) ==> items == old(items)
      ensures old(size) == old(capacity) ==> fresh(items)
    {
      var index := pos;
      Resize(size + 1, dflt);
      ghost var grown := Elements();
      // copy_backward of [index, size - 1) so that it ends at size
      var j := size - 1;
      while j > index
        modifies items
        invariant index <= j <= size - 1
        invariant forall k :: 0 <= k <= j ==> items[k] == grown[k]
        invariant forall k :: j < k < size ==> items[k] == grown[k - 1]
      {
        items[j] := items[j - 1];
        j := j - 1;
      }
      items[index] := value;
      // each live slot against Inserted's pointwise contract, so that the
      // extensional equality of the postcondition follows
      assert forall k :: 0 <= k < size ==> items[k] == Inserted(old(Elements()), index, value)[k];
      r := index;
    }

    /** PushBack: Insert at end(). */
    method PushBack(value: T, dflt: T)
      requires Valid()
      modifies this, items
      ensures Valid()
      ensures Elements() == old(Elements()) + [value]
      ensures capacity == if old(size) < old(capacity) then old(capacity)
                          else if old(capacity) == 0 then 1
                          else 2 * old(capacity)
      ensures old(size) < old(capacity) ==> items == old(items)
      ensures old(size) == old(capacity) ==> fresh(items)
    {
      var _ := Insert(size, value, dflt);
    }

    /** PopBack: the caller guarantees a non-empty vector; only size drops. */
    method PopBack()
      requires Valid() && size > 0
      modifies this
      ensures Valid() && Elements() == old(Elements())[..old(size) - 1]
      ensures items == old(items) && capacity == old(capacity)
    {
      size := size - 1;
    }

    /** Erase: the elements after pos move one slot left and size drops by
        one; the returned position is pos. */
    method Erase(pos: nat) returns (r: nat)
      requires Valid() && pos < size
      modifies this, items
      ensures Valid() && r == pos
      ensures Elements() == Erased(old(Elements()), pos)
      ensures items == old(items) && capacity == old(capacity)
    {
      ghost var live := Elements();
      // std::move of [pos + 1, size) onto pos
      var j := pos;
      while j + 1 < size
        modifies items
        invariant pos <= j < size
        invariant forall k :: 0 <= k < pos ==> items[k] == live[k]
        invariant forall k :: pos <= k < j ==> items[k] == live[k + 1]
        invariant forall k :: j <= k < size ==> items[k] == live[k]
      {
        items[j] := items[j + 1];
        j := j + 1;
      }
      size := size - 1;
      r := pos;
    }

    /** swap: exchanges the buffers, sizes and capacities. */
    method Swap(other: SimpleVector<T>)
      requires Valid() && other.Valid()
      modifies this, other
      ensures Valid() && other.Valid()
      ensures items == old(other.items) && other.items == old(items)
      ensures size == old(other.size) && other.size == old(size)
      ensures capacity == old(other.capacity) && other.capacity == old(capacity)
    {
      items, other.items := other.items, items;
      size, other.size := other.size, size;
      capacity, other.capacity := other.capacity, capacity;
    }

    /** operator=: nothing happens when *this == rhs (also for a distinct,
        value-equal rhs, whose capacity is then not adopted); otherwise a
        copy of rhs is swapped in. */
    method Assign(rhs: SimpleVector<T>)
      requires Valid() && rhs.Valid()
      modifies this
      ensures Valid() && Elements() == old(rhs.Elements())
      ensures old(Elements() == rhs.Elements()) ==>
                items == old(items) && capacity == old(capacity)
      ensures old(Elements() != rhs.Elements()) ==>
                fresh(items) && capacity == old(rhs.size)
    {
      if Equal(this, rhs) {
        return;
      }
      var tmp := new SimpleVector.Copy(rhs);
      Swap(tmp);
    }
  }

  /** operator==: equal sizes and pairwise equal elements. */
  function Equal<T(0,==)>(lhs: SimpleVector<T>, rhs: SimpleVector<T>): (r: bool)
    reads lhs, lhs.items, rhs, rhs.items
    requires lhs.Valid() && rhs.Valid()
    ensures r <==> lhs.Elements() == rhs.Elements()
  {
    if lhs.size != rhs.size then false
    else AllEqual(lhs.Elements(), rhs.Elements())
  }

  /** operator!= */
  function NotEqual<T(0,==)>(lhs: SimpleVector<T>, rhs: SimpleVector<T>): (r: bool)
    reads lhs, lhs.items, rhs, rhs.items
    requires lhs.Valid() && rhs.Valid()
    ensures r <==> lhs.Elements() != rhs.Elements()
  {
    !Equal(lhs, rhs)
  }

  /** operator<: lexicographic order of the live elements under lt. */
  function Less<T(0,==)>(lhs: SimpleVector<T>, rhs: SimpleVector<T>, lt: (T, T) -> bool): (r: bool)
    reads lhs, lhs.items, rhs, rhs.items
    requires lhs.Valid() && rhs.Valid()
    ensures r <==> exists k: nat :: FirstBelowAt(lhs.Elements(), rhs.Elements(), k, lt)
  {
    LexLessMeaning(lhs.Elements(), rhs.Elements(), lt);
    LexLess(lhs.Elements(), rhs.Elements(), lt)
  }

  /** operator>: rhs < lhs. */
  function Greater<T(0,==)>(lhs: SimpleVector<T>, rhs: SimpleVector<T>, lt: (T, T) -> bool): (r: bool)
    reads lhs, lhs.items, rhs, rhs.items
    requires lhs.Valid() && rhs.Valid()
    ensures r <==> exists k: nat :: FirstBelowAt(rhs.Elements(), lhs.Elements(), k, lt)
  {
    Less(rhs, lhs, lt)
  }

  /** operator<=: !(lhs > rhs). */
  function LessOrEqual<T(0,==)>(lhs: SimpleVector<T>, rhs: SimpleVector<T>, lt: (T, T) -> bool): (r: bool)
    reads lhs, lhs.items, rhs, rhs.items
    requires lhs.Valid() && rhs.Valid()
    ensures r <==> forall k: nat :: !FirstBelowAt(rhs.Elements(), lhs.Elements(), k, lt)
  {
    !Greater(lhs, rhs, lt)
  }

  /** operator>=: !(lhs < rhs). */
  function GreaterOrEqual<T(0,==)>(lhs: SimpleVector<T>, rhs: SimpleVector<T>, lt: (T, T) -> bool): (r: bool)
    reads lhs, lhs.items, rhs, rhs.items
    requires lhs.Valid() && rhs.Valid()
    ensures r <==> forall k: nat :: !FirstBelowAt(lhs.Elements(), rhs.Elements(), k, lt)
  {
    !Less(lhs, rhs, lt)
  }

  /** With a strict total order on the elements the six operators agree
      with each other: exactly one of <, ==, > holds, <= is < or ==, and
      >= is > or ==. */
  lemma ComparisonsAgree<T(0,!new)>(lhs: SimpleVector<T>, rhs: SimpleVector<T>, lt: (T, T) -> bool)
    requires lhs.Valid() && rhs.Valid() && StrictTotalOrder(lt)
    ensures Less(lhs, rhs, lt) || Equal(lhs, rhs) || Greater(lhs, rhs, lt)
    ensures !(Less(lhs, rhs, lt) && Equal(lhs, rhs))
    ensures !(Less(lhs, rhs, lt) && Greater(lhs, rhs, lt))
    ensures !(Equal(lhs, rhs) && Greater(lhs, rhs, lt))
    ensures LessOrEqual(lhs, rhs, lt) <==> Less(lhs, rhs, lt) || Equal(lhs, rhs)
    ensures GreaterOrEqual(lhs, rhs, lt) <==> Greater(lhs, rhs, lt) || Equal(lhs, rhs)
  {
    LexTrichotomy(lhs.Elements(), rhs.Elements(), lt);
    LexTrichotomy(rhs.Elements(), lhs.Elements(), lt);
  }

  /** With a strict total order on the elements, < on vectors is transitive. */
  lemma LessTransitive<T(0,!new)>(a: SimpleVector<T>, b: SimpleVector<T>, c: SimpleVector<T>, lt: (T, T) -> bool)
    requires a.Valid() && b.Valid() && c.Valid() && StrictTotalOrder(lt)
    requires Less(a, b, lt) && Less(b, c, lt)
    ensures Less(a, c, lt)
  {
    LexLessTransitive(a.Elements(), b.Elements(), c.Elements(), lt);
  }
}
