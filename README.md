# SimpleVector in Dafny

A model of `SimpleVector<Type>` from `simple-vector/simple_vector.h`: a minimal resizable array over one owned buffer (`items_`), with a logical element count (`size_`) and an allocated slot count (`capacity_`). It also covers the `ReserveProxyObj` capacity tag and the six free comparison operators.

Files:

- `vector_spec.dfy`, module `VectorSpec`. These are pure definitions over the live sequence `items_[0..size_)`:
  - the growth formula `max(capacity * 2, new_size)` (`GrownCapacity`);
  - the sequence after `Resize`, `Insert` and `Erase` (`Resized`, `Inserted`, `Erased`);
  - the capacity after k pushes from empty (`PushBackCapacity`);
  - element-wise equality, as `std::equal` (`AllEqual`);
  - lexicographic order, as `std::lexicographical_compare` (`LexLess`).
  
  The lemmas about them sit beside them: insert/erase round trips, the power-of-two growth bound, and the meaning of `LexLess` and its order laws.
- `simple_vector.dfy`, module `SimpleVectors`. It holds `class SimpleVector<T>`:
  - Fields: `items: array<T>`, `size: nat` and `capacity: nat`.
  - Invariant: `Valid()` requires `size <= capacity && items.Length == capacity`.
  - Abstract value: `Elements() == items[..size]`.
  - Operations: every constructor and member operation, as constructors and methods that update the fields and shift elements in place. Growth allocates a fresh array, moves the live elements into it and takes it over.
  
  The module also holds the free operators `==`, `!=`, `<`, `>`, `<=`, `>=` as functions over two vectors, each with the lemma relating it to the others.
- `scenarios.dfy`, module `Scenarios`. This is client code proved from the contracts alone:
  - `[1,2,3]` with an insert at 1 gives `[1,9,2,3]`; erasing at 1 gives `[1,2,3]` again.
  - Pushing three items onto an empty vector gives capacities 1, 2 and 4.
  - k pushes onto an empty vector give capacity `PushBackCapacity(k)`: the least power of two not below k (`PushMany`).
  - `At` on an empty vector is out of range for every index.
  - After `Reserve(10)`, ten pushes never reallocate.
  - A copy is independent of its source.
  - A move leaves the source empty.
  - Assigning a value-equal vector keeps the target's capacity.
  - The reserving constructor's defect, shown on a concrete input (see Findings).

Modelling choices:

- Iterators and positions are indices: `begin()` is 0 and `end()` is `size`.
- The source's `assert`s become `requires`. This covers `operator[]`, the `Insert` and `Erase` position checks, and `PopBack` on an empty vector.
- `At`'s `std::out_of_range` is the `OutOfRange` case of `Checked<T>`.
- The value-initialised `Type{}` is an explicit parameter `dflt`. It is passed to `Resize`, and to `Insert` and `PushBack`, which call `Resize(size_ + 1)`.
- `SimpleVector(size)` is `Filled(size, dflt)`.
- The element type's `operator<` is a parameter `lt`. The order laws assume `lt` is a strict total order.
- The element type's `operator==`, used by `std::equal` and so by the self-assignment guard, is Dafny's built-in `==`, which is an equivalence.
- The free helper `Reserve(n)` is the datatype constructor `ReserveProxyObj(n)`.

## Model

| member | source | states |
|---|---|---|
| `SimpleVectors.SimpleVector.Default` | simple-vector/simple_vector.h:25 | a default vector is empty with capacity 0 and satisfies the invariant |
| `SimpleVectors.SimpleVector.Filled` | simple-vector/simple_vector.h:27-41 | `SimpleVector(n, value)` (and `SimpleVector(n)` with `Type{}`) has size and capacity `n`, and every slot holds `value` |
| `SimpleVectors.SimpleVector.FromList` | simple-vector/simple_vector.h:43-49 | the live sequence is the initializer list in order, and the capacity is its length |
| `SimpleVectors.SimpleVector.Copy` | simple-vector/simple_vector.h:51-59 | the copy has the source's live sequence and capacity equal to the source's size, in freshly allocated storage |
| `SimpleVectors.SimpleVector.FromReserveAsWritten` | simple-vector/simple_vector.h:61-63 | as written: size 0 and capacity n over a zero-length buffer, so the invariant holds only when n is 0 |
| `SimpleVectors.SimpleVector.FromReserve` | simple-vector/simple_vector.h:61-63 | corrected: empty, with capacity n backed by n allocated slots |
| `SimpleVectors.SimpleVector.Move` | simple-vector/simple_vector.h:66-71 | the new vector takes over the source's buffer, elements and capacity; the source is left empty with capacity 0 |
| `SimpleVectors.SimpleVector.Assign` | simple-vector/simple_vector.h:73-81 | afterwards the live sequence is rhs's; when the two were value-equal (self-assignment included) buffer and capacity are kept, otherwise a fresh copy with capacity rhs.size is swapped in |
| `SimpleVectors.SimpleVector.GetSize` | simple-vector/simple_vector.h:84-86 | returns the length of the live sequence |
| `SimpleVectors.SimpleVector.GetCapacity` | simple-vector/simple_vector.h:89-91 | returns the number of allocated slots, never less than the size |
| `SimpleVectors.SimpleVector.IsEmpty` | simple-vector/simple_vector.h:94-96 | true exactly when the live sequence is empty |
| `SimpleVectors.SimpleVector.Get` | simple-vector/simple_vector.h:99-108 | for `index < size` (the caller's obligation) returns the element at `index` of the live sequence |
| `SimpleVectors.SimpleVector.Set` | simple-vector/simple_vector.h:99-102 | writing through the returned reference replaces exactly that element of the live sequence |
| `SimpleVectors.SimpleVector.At` | simple-vector/simple_vector.h:112-126 | out_of_range exactly when `index >= size`, otherwise the element at `index` |
| `SimpleVectors.SimpleVector.Clear` | simple-vector/simple_vector.h:129-131 | the live sequence becomes empty; buffer and capacity unchanged |
| `SimpleVectors.SimpleVector.Resize` | simple-vector/simple_vector.h:135-156 | size becomes n, elements below min(old size, n) are kept, slots [old size, n) hold `Type{}`; capacity becomes max(2*capacity, n) with a fresh buffer when n exceeds it, and is otherwise unchanged with the same buffer |
| `VectorSpec.Resized` | simple-vector/simple_vector.h:135-156 | the resized sequence has length n, agrees with the old one below min(old length, n), and holds the default from the old length on |
| `VectorSpec.GrownCapacity` | simple-vector/simple_vector.h:141-142 | unchanged unless the new size exceeds the capacity, otherwise max(capacity * 2, new size): never below either, and at least double the old capacity when it grows |
| `SimpleVectors.FillRange` | simple-vector/simple_vector.h:137-139 | the assignment loop sets exactly slots [from, to) to the value and leaves the rest of the buffer alone |
| `SimpleVectors.MoveElements` | simple-vector/simple_vector.h:145 | moving the live elements into the new buffer copies slots [0, size) in order and leaves the rest of the new buffer alone |
| `VectorSpec.InsertGrowth` | simple-vector/simple_vector.h:207-213 | on `Resize(size_ + 1)` the capacity stays when there is room, otherwise doubles, and goes from 0 to 1 |
| `Scenarios.PushMany` | simple-vector/simple_vector.h:196-213 | k `PushBack` calls on a default-constructed vector give size k and capacity `PushBackCapacity(k)`, which for k >= 1 is a power of two in [k, 2k) |
| `VectorSpec.PushBackCapacityBound` | simple-vector/simple_vector.h:196-213 | after k >= 1 pushes onto an empty vector the capacity is a power of two in [k, 2k), the least power of two not below k |
| `SimpleVectors.SimpleVector.PushBack` | simple-vector/simple_vector.h:196-203 | appends the value; the capacity stays when there is room, otherwise doubles (0 goes to 1) into a fresh buffer |
| `SimpleVectors.SimpleVector.Insert` | simple-vector/simple_vector.h:209-233 | for `pos <= size`: the live sequence becomes `old[..pos] + [value] + old[pos..]` and the result is `pos`; capacity as for `PushBack` |
| `VectorSpec.Inserted` | simple-vector/simple_vector.h:209-218 | the inserted sequence is one longer: the value at i, the old prefix before it and the old suffix shifted one right after it |
| `SimpleVectors.SimpleVector.PopBack` | simple-vector/simple_vector.h:236-239 | on a non-empty vector drops the last live element; buffer and capacity unchanged |
| `SimpleVectors.SimpleVector.Erase` | simple-vector/simple_vector.h:242-261 | for `pos < size`: the live sequence becomes `old[..pos] + old[pos+1..]`, the result is `pos`, buffer and capacity unchanged |
| `VectorSpec.Erased` | simple-vector/simple_vector.h:242-250 | the erased sequence is one shorter: the prefix before i kept and the suffix after i shifted one left |
| `VectorSpec.EraseUndoesInsert` | simple-vector/simple_vector.h:209-261 | erasing at the position just inserted at restores the sequence |
| `VectorSpec.InsertUndoesErase` | simple-vector/simple_vector.h:209-261 | re-inserting the erased element at its position restores the sequence |
| `Scenarios.InsertThenEraseRestores` | simple-vector/simple_vector.h:209-261 | on any valid vector, `Insert(pos, v)` followed by `Erase(pos)` leaves the live sequence as it was |
| `SimpleVectors.SimpleVector.Swap` | simple-vector/simple_vector.h:264-268 | buffers, sizes and capacities are exchanged |
| `SimpleVectors.SimpleVector.Reserve` | simple-vector/simple_vector.h:270-278 | no-op when `n <= capacity`; otherwise capacity becomes exactly n in a fresh buffer, and size and live elements are unchanged |
| `VectorSpec.AllEqual` | simple-vector/simple_vector.h:291 | element-wise comparison of equally long sequences holds exactly when they are equal |
| `VectorSpec.LexLess` | simple-vector/simple_vector.h:301 | false once rhs has ended; true once lhs has ended or its head is below rhs's; false if rhs's head is below lhs's; otherwise compares the tails; so an empty rhs is never above and an empty lhs is below any non-empty rhs |
| `SimpleVectors.Equal` | simple-vector/simple_vector.h:286-292 | `==` holds exactly when the live sequences are equal (same size, pairwise equal elements) |
| `SimpleVectors.NotEqual` | simple-vector/simple_vector.h:294-297 | `!=` holds exactly when the live sequences differ |
| `VectorSpec.LexLessMeaning` | simple-vector/simple_vector.h:301 | lexicographical_compare holds exactly when there is a position up to which neither sequence's elements are below the other's, and there lhs has ended while rhs has not, or lhs's element is below rhs's |
| `SimpleVectors.Less` | simple-vector/simple_vector.h:299-302 | `<` holds exactly when there is a position where lhs first falls below rhs |
| `SimpleVectors.Greater` | simple-vector/simple_vector.h:309-312 | `>` holds exactly when there is a position where rhs first falls below lhs |
| `SimpleVectors.LessOrEqual` | simple-vector/simple_vector.h:304-307 | `<=` holds exactly when there is no position where rhs first falls below lhs |
| `SimpleVectors.GreaterOrEqual` | simple-vector/simple_vector.h:314-317 | `>=` holds exactly when there is no position where lhs first falls below rhs |
| `VectorSpec.LexTrichotomy` | simple-vector/simple_vector.h:299-302 | over a strict total element order, exactly one of a < b, a == b, b < a holds |
| `VectorSpec.LexLessTransitive` | simple-vector/simple_vector.h:299-302 | over a strict total element order, lexicographic `<` is transitive |
| `SimpleVectors.ComparisonsAgree` | simple-vector/simple_vector.h:286-317 | over a strict total element order exactly one of `<`, `==`, `>` holds between two vectors, `<=` is `<` or `==`, and `>=` is `>` or `==` |
| `SimpleVectors.LessTransitive` | simple-vector/simple_vector.h:299-302 | over a strict total element order, `<` on vectors is transitive |
| `Scenarios.ReserveTagCounterexample` | simple-vector/simple_vector.h:61-63 | constructing from `Reserve(5)` as written gives capacity 5 over a buffer of no slots, breaking the invariant; the next `PushBack`'s `Resize(1)` takes the in-place branch and writes slot 0 outside the buffer |

## Left out

- `ArrayPtr` (array_ptr.h) is not part of this model. It is a Dafny `array<T>`: allocation is `new T[n]`, and the buffer swap in `Resize`/`Reserve` is an assignment of the fresh array to `items`. Freeing the old buffer is left to garbage collection.
- The move constructor leaves the moved-from `items_` null. The model gives the source a fresh zero-length array instead of a null buffer.
- Some allocated slots hold Dafny's default value of `T`, not a default-constructed `Type{}`. This happens in `Copy`, where every slot is then overwritten. It also happens in `Reserve`, `Resize`'s growth branch and `FromReserve`, for the slots beyond `size`. No live element ever holds such a slot's value: `Resize` writes `dflt` into every slot it brings into the live range.
- `SimpleVector(size)` delegates to `SimpleVector(size, Type{})`, and the initializer-list and copy constructors delegate to `SimpleVector(size)` before overwriting every slot. The model does not repeat that default fill.
- size_t is unbounded `nat`. The model does not wrap `capacity_ * 2` or `size_ + 1` at 2^64. Both need more than 2^63 slots, an allocation that fails first.
- Exceptions thrown by element copy or default constructors, and allocation failure, are not modelled. The model therefore has no partial-migration or exception-safety states; the only error it models is `At`'s out_of_range.
- The `const Type&` and `Type&&` overloads of `Insert` and `PushBack`, and the `ConstIterator` (copying) and `Iterator` (moving) overloads of `Erase`, are one operation each. So are the const and non-const overloads of `operator[]` and `At`. Moved-from element states are not modelled.
- An `Insert` or `PushBack` argument that refers into the vector itself is not modelled, because Dafny passes values, not references. In the source such a reference dangles when `Resize` reallocates. Without reallocation, the `copy_backward` shift at line 214 changes the very slot it refers to before line 215 reads it. For example, `v = [1,2]` with capacity 3 and `Insert(begin(), v[1])` gives `[1,1,2]`; the model, which takes the value first, gives `[2,1,2]`.
- Writing through the reference the non-const `At` returns is not modelled separately. It is `Set` after `At` returned `Ok`.
- The raw-pointer iterators (`begin`, `end`, `cbegin`, `cend` and the null `begin()` of an empty vector) are not modelled. They are the indices 0 and `size`.
- The source declares no move-assignment operator, so assignment from a temporary uses the copy assignment `Assign`.
- SimpleVectors.Equal: element equality is Dafny's `==`, not the element type's `operator==`. The model therefore does not cover an element `operator==` that is not reflexive, such as `double` with NaN. There the source's `v == v` is false, so `v = v` takes the copy-and-swap path at lines 77-78: a fresh buffer with capacity equal to size. `SimpleVectors.SimpleVector.Assign` instead keeps buffer and capacity.
- `main.cpp` and its tests (tests.h is not part of this model) only drive the container.

## Findings

| source | as written | input that shows it | evidently intended | confidence | as-written member | corrected member |
|---|---|---|---|---|---|---|
| simple-vector/simple_vector.h:61-63 | the reserving constructor sets `capacity_` from the tag before calling `Reserve(capacity_)`, whose early return at line 271-272 (`new_capacity <= capacity_`) is then always taken, so no buffer is allocated | `SimpleVector<int> v(Reserve(5)); v.PushBack(1);` gives capacity 5 over a null buffer; `Resize(1)` takes the in-place branch at line 136 and assigns `Type{}` to slot 0 outside any storage | allocate a buffer of the requested capacity: size 0, capacity n, n slots | high (the control flow is unconditional); not executed | `Scenarios.ReserveTagCounterexample` | `SimpleVectors.SimpleVector.FromReserve` |
