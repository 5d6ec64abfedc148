/** Pure specification of SimpleVector: the live sequence items[0..size), how
    the growing operations change it and the capacity, and the element-wise
    comparisons behind the free operators. */
module VectorSpec {

  function Max(a: nat, b: nat): (r: nat) {
    if a < b then b else a
  }

  /** The capacity after Resize(newSize): unchanged unless newSize exceeds it,
      otherwise max(capacity * 2, newSize). */
  function GrownCapacity(capacity: nat, newSize: nat): (r: nat)
    ensures r >= capacity && r >= newSize
    ensures newSize <= capacity ==> r == capacity
    ensures newSize > capacity ==> r >= 2 * capacity && (r == 2 * capacity || r == newSize)
  {
    if newSize > capacity then Max(capacity * 2, newSize) else capacity
  }

  /** Growth on the insertion path, Resize(size + 1): a full vector doubles
      its capacity and an empty-capacity vector goes to 1. */
  lemma InsertGrowth(size: nat, capacity: nat)
    requires size <= capacity
    ensures GrownCapacity(capacity, size + 1) >= size + 1
    ensures GrownCapacity(capacity, size + 1) ==
            if size < capacity then capacity
            else if capacity == 0 then 1
            else 2 * capacity
  {
  }

  /** The live sequence after Resize(n): a prefix when shrinking, and the
      old elements followed by copies of the default value when growing. */
  function Resized<T>(s: seq<T>, n: nat, dflt: T): (r: seq<T>)
    ensures |r| == n
    ensures forall j :: 0 <= j < n && j < |s| ==> r[j] == s[j]
    ensures forall j :: |s| <= j < n ==> r[j] == dflt
  {
    if n <= |s| then s[..n] else s + seq(n - |s|, _ => dflt)
  }

  /** The live sequence after Insert(i, v). */
  function Inserted<T>(s: seq<T>, i: nat, v: T): (r: seq<T>)
    requires i <= |s|
    ensures |r| == |s| + 1
    ensures r[i] == v
    ensures forall j :: 0 <= j < i ==> r[j] == s[j]
    ensures forall j :: i < j < |r| ==> r[j] == s[j - 1]
  {
    s[..i] + [v] + s[i..]
  }

  /** The live sequence after Erase(i). */
  function Erased<T>(s: seq<T>, i: nat): (r: seq<T>)
    requires i < |s|
    ensures |r| == |s| - 1
    ensures forall j :: 0 <= j < i ==> r[j] == s[j]
    ensures forall j :: i <= j < |r| ==> r[j] == s[j + 1]
  {
    s[..i] + s[i + 1..]
  }

  /** Erasing at the position just inserted at restores the sequence. */
  lemma EraseUndoesInsert<T>(s: seq<T>, i: nat, v: T)
    requires i <= |s|
    ensures Erased(Inserted(s, i, v), i) == s
  {
  }

  /** Re-inserting an erased element at its position restores the sequence. */
  lemma InsertUndoesErase<T>(s: seq<T>, i: nat)
    requires i < |s|
    ensures Inserted(Erased(s, i), i, s[i]) == s
  {
  }

  /** Capacity after k PushBack calls on a default-constructed vector. */
  function PushBackCapacity(k: nat): (r: nat) {
    if k == 0 then 0 else GrownCapacity(PushBackCapacity(k - 1), k)
  }

  predicate PowerOfTwo(n: nat)
    decreases n
  {
    n == 1 || (n >= 2 && n % 2 == 0 && PowerOfTwo(n / 2))
  }

  /** After k >= 1 pushes from empty the capacity is a power of two in
      [k, 2k), that is the smallest power of two not below k. */
  lemma {:induction false} PushBackCapacityBound(k: nat)
    requires k >= 1
    ensures PowerOfTwo(PushBackCapacity(k))
    ensures k <= PushBackCapacity(k) < 2 * k
  {
    if k > 1 {
      PushBackCapacityBound(k - 1);
    }
  }

  /** Element-wise equality of two equally long sequences, as std::equal. */
  function AllEqual<T(==)>(a: seq<T>, b: seq<T>): (r: bool)
    requires |a| == |b|
    ensures r <==> a == b
    decreases |a|
  {
    if |a| == 0 then true
    else if a[0] != b[0] then false
    else AllEqual(a[1..], b[1..])
  }

  /** Lexicographic "less than" with element order lt, as
      std::lexicographical_compare. */
  function LexLess<T>(a: seq<T>, b: seq<T>, lt: (T, T) -> bool): (r: bool)
    ensures |b| == 0 ==> !r
    ensures |a| == 0 && |b| > 0 ==> r
    decreases |a|
  {
    if |b| == 0 then false
    else if |a| == 0 then true
    else if lt(a[0], b[0]) then true
    else if lt(b[0], a[0]) then false
    else LexLess(a[1..], b[1..], lt)
  }

  /** Neither sequence's element is below the other's at every index < k. */
  ghost predicate EquivalentPrefix<T>(a: seq<T>, b: seq<T>, k: nat, lt: (T, T) -> bool)
    requires k <= |a| && k <= |b|
  {
    forall j :: 0 <= j < k ==> !lt(a[j], b[j]) && !lt(b[j], a[j])
  }

  /** k is where a first falls below b: both agree up to k, and then either a
      has ended while b has not, or a[k] is below b[k]. */
  ghost predicate FirstBelowAt<T>(a: seq<T>, b: seq<T>, k: nat, lt: (T, T) -> bool) {
    k <= |a| && k < |b| && EquivalentPrefix(a, b, k, lt) && (k == |a| || lt(a[k], b[k]))
  }

  lemma FirstBelowAtTails<T>(a: seq<T>, b: seq<T>, k: nat, lt: (T, T) -> bool)
    requires |a| > 0 && |b| > 0 && !lt(a[0], b[0]) && !lt(b[0], a[0])
    ensures FirstBelowAt(a, b, k + 1, lt) <==> FirstBelowAt(a[1..], b[1..], k, lt)
  {
  }

  /** LexLess holds exactly when there is a position where a first falls
      below b. */
  lemma {:induction false} LexLessMeaning<T>(a: seq<T>, b: seq<T>, lt: (T, T) -> bool)
    ensures LexLess(a, b, lt) <==> exists k: nat :: FirstBelowAt(a, b, k, lt)
    decreases |a|
  {
    if |b| == 0 {
    } else if |a| == 0 {
      assert FirstBelowAt(a, b, 0, lt);
    } else if lt(a[0], b[0]) {
      assert FirstBelowAt(a, b, 0, lt);
    } else if lt(b[0], a[0]) {
    } else {
      LexLessMeaning(a[1..], b[1..], lt);
      if LexLess(a, b, lt) {
        var k: nat :| FirstBelowAt(a[1..], b[1..], k, lt);
        FirstBelowAtTails(a, b, k, lt);
      } else {
        forall k: nat | FirstBelowAt(a, b, k, lt) ensures false {
          FirstBelowAtTails(a, b, k - 1, lt);
        }
      }
    }
  }

  ghost predicate StrictTotalOrder<T(!new)>(lt: (T, T) -> bool) {
    (forall x :: !lt(x, x)) &&
    (forall x, y, z :: lt(x, y) && lt(y, z) ==> lt(x, z)) &&
    (forall x, y :: x != y ==> lt(x, y) || lt(y, x))
  }

  /** Over a strict total order, exactly one of a < b, a == b, b < a holds. */
  lemma {:induction false} LexTrichotomy<T(!new)>(a: seq<T>, b: seq<T>, lt: (T, T) -> bool)
    requires StrictTotalOrder(lt)
    ensures a == b ==> !LexLess(a, b, lt)
    ensures LexLess(a, b, lt) ==> !LexLess(b, a, lt)
    ensures a != b ==> LexLess(a, b, lt) || LexLess(b, a, lt)
    decreases |a|
  {
    if |a| > 0 && |b| > 0 {
      if !lt(a[0], b[0]) && !lt(b[0], a[0]) {
        LexTrichotomy(a[1..], b[1..], lt);
      }
    }
  }

  /** Over a strict total order, lexicographic order is transitive. */
  lemma {:induction false} LexLessTransitive<T(!new)>(a: seq<T>, b: seq<T>, c: seq<T>, lt: (T, T) -> bool)
    requires StrictTotalOrder(lt)
    requires LexLess(a, b, lt) && LexLess(b, c, lt)
    ensures LexLess(a, c, lt)
    decreases |a|
  {
    if |a| > 0 && !lt(a[0], b[0]) && !lt(b[0], c[0]) {
      LexLessTransitive(a[1..], b[1..], c[1..], lt);
    }
  }
}
