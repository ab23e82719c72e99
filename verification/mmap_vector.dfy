/**
 * The bookkeeping of the memory-mapped vector behind the node location
 * indexes: a logical size over a mapping of `capacity` slots. The mapping is
 * modelled by the sequence of its slots, so the capacity is its length. Slots
 * the vector has not used hold the element type's sentinel, passed in as `empty`.
 */
module MmapVector {
  import opened Results

  /** Growth step: `resize` past the capacity reserves this many slots beyond the new size. */
  const SizeIncrement: nat := 1024 * 1024

  /** The error `at` throws for an index outside the vector. */
  datatype VecError = OutOfRange

  /** The vector: its logical size and the slots of its mapping. */
  datatype Vec<T> = Vec(size: nat, slots: seq<T>)

  /** The size never exceeds the capacity. */
  predicate Valid<T>(v: Vec<T>) {
    v.size <= |v.slots|
  }

  /** `capacity()`: the number of mapped slots. */
  function Capacity<T>(v: Vec<T>): nat {
    |v.slots|
  }

  /** The elements of the vector: the slots before its size. */
  function Contents<T>(v: Vec<T>): seq<T>
    requires Valid(v)
  {
    v.slots[..v.size]
  }

  /** Every slot past the size holds the sentinel. */
  predicate SentinelTail<T(==)>(v: Vec<T>, empty: T) {
    forall i | v.size <= i < |v.slots| :: v.slots[i] == empty
  }

  /** `empty()`. */
  predicate Empty<T>(v: Vec<T>) {
    v.size == 0
  }

  /** The anonymous constructor: `capacity` slots, all of them the sentinel, and size 0. */
  function Anonymous<T(==)>(capacity: nat, empty: T): (v: Vec<T>)
    ensures Valid(v) && Capacity(v) == capacity && Empty(v)
    ensures Contents(v) == []
    ensures SentinelTail(v, empty)
  {
    Vec(0, seq(capacity, _ => empty))
  }

  /** The anonymous constructor with its default capacity, one size increment. */
  function AnonymousDefault<T(==)>(empty: T): (v: Vec<T>)
    ensures Valid(v) && Capacity(v) == SizeIncrement && Empty(v)
    ensures SentinelTail(v, empty)
  {
    Anonymous(SizeIncrement, empty)
  }

  /**
   * `shrink_to_fit`: drop sentinels from the end of the vector. The slots
   * are untouched; the new size is the largest one not above the old size
   * whose last element is not the sentinel, and everything dropped was the sentinel.
   */
  function ShrinkToFit<T(==)>(v: Vec<T>, empty: T): (r: Vec<T>)
    requires Valid(v)
    ensures Valid(r) && r.slots == v.slots && r.size <= v.size
    ensures r.size == 0 || v.slots[r.size - 1] != empty
    ensures forall i | r.size <= i < v.size :: v.slots[i] == empty
    decreases v.size
  {
    if v.size > 0 && v.slots[v.size - 1] == empty then ShrinkToFit(Vec(v.size - 1, v.slots), empty) else v
  }

  /**
   * `shrink_to_fit` as the loop it is: step the size down while the last
   * element is the sentinel. It computes the same vector as `ShrinkToFit`.
   */
  method ShrinkToFitLoop<T(==)>(v: Vec<T>, empty: T) returns (r: Vec<T>)
    requires Valid(v)
    ensures Valid(r) && r.slots == v.slots && r.size <= v.size
    ensures r.size == 0 || v.slots[r.size - 1] != empty
    ensures forall i | r.size <= i < v.size :: v.slots[i] == empty
    ensures r == ShrinkToFit(v, empty)
  {
    var size: nat := v.size;
    while size > 0 && v.slots[size - 1] == empty
      invariant size <= v.size
      invariant forall i | size <= i < v.size :: v.slots[i] == empty
      invariant ShrinkToFit(Vec(size, v.slots), empty) == ShrinkToFit(v, empty)
    {
      size := size - 1;
    }
    r := Vec(size, v.slots);
  }

  /**
   * The file constructor: the mapping holds the file's `mapped` slots; the
   * slots from `size` on are overwritten with the sentinel, and the size is
   * then recomputed by `shrink_to_fit`.
   */
  function FromFile<T(==)>(mapped: seq<T>, size: nat, empty: T): (v: Vec<T>)
    requires size <= |mapped|
    ensures Valid(v) && Capacity(v) == |mapped| && v.size <= size
    ensures Contents(v) == mapped[..v.size]
    ensures v.size == 0 || mapped[v.size - 1] != empty
    ensures forall i | v.size <= i < size :: mapped[i] == empty
    ensures SentinelTail(v, empty)
  {
    var filled := Vec(size, mapped[..size] + seq(|mapped| - size, _ => empty));
    assert forall i | 0 <= i < size :: filled.slots[i] == mapped[i];
    ShrinkToFit(filled, empty)
  }

  /** `operator[]`: the element at `n`, which must lie inside the vector. */
  function Get<T>(v: Vec<T>, n: nat): (x: T)
    requires Valid(v) && n < v.size
    ensures x == Contents(v)[n]
  {
    v.slots[n]
  }

  /** Writing through `operator[]`: the element at `n`, inside the vector, becomes `x`. */
  function Set<T>(v: Vec<T>, n: nat, x: T): (r: Vec<T>)
    requires Valid(v) && n < v.size
    ensures Valid(r) && r.size == v.size && Capacity(r) == Capacity(v)
    ensures Contents(r) == Contents(v)[n := x]
    ensures forall i | 0 <= i < |v.slots| && i != n :: r.slots[i] == v.slots[i]
  {
    Vec(v.size, v.slots[n := x])
  }

  /** `at`: the element at `n`, or the out-of-range error when `n` is not below the size. */
  function At<T>(v: Vec<T>, n: nat): (r: Result<T, VecError>)
    requires Valid(v)
    ensures r.Err? <==> n >= v.size
    ensures r.Ok? ==> r.value == Contents(v)[n]
  {
    if n >= v.size then Err(OutOfRange) else Ok(v.slots[n])
  }

  /** `clear`: the size drops to 0; the slots and the capacity are left alone. */
  function Clear<T>(v: Vec<T>): (r: Vec<T>)
    requires Valid(v)
    ensures Valid(r) && Empty(r) && Contents(r) == []
    ensures r.slots == v.slots
  {
    Vec(0, v.slots)
  }

  /**
   * `reserve`: when asked for more than the capacity the mapping grows to
   * exactly `n` slots and the new ones hold the sentinel; otherwise nothing changes.
   */
  function Reserve<T>(v: Vec<T>, n: nat, empty: T): (r: Vec<T>)
    requires Valid(v)
    ensures Valid(r) && r.size == v.size
    ensures Capacity(r) == if n > Capacity(v) then n else Capacity(v)
    ensures r.slots[..|v.slots|] == v.slots
    ensures forall i | |v.slots| <= i < |r.slots| :: r.slots[i] == empty
  {
    if n > |v.slots| then Vec(v.size, v.slots + seq(n - |v.slots|, _ => empty)) else v
  }

  /**
   * `resize`: the size becomes `n`. Past the capacity, the mapping first grows
   * to `n` plus one size increment; otherwise the slots stay as they are, so
   * shrinking does not reset the slots it leaves.
   */
  function Resize<T>(v: Vec<T>, n: nat, empty: T): (r: Vec<T>)
    requires Valid(v)
    ensures Valid(r) && r.size == n
    ensures Capacity(r) == if n > Capacity(v) then n + SizeIncrement else Capacity(v)
    ensures r.slots[..|v.slots|] == v.slots
    ensures forall i | |v.slots| <= i < |r.slots| :: r.slots[i] == empty
  {
    var grown := if n > |v.slots| then Reserve(v, n + SizeIncrement, empty) else v;
    Vec(n, grown.slots)
  }

  /** `push_back`: resize by one, then write `x` into the last element. */
  function PushBack<T>(v: Vec<T>, x: T, empty: T): (r: Vec<T>)
    requires Valid(v)
    ensures Valid(r) && r.size == v.size + 1
    ensures Contents(r) == Contents(v) + [x]
    ensures Capacity(r) == if v.size == Capacity(v) then v.size + 1 + SizeIncrement else Capacity(v)
    ensures forall i | 0 <= i < |v.slots| && i != v.size :: r.slots[i] == v.slots[i]
    ensures forall i | |v.slots| <= i < |r.slots| && i != v.size :: r.slots[i] == empty
  {
    var w := Resize(v, v.size + 1, empty);
    assert w.slots[..v.size] == v.slots[..v.size] by {
      assert w.slots[..|v.slots|] == v.slots;
    }
    Set(w, v.size, x)
  }

  // ---------------------------------------------------------------------------
  // Properties
  // ---------------------------------------------------------------------------

  /** `shrink_to_fit` is idempotent. */
  lemma ShrinkToFitIdempotent<T>(v: Vec<T>, empty: T)
    requires Valid(v)
    ensures ShrinkToFit(ShrinkToFit(v, empty), empty) == ShrinkToFit(v, empty)
  {
  }

  /** `shrink_to_fit` keeps a sentinel tail a sentinel tail: the slots it drops are sentinels. */
  lemma ShrinkToFitKeepsSentinelTail<T>(v: Vec<T>, empty: T)
    requires Valid(v) && SentinelTail(v, empty)
    ensures SentinelTail(ShrinkToFit(v, empty), empty)
  {
  }

  /** `at` agrees with `operator[]` inside the vector. */
  lemma AtAgreesWithGet<T>(v: Vec<T>, n: nat)
    requires Valid(v) && n < v.size
    ensures At(v, n) == Ok(Get(v, n))
  {
  }

  /** After `push_back(x)`, `at` finds `x` at the old size and every earlier element where it was. */
  lemma AtAfterPushBack<T>(v: Vec<T>, x: T, empty: T)
    requires Valid(v)
    ensures At(PushBack(v, x, empty), v.size) == Ok(x)
    ensures forall i | 0 <= i < v.size :: At(PushBack(v, x, empty), i) == At(v, i)
    ensures At(PushBack(v, x, empty), v.size + 1).Err?
  {
    var r := PushBack(v, x, empty);
    assert Contents(r)[v.size] == x;
    forall i | 0 <= i < v.size
      ensures At(r, i) == At(v, i)
    {
      assert Contents(r)[i] == Contents(v)[i];
    }
  }

  /** Growing keeps the elements and shrinking truncates them: `resize(n)` keeps the first min(n, size) elements. */
  lemma ResizeKeepsPrefix<T>(v: Vec<T>, n: nat, empty: T)
    requires Valid(v)
    ensures var r := Resize(v, n, empty);
      var k := if n < v.size then n else v.size;
      Contents(r)[..k] == Contents(v)[..k]
  {
    var r := Resize(v, n, empty);
    var k := if n < v.size then n else v.size;
    forall i | 0 <= i < k
      ensures Contents(r)[i] == Contents(v)[i]
    {
      assert r.slots[..|v.slots|][i] == v.slots[i];
    }
  }

  /** Growing a vector whose unused slots are sentinels fills the new elements with sentinels and keeps the tail. */
  lemma ResizeUpKeepsSentinelTail<T>(v: Vec<T>, n: nat, empty: T)
    requires Valid(v) && SentinelTail(v, empty) && v.size <= n
    ensures var r := Resize(v, n, empty);
      && SentinelTail(r, empty)
      && forall i | v.size <= i < n :: Contents(r)[i] == empty
  {
    var r := Resize(v, n, empty);
    forall i | v.size <= i < |r.slots|
      ensures r.slots[i] == empty
    {
      if i < |v.slots| {
        assert r.slots[..|v.slots|][i] == v.slots[i];
      }
    }
  }

  /** `push_back` on a vector whose unused slots are sentinels keeps them sentinels. */
  lemma PushBackKeepsSentinelTail<T>(v: Vec<T>, x: T, empty: T)
    requires Valid(v) && SentinelTail(v, empty)
    ensures SentinelTail(PushBack(v, x, empty), empty)
  {
    ResizeUpKeepsSentinelTail(v, v.size + 1, empty);
  }

  /**
   * `clear` only forgets the size: resizing a cleared vector within its
   * capacity brings back exactly the slots that were there, old values included.
   */
  lemma ClearThenResizeShowsSlots<T>(v: Vec<T>, n: nat, empty: T)
    requires Valid(v) && n <= Capacity(v)
    ensures Capacity(Resize(Clear(v), n, empty)) == Capacity(v)
    ensures Contents(Resize(Clear(v), n, empty)) == v.slots[..n]
  {
  }

  /**
   * Neither `clear` nor a shrinking `resize` restores the sentinel: a value
   * pushed, cleared away and resized back into view is still there, so unused
   * slots are sentinels only until they are first written.
   */
  lemma ClearThenResizeShowsOldValue<T>(x: T, empty: T)
    requires x != empty
    ensures var v := Clear(PushBack(Anonymous(1, empty), x, empty));
      && Empty(v)
      && !SentinelTail(v, empty)
      && At(Resize(v, 1, empty), 0) == Ok(x)
  {
    var p := PushBack(Anonymous(1, empty), x, empty);
    assert Contents(p) == [x];
    assert p.slots[0] == x;
  }
}
