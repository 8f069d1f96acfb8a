/** Client code that runs the container through the situations its unit tests
    describe, proving what the tests check. */
module Scenarios {
  import opened Growth
  import opened Sequences
  import opened SmallVectors

  /** Pushes `xs` one by one into an empty vector with inline capacity n and
      records m_alloc after each push: the vector stays inline for exactly
      the first n pushes and is heap-active from then on. */
  method PushAll(n: nat, xs: seq<int>) returns (allocs: seq<nat>, elems: seq<int>)
    ensures elems == xs && |allocs| == |xs|
    ensures forall k :: 0 <= k < |allocs| ==> (allocs[k] == 0 <==> k < n)
    ensures forall k :: 0 <= k < |allocs| && k >= n ==> allocs[k] > n
  {
    var v := new SmallVector<int>(n);
    allocs := [];
    var i := 0;
    while i < |xs|
      invariant i <= |xs| && |allocs| == i
      invariant v.Valid() && v.N == n && v.size == i
      invariant fresh(v) && fresh(v.buf) && fresh(v.heap)
      invariant v.Elems() == xs[..i]
      invariant v.Capacity() == PushMany(Start(n), i).cap
      invariant forall k :: 0 <= k < i ==> (allocs[k] == 0 <==> k < n)
      invariant forall k :: 0 <= k < i && k >= n ==> allocs[k] > n
    {
      var alloc := PushStep(v, n, xs[i]);
      allocs := allocs + [alloc];
      i := i + 1;
    }
    elems := v.Active()[..v.size];
  }

  /** One push of PushAll: the vector follows the push-sequence model one
      step further, and m_alloc afterwards is 0 exactly while the pushes so
      far fit inline. */
  method PushStep(v: SmallVector<int>, n: nat, x: int) returns (alloc: nat)
    requires v.Valid() && v.N == n
    requires v.Capacity() == PushMany(Start(n), v.size).cap
    modifies v, v.buf, v.heap
    ensures v.Valid() && v.N == n && v.buf == old(v.buf)
    ensures v.heap == old(v.heap) || fresh(v.heap)
    ensures v.size == old(v.size) + 1 && v.Elems() == old(v.Elems()) + [x]
    ensures v.Capacity() == PushMany(Start(n), v.size).cap
    ensures alloc == v.alloc && (alloc == 0 <==> old(v.size) < n)
    ensures old(v.size) >= n ==> alloc > n
  {
    ghost var k := v.size;
    v.PushBack(x);
    PushManyLast(Start(n), k);
    InlineUntilFull(n, k + 1);
    alloc := v.alloc;
  }

  /** The inserts of the unit tests' insert/erase sequence, on a vector with
      the default inline capacity 8: at the end twice, then at the front and
      in the middle. */
  method InsertSequence() returns (inserted: seq<int>)
    ensures inserted == [0, 1, 15, 2]
  {
    var v := new SmallVector<int>(8);
    // insert at cend(): offsets 0 and 1 are the sizes at those points
    var r := v.Insert(0, 1);
    InsertAtEnd([], 1);
    r := v.Insert(1, 2);
    InsertAtEnd([1], 2);
    InsertFrontAndMiddle(v);
    inserted := v.Active()[..v.size];
  }

  method InsertFrontAndMiddle(v: SmallVector<int>)
    requires v.Valid() && v.Elems() == [1, 2]
    modifies v, v.buf, v.heap
    ensures v.Valid() && v.Elems() == [0, 1, 15, 2]
  {
    var r := v.Insert(0, 0);
    assert Inserted([1, 2], 0, 0) == [0, 1, 2];
    r := v.Insert(2, 15);
    assert Inserted([0, 1, 2], 2, 15) == [0, 1, 15, 2];
  }

  /** The erases and pops that follow in the same test. The state the inserts
      left, 0, 1, 15, 2 with inline capacity 8, is rebuilt here from a list. */
  method EraseSequence() returns (erased: seq<int>, popped: nat)
    ensures erased == [1, 2]
    ensures popped == 0
  {
    var v := new SmallVector.FromList(8, [0, 1, 15, 2]);
    var r := v.EraseAt(2);
    assert v.Elems() == [0, 1, 2];
    r := v.EraseAt(0);
    assert v.Elems() == [1, 2];
    erased := v.Active()[..v.size];
    v.PopBack();
    v.PopBack();
    popped := v.size;
  }

  /** Swapping an inline vector {1, 2, 3} with a heap-active one holding
      10 .. 19 (inline capacity 4) exchanges contents and storage modes.
      The heap-active vector is filled first so that the inline one is
      created afresh beside it. */
  method SwapMixed() returns (e1: seq<int>, e2: seq<int>, alloc1: nat, alloc2: nat)
    ensures e1 == seq(10, k => 10 + k) && e2 == [1, 2, 3]
    ensures alloc1 > 4 && alloc2 == 0
  {
    var v2 := new SmallVector<int>(4);
    var i := 0;
    while i < 10
      invariant i <= 10
      invariant v2.Valid() && v2.N == 4 && v2.Elems() == seq(i, k => 10 + k)
      invariant i > 4 ==> v2.alloc > 4
      invariant fresh(v2.buf) && fresh(v2.heap)
    {
      v2.PushBack(10 + i);
      i := i + 1;
    }
    var v1 := new SmallVector.FromList(4, [1, 2, 3]);
    Swap(v1, v2);
    e1 := v1.Active()[..v1.size];
    e2 := v2.Active()[..v2.size];
    alloc1, alloc2 := v1.alloc, v2.alloc;
  }

  /** Swapping a vector with itself, through the free swap, leaves it as it
      was, whether it is inline ({1, 2} with inline capacity 4) or on the
      heap ({1, 2, 3} with inline capacity 2). */
  method SelfSwap() returns (inline: seq<int>, inlineAlloc: nat, onHeap: seq<int>, heapAlloc: nat)
    ensures inline == [1, 2] && inlineAlloc == 0
    ensures onHeap == [1, 2, 3] && heapAlloc == 3
  {
    var v1 := new SmallVector.FromList(4, [1, 2]);
    Swap(v1, v1);
    inline, inlineAlloc := v1.Active()[..v1.size], v1.alloc;
    var v2 := new SmallVector.FromList(2, [1, 2, 3]);
    Swap(v2, v2);
    onHeap, heapAlloc := v2.Active()[..v2.size], v2.alloc;
  }

  /** The copy constructor as written, applied to a vector of inline capacity
      2 that was promoted to the heap: with 3 elements the copy claims a
      4-slot block but owns only 3 slots; after popping back to 1 element the
      copy claims a 4-slot block but owns none, its element sitting inline. */
  method CopyOfPromotedVector() returns (claimed1: nat, owned1: nat, claimed2: nat, owned2: nat)
    ensures claimed1 == 4 && owned1 == 3
    ensures claimed2 == 4 && owned2 == 0
  {
    var v := new SmallVector<int>(2);
    v.PushBack(1);
    v.PushBack(2);
    v.PushBack(3);
    var c1 := new SmallVector.CopyAsWritten(v);
    claimed1, owned1 := c1.alloc, c1.heap.Length;
    v.PopBack();
    v.PopBack();
    var c2 := new SmallVector.CopyAsWritten(v);
    claimed2, owned2 := c2.alloc, c2.heap.Length;
  }
}
