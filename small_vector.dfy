/** mpc::small_vector<T, N>: a vector that keeps up to N elements in an inline
    buffer and moves them to a heap block once it outgrows that buffer. */
module SmallVectors {
  import opened Outcomes
  import opened Growth
  import opened Sequences

  class SmallVector<T(0)> {
    /** The inline capacity, the template parameter N. */
    const N: nat
    /** m_buff: the N inline slots. */
    var buf: array<T>
    /** m_data: the heap block; the empty array stands for "no block owned". */
    var heap: array<T>
    /** m_alloc: 0 while the inline buffer is active, otherwise the number of
        slots of the heap block. */
    var alloc: nat
    /** m_size: the number of live elements. */
    var size: nat

    ghost function Repr(): set<object>
      reads this
    {
      {this, buf, heap}
    }

    /** The representation invariant. The storage mode is not stored: the
        vector is inline iff alloc == 0, and a heap block is always larger
        than the inline buffer. */
    ghost predicate Valid()
      reads this
    {
      && buf.Length == N
      && heap.Length == alloc
      && buf != heap
      && (alloc == 0 || alloc > N)
      && size <= Capacity()
    }

    /** Two vectors share no storage. */
    ghost predicate Disjoint(other: SmallVector<T>)
      reads this, other
    {
      Repr() !! other.Repr()
    }

    /** capacity(): N exactly while inline, more than N once the vector has
        been promoted to the heap (a block is always larger than N). */
    function Capacity(): (c: nat)
      reads this
      ensures alloc == 0 || alloc > N ==> c >= N && (c == N <==> alloc == 0)
    {
      if alloc == 0 then N else alloc
    }

    /** begin(): the active storage, which has capacity() slots while the
        array lengths agree with N and m_alloc. */
    function Active(): (a: array<T>)
      reads this
      ensures buf.Length == N && heap.Length == alloc ==> a.Length == Capacity()
    {
      if alloc == 0 then buf else heap
    }

    /** The live elements, begin() .. end(). */
    ghost function Elems(): seq<T>
      reads this, buf, heap
      requires Valid()
    {
      Active()[..size]
    }

    /** small_vector(): empty and inline. */
    constructor (n: nat)
      ensures Valid() && N == n && alloc == 0 && Elems() == []
      ensures fresh(buf) && fresh(heap)
    {
      N := n;
      buf := new T[n];
      heap := new T[0];
      alloc, size := 0, 0;
    }

    /** small_vector(sz): sz copies of the default value `fill` (T()). */
    constructor Sized(n: nat, sz: nat, fill: T)
      ensures Valid() && N == n && Elems() == Fill(fill, sz)
      ensures alloc == if sz <= n then 0 else sz
      ensures fresh(buf) && fresh(heap)
    {
      N := n;
      buf := new T[n];
      heap := new T[0];
      alloc, size := 0, 0;
      new;
      Resize(sz, fill);
    }

    /** small_vector(std::initializer_list<T>): the listed elements, in order. */
    constructor FromList(n: nat, init: seq<T>)
      ensures Valid() && N == n && Elems() == init
      ensures alloc == if |init| <= n then 0 else |init|
      ensures fresh(buf) && fresh(heap)
    {
      N := n;
      buf := new T[n];
      heap := new T[0];
      alloc, size := 0, 0;
      new;
      Reserve(|init|);
      var i := 0;
      while i < |init|
        invariant Valid() && i == size && i <= |init| <= Capacity()
        invariant alloc == (if |init| <= n then 0 else |init|)
        invariant fresh(buf) && fresh(heap)
        invariant Elems() == init[..i]
      {
        var a := Active();
        a[size] := init[i];
        size := size + 1;
        i := i + 1;
      }
    }

    /** The copy constructor as written: after copying, m_alloc is set to the
        source's m_alloc. The result satisfies the invariant only when the
        source is inline or its heap block is exactly full. */
    constructor CopyAsWritten(other: SmallVector<T>)
      requires other.Valid()
      ensures N == other.N && size == other.size && alloc == other.alloc
      ensures heap.Length == if other.size <= other.N then 0 else other.size
      ensures Valid() <==> other.alloc == 0 || other.size == other.alloc
      ensures Valid() ==> Elems() == other.Elems()
      ensures fresh(buf) && fresh(heap)
    {
      N := other.N;
      buf := new T[other.N];
      heap := new T[0];
      alloc, size := 0, 0;
      new;
      Reserve(other.size);
      ConstructFrom(other);
      size := other.size;
      alloc := other.alloc;
    }

    /** The copy constructor with its last assignment removed: the copy keeps
        the storage its own reserve chose. */
    constructor Copy(other: SmallVector<T>)
      requires other.Valid()
      ensures Valid() && N == other.N && Elems() == other.Elems()
      ensures alloc == if other.size <= other.N then 0 else other.size
      ensures fresh(buf) && fresh(heap)
    {
      N := other.N;
      buf := new T[other.N];
      heap := new T[0];
      alloc, size := 0, 0;
      new;
      Reserve(other.size);
      ConstructFrom(other);
      size := other.size;
    }

    /** The move constructor: steals a heap block, or relocates inline
        elements; the source is left empty and inline. */
    constructor Move(other: SmallVector<T>)
      requires other.Valid()
      modifies other
      ensures Valid() && other.Valid() && N == other.N && Disjoint(other)
      ensures Elems() == old(other.Elems()) && alloc == old(other.alloc)
      ensures other.Elems() == [] && other.alloc == 0 && other.buf == old(other.buf)
      ensures fresh(buf)
      ensures if old(other.alloc) == 0 then fresh(heap) && other.heap == old(other.heap)
              else heap == old(other.heap) && fresh(other.heap)
    {
      N := other.N;
      buf := new T[other.N];
      heap := new T[0];
      alloc, size := 0, 0;
      new;
      TakeFrom(other);
    }

    /** The body shared by the move constructor and move assignment, run on an
        empty inline vector. */
    method TakeFrom(other: SmallVector<T>)
      requires Valid() && other.Valid() && other.N == N && Disjoint(other)
      requires size == 0 && alloc == 0
      modifies this, buf, other
      ensures Valid() && other.Valid() && Disjoint(other)
      ensures Elems() == old(other.Elems()) && alloc == old(other.alloc)
      ensures other.Elems() == [] && other.alloc == 0
      ensures buf == old(buf) && other.buf == old(other.buf)
      ensures if old(other.alloc) == 0 then heap == old(heap) && other.heap == old(other.heap)
              else heap == old(other.heap) && fresh(other.heap)
    {
      if other.alloc == 0 {
        ConstructFrom(other);
        size := other.size;
        other.Clear();
      } else {
        heap := other.heap;
        alloc := other.alloc;
        size := other.size;
        other.heap := new T[0];
        other.alloc := 0;
        other.size := 0;
      }
    }

    /** std::uninitialized_copy / uninitialized_move of the other vector's
        live elements into the first slots of this vector's active storage. */
    method ConstructFrom(other: SmallVector<T>)
      requires Valid() && other.Valid() && Disjoint(other)
      requires other.size <= Capacity()
      modifies Active()
      ensures Active()[..other.size] == other.Elems()
    {
      var a := Active();
      var src := other.Active();
      var i := 0;
      while i < other.size
        modifies a
        invariant i <= other.size
        invariant a[..i] == src[..i]
      {
        a[i] := src[i];
        i := i + 1;
      }
    }

    /** Copy assignment as written: m_alloc is set to the source's m_alloc at
        the end, so the result satisfies the invariant only for a self
        assignment, an inline source or a source whose block is full. */
    method CopyAssignAsWritten(other: SmallVector<T>)
      requires Valid() && other.Valid() && other.N == N
      requires other == this || Disjoint(other)
      modifies this, buf, heap
      ensures size == old(other.size) && alloc == old(other.alloc) && buf == old(buf)
      ensures other != this ==> heap.Length == if other.size <= N then 0 else other.size
      ensures Valid() <==> other == this || other.alloc == 0 || other.size == other.alloc
      ensures Valid() ==> Elems() == old(other.Elems())
    {
      if other == this {
        return;
      }
      NearlyDestroy();
      Reserve(other.size);
      ConstructFrom(other);
      size := other.size;
      alloc := other.alloc;
    }

    /** Copy assignment with its last assignment removed. */
    method CopyAssign(other: SmallVector<T>)
      requires Valid() && other.Valid() && other.N == N
      requires other == this || Disjoint(other)
      modifies this, buf, heap
      ensures Valid() && buf == old(buf) && (heap == old(heap) || fresh(heap))
      ensures Elems() == old(other.Elems())
      ensures other == this ==> alloc == old(alloc)
      ensures other != this ==> alloc == if other.size <= N then 0 else other.size
    {
      if other == this {
        return;
      }
      NearlyDestroy();
      Reserve(other.size);
      ConstructFrom(other);
      size := other.size;
    }

    /** Move assignment: a self move changes nothing; otherwise this vector
        releases its storage and takes the other's elements, leaving the
        other empty and inline. */
    method MoveAssign(other: SmallVector<T>)
      requires Valid() && other.Valid() && other.N == N
      requires other == this || Disjoint(other)
      modifies this, buf, other
      ensures Valid() && other.Valid() && buf == old(buf)
      ensures other == this ==> Elems() == old(Elems()) && alloc == old(alloc) && heap == old(heap)
      ensures other != this ==>
        && Disjoint(other)
        && Elems() == old(other.Elems()) && alloc == old(other.alloc)
        && other.Elems() == [] && other.alloc == 0 && other.buf == old(other.buf)
        && (if old(other.alloc) == 0 then (heap == old(heap) || fresh(heap)) && other.heap == old(other.heap)
            else heap == old(other.heap) && fresh(other.heap))
    {
      if other == this {
        return;
      }
      NearlyDestroy();
      TakeFrom(other);
    }

    /** at(ind): the element, or out_of_range when ind >= size. */
    method At(ind: nat) returns (r: Result<T>)
      requires Valid()
      ensures r.Success? <==> ind < size
      ensures r.Success? ==> r.value == Elems()[ind]
      ensures r.Failure? ==> r.error == OutOfRange
    {
      if ind >= size {
        return Failure(OutOfRange);
      }
      var a := Active();
      r := Success(a[ind]);
    }

    /** push_back / emplace_back: the new element goes at the end, after
        ensure_capacity(size + 1). */
    method PushBack(x: T)
      requires Valid()
      modifies this, buf, heap
      ensures Valid() && buf == old(buf) && (heap == old(heap) || fresh(heap))
      ensures Elems() == old(Elems()) + [x]
      ensures alloc == if old(size) < old(Capacity()) then old(alloc)
                       else GrownCapacity(old(Capacity()), old(size) + 1)
    {
      EnsureCapacity(size + 1);
      var a := Active();
      a[size] := x;
      size := size + 1;
    }

    /** pop_back: drops the last element; nothing on an empty vector. */
    method PopBack()
      requires Valid()
      modifies this
      ensures Valid() && alloc == old(alloc) && buf == old(buf) && heap == old(heap)
      ensures Elems() == if old(size) == 0 then old(Elems()) else old(Elems())[..old(size) - 1]
    {
      if size > 0 {
        size := size - 1;
      }
    }

    /** insert(pos, value) through insert_impl, with pos given as its offset
        from begin(). */
    method Insert(offset: int, v: T) returns (r: Result<nat>)
      requires Valid()
      modifies this, buf, heap
      ensures Valid() && buf == old(buf) && (heap == old(heap) || fresh(heap))
      ensures r.Failure? <==> offset < 0 || offset > old(size)
      ensures r.Failure? ==> r.error == OutOfRange && Elems() == old(Elems())
                             && alloc == old(alloc) && heap == old(heap)
      ensures r.Success? ==> r.value == offset && Elems() == Inserted(old(Elems()), offset, v)
      ensures r.Success? ==> alloc == if old(size) < old(Capacity()) then old(alloc)
                                     else GrownCapacity(old(Capacity()), old(size) + 1)
    {
      if offset < 0 || offset > size {
        return Failure(OutOfRange);
      }
      EnsureCapacity(size + 1);
      var a := Active();
      InsertInto(a, size, offset, v);
      size := size + 1;
      r := Success(offset);
    }

    /** erase(first, last), with both iterators given as offsets from begin(). */
    method Erase(first: int, last: int) returns (r: Result<nat>)
      requires Valid()
      modifies buf, heap, this
      ensures Valid() && buf == old(buf) && heap == old(heap) && alloc == old(alloc)
      ensures r.Failure? <==> first < 0 || last > old(size) || first > last
      ensures r.Failure? ==> r.error == OutOfRange && Elems() == old(Elems())
      ensures r.Success? ==> r.value == first && Elems() == Erased(old(Elems()), first, last)
    {
      if first < 0 || last > size || first > last {
        return Failure(OutOfRange);
      }
      if first == last {
        return Success(first);
      }
      var a := Active();
      EraseFrom(a, size, first, last);
      // the trailing last - first slots are destroyed: they leave the live range
      size := size - (last - first);
      r := Success(first);
    }

    /** erase(pos): erase(pos, pos + 1). */
    method EraseAt(pos: int) returns (r: Result<nat>)
      requires Valid()
      modifies buf, heap, this
      ensures Valid() && buf == old(buf) && heap == old(heap) && alloc == old(alloc)
      ensures r.Failure? <==> pos < 0 || pos >= old(size)
      ensures r.Failure? ==> r.error == OutOfRange && Elems() == old(Elems())
      ensures r.Success? ==> r.value == pos && Elems() == old(Elems())[..pos] + old(Elems())[pos + 1..]
    {
      r := Erase(pos, pos + 1);
    }

    /** reserve(inp): nothing when the heap block is larger than inp or inp
        fits inline; otherwise relocate into a new block of exactly inp slots. */
    method Reserve(inp: nat)
      requires Valid()
      modifies this
      ensures Valid() && Elems() == old(Elems()) && buf == old(buf)
      ensures if old(alloc) > inp || N >= inp then alloc == old(alloc) && heap == old(heap)
              else alloc == inp && fresh(heap)
      ensures Capacity() >= inp
    {
      if alloc > inp || N >= inp {
        return;
      }
      var temp := new T[inp];
      var origSize := size;
      var src := Active();
      var i := 0;
      while i < size
        modifies temp
        invariant i <= size
        invariant temp[..i] == src[..i]
      {
        temp[i] := src[i];
        i := i + 1;
      }
      NearlyDestroy();
      heap := temp;
      size := origSize;
      alloc := inp;
    }

    /** ensure_capacity(req): nothing when req fits; otherwise reserve the
        grown capacity. */
    method EnsureCapacity(req: nat)
      requires Valid()
      modifies this
      ensures Valid() && Elems() == old(Elems()) && buf == old(buf)
      ensures if req <= old(Capacity()) then alloc == old(alloc) && heap == old(heap)
              else alloc == GrownCapacity(old(Capacity()), req) && fresh(heap)
      ensures Capacity() >= req
    {
      if req <= Capacity() {
        return;
      }
      var newCap := GrownCapacity(Capacity(), req);
      Reserve(newCap);
    }

    /** resize(size, val): cut to n elements, or reserve(n) and append copies
        of val up to n. */
    method Resize(n: nat, val: T)
      requires Valid()
      modifies this, buf, heap
      ensures Valid() && buf == old(buf) && (heap == old(heap) || fresh(heap))
      ensures Elems() == Resized(old(Elems()), n, val)
      ensures n <= old(size) ==> alloc == old(alloc) && heap == old(heap)
      ensures n > old(size) ==> alloc == if old(alloc) > n || N >= n then old(alloc) else n
      ensures Capacity() >= n
    {
      if n == size {
        return;
      }
      if n < size {
        ShrinkTo(n);
      } else {
        Reserve(n);
        ghost var s := Elems();
        var a := Active();
        FillRange(a, size, n, val);
        size := n;
        assert Elems() == Resized(s, n, val) by {
          assert Elems() == a[..|s|] + a[|s|..n];
        }
      }
    }

    /** The shrinking branch of resize: destroy trailing elements down to n. */
    method ShrinkTo(n: nat)
      requires Valid() && n <= size
      modifies this
      ensures Valid() && alloc == old(alloc) && buf == old(buf) && heap == old(heap)
      ensures Elems() == old(Elems())[..n]
    {
      while n < size
        invariant n <= size <= old(size)
        invariant Valid() && alloc == old(alloc) && buf == old(buf) && heap == old(heap)
        invariant Elems() == old(Elems())[..size]
      {
        size := size - 1;
      }
    }

    /** clear(): destroys every element; the storage stays as it is. */
    method Clear()
      requires Valid()
      modifies this
      ensures Valid() && Elems() == []
      ensures alloc == old(alloc) && buf == old(buf) && heap == old(heap)
    {
      while size > 0
        invariant Valid() && alloc == old(alloc) && buf == old(buf) && heap == old(heap)
      {
        size := size - 1;
      }
    }

    /** nearly_destroy(): clear, release the heap block, go back inline. */
    method NearlyDestroy()
      requires Valid()
      modifies this
      ensures Valid() && Elems() == [] && alloc == 0 && buf == old(buf)
      ensures old(alloc) == 0 ==> heap == old(heap)
      ensures heap == old(heap) || fresh(heap)
    {
      Clear();
      if alloc > 0 {
        heap := new T[0];
      }
      alloc := 0;
      size := 0;
    }

    /** swap(other): exchanges the element sequences and the storage of two
        vectors, by pointer swap (both heap), element-wise (both inline), or
        three moves through a temporary (mixed). Swapping a vector with itself
        takes one of the first two cases and leaves it as it was. */
    method Swap(other: SmallVector<T>)
      requires Valid() && other.Valid() && other.N == N
      requires other == this || Disjoint(other)
      modifies this, buf, heap, other, other.buf, other.heap
      ensures Valid() && other.Valid() && (other != this ==> Disjoint(other))
      ensures Elems() == old(other.Elems()) && other.Elems() == old(Elems())
      ensures alloc == old(other.alloc) && other.alloc == old(alloc)
      ensures buf == old(buf) && other.buf == old(other.buf)
      ensures heap == old(heap) || heap == old(other.heap) || fresh(heap)
      ensures other.heap == old(heap) || other.heap == old(other.heap) || fresh(other.heap)
    {
      if alloc > 0 && other.alloc > 0 {
        heap, other.heap := other.heap, heap;
        size, other.size := other.size, size;
        alloc, other.alloc := other.alloc, alloc;
      } else if alloc == 0 && other.alloc == 0 {
        SwapInline(other);
      } else {
        var temp := new SmallVector.Move(this);
        MoveAssign(other);
        other.MoveAssign(temp);
      }
    }

    /** The both-inline case of swap: swap the common prefix pairwise, move
        the longer vector's surplus into the other buffer, swap the sizes. */
    method SwapInline(other: SmallVector<T>)
      requires Valid() && other.Valid() && other.N == N
      requires other == this || Disjoint(other)
      requires alloc == 0 && other.alloc == 0
      modifies this, buf, other, other.buf
      ensures Valid() && other.Valid()
      ensures Elems() == old(other.Elems()) && other.Elems() == old(Elems())
      ensures alloc == 0 && other.alloc == 0
      ensures buf == old(buf) && other.buf == old(other.buf)
      ensures heap == old(heap) && other.heap == old(other.heap)
    {
      ghost var before, otherBefore := buf[..], other.buf[..];
      var minSize := if size <= other.size then size else other.size;
      var maxSize := if size <= other.size then other.size else size;
      SwapPrefix(buf, other.buf, minSize);
      if size > other.size {
        // move this buffer's surplus into the other buffer's free slots
        assert other != this && buf[minSize..] == before[minSize..];
        ghost var swapped := buf[..];
        MoveRange(buf, other.buf, minSize, maxSize);
        JoinSlices(before, other.buf[..], swapped, minSize, maxSize);
      } else if other.size > size {
        // move the other buffer's surplus into this buffer's free slots
        assert other != this && other.buf[minSize..] == otherBefore[minSize..];
        ghost var swapped := other.buf[..];
        MoveRange(other.buf, buf, minSize, maxSize);
        JoinSlices(otherBefore, buf[..], swapped, minSize, maxSize);
      }
      // the surplus source slots are destroyed: they leave the live range
      size, other.size := other.size, size;
    }
  }

  /** std::swap of the first n slots of two arrays, pairwise; when a and b
      are the same array every slot is swapped with itself. */
  method SwapPrefix<T>(a: array<T>, b: array<T>, n: nat)
    requires n <= a.Length && n <= b.Length
    modifies a, b
    ensures a[..n] == old(b[..n]) && b[..n] == old(a[..n])
    ensures a[n..] == old(a[n..]) && b[n..] == old(b[n..])
  {
    var i := 0;
    while i < n
      invariant i <= n
      invariant a[..i] == old(b[..i]) && b[..i] == old(a[..i])
      invariant a[i..] == old(a[i..]) && b[i..] == old(b[i..])
    {
      a[i], b[i] := b[i], a[i];
      i := i + 1;
    }
  }

  /** mpc::uninitialized_move of src[from .. to] into the same slots of dst. */
  method MoveRange<T>(src: array<T>, dst: array<T>, from: nat, to: nat)
    requires src != dst && from <= to <= src.Length && to <= dst.Length
    modifies dst
    ensures dst[..from] == old(dst[..from]) && dst[from..to] == src[from..to]
  {
    var k := from;
    while k < to
      invariant from <= k <= to
      invariant dst[..from] == old(dst[..from]) && dst[from..k] == src[from..k]
    {
      dst[k] := src[k];
      k := k + 1;
    }
  }

  /** The fill loop of resize: copy-construct val into slots from .. to. */
  method FillRange<T>(a: array<T>, from: nat, to: nat, val: T)
    requires from <= to <= a.Length
    modifies a
    ensures a[..from] == old(a[..from]) && a[from..to] == Fill(val, to - from)
  {
    var k := from;
    while k < to
      invariant from <= k <= to
      invariant a[..from] == old(a[..from]) && a[from..k] == Fill(val, k - from)
    {
      a[k] := val;
      k := k + 1;
    }
  }

  /** The element shifting of insert_impl on the active storage `a` holding
      `n` live elements: move-construct slot n from slot n - 1, move
      [offset, n - 1) one slot up from the back (std::move_backward), then
      assign `v` to slot offset. */
  method InsertInto<T>(a: array<T>, n: nat, offset: nat, v: T)
    requires offset <= n < a.Length
    modifies a
    ensures a[..n + 1] == Inserted(old(a[..n]), offset, v)
  {
    ghost var s := a[..n];
    if n > 0 {
      a[n] := a[n - 1];
      var k := n - 1;
      while k > offset
        invariant offset <= k + 1 && k < n
        invariant offset <= k || k == n - 1
        invariant forall j :: 0 <= j <= k ==> a[j] == s[j]
        invariant forall j :: k < j <= n ==> a[j] == s[j - 1]
      {
        a[k] := a[k - 1];
        k := k - 1;
      }
    }
    a[offset] := v;
    assert a[..n + 1] == Inserted(s, offset, v);
  }

  /** The element shifting of erase on the active storage `a` holding `n`
      live elements: move [last, n) down onto [first, ...) (std::move). */
  method EraseFrom<T>(a: array<T>, n: nat, first: nat, last: nat)
    requires first <= last <= n <= a.Length
    modifies a
    ensures a[..n - (last - first)] == Erased(old(a[..n]), first, last)
  {
    ghost var s := a[..n];
    var gap := last - first;
    var i := last;
    while i < n
      invariant last <= i <= n
      invariant forall j :: 0 <= j < first ==> a[j] == s[j]
      invariant forall j :: first <= j < i - gap ==> a[j] == s[j + gap]
      invariant forall j :: i <= j < n ==> a[j] == s[j]
    {
      a[i - gap] := a[i];
      i := i + 1;
    }
    assert a[..n - gap] == Erased(s, first, last);
  }

  /** The free swap(avec, bvec): the member swap. */
  method Swap<T(0)>(a: SmallVector<T>, b: SmallVector<T>)
    requires a.Valid() && b.Valid() && a.N == b.N
    requires a == b || a.Disjoint(b)
    modifies a, a.buf, a.heap, b, b.buf, b.heap
    ensures a.Valid() && b.Valid() && (a != b ==> a.Disjoint(b))
    ensures a.Elems() == old(b.Elems()) && b.Elems() == old(a.Elems())
    ensures a.alloc == old(b.alloc) && b.alloc == old(a.alloc)
  {
    a.Swap(b);
  }
}
