/** The growth policy of small_vector::ensure_capacity and a model of the
    capacities a run of push_back calls goes through. */
module Growth {

  /** LARGE_SIZE_THRESHOLD: above this capacity the growth factor drops from 2 to 1.5. */
  const LargeSizeThreshold: nat := 1024

  function Max(a: nat, b: nat): nat { if a >= b then a else b }

  /** The capacity suggested when the current capacity `cap` is too small:
      double up to the threshold, then half as much again, rounded down. */
  function GrowthSuggestion(cap: nat): (r: nat)
    ensures cap > 0 ==> cap < r <= 2 * cap
    ensures cap <= LargeSizeThreshold ==> r == 2 * cap
    ensures cap > LargeSizeThreshold ==> 3 * cap - 1 <= 2 * r <= 3 * cap
  {
    if cap > LargeSizeThreshold then cap + cap / 2 else cap * 2
  }

  /** The capacity ensure_capacity reserves when `req` exceeds `cap`: the
      suggestion, or the request itself when that is larger. */
  function GrownCapacity(cap: nat, req: nat): (r: nat)
    ensures r >= req && r >= cap
    ensures r == req || r == GrowthSuggestion(cap)
    ensures cap <= LargeSizeThreshold ==> r >= 2 * cap
    ensures cap > LargeSizeThreshold ==> 2 * r >= 3 * cap - 1
    ensures r <= Max(req, 2 * cap)
  {
    Max(GrowthSuggestion(cap), req)
  }

  /** The state a vector is in during a run of push_back calls: its capacity,
      its size and the number of elements reserve has relocated so far. */
  datatype PushState = PushState(cap: nat, size: nat, relocated: nat)

  /** An empty vector with inline capacity n. */
  function Start(n: nat): PushState { PushState(n, 0, 0) }

  /** One push_back: ensure_capacity(size + 1), which relocates all `size`
      elements into the grown block when the vector is full, then one more
      element. */
  function PushOnce(p: PushState): (q: PushState)
    requires p.size <= p.cap
    ensures q.size == p.size + 1 && q.size <= q.cap && q.cap >= p.cap
    ensures q.cap == p.cap <==> p.size < p.cap
  {
    if p.size + 1 <= p.cap then PushState(p.cap, p.size + 1, p.relocated)
    else PushState(GrownCapacity(p.cap, p.size + 1), p.size + 1, p.relocated + p.size)
  }

  /** k push_back calls in a row. */
  function PushMany(p: PushState, k: nat): (q: PushState)
    requires p.size <= p.cap
    ensures q.size == p.size + k && q.size <= q.cap && q.cap >= p.cap
    decreases k
  {
    if k == 0 then p else PushMany(PushOnce(p), k - 1)
  }

  /** k + 1 pushes are k pushes followed by one more. */
  lemma {:induction false} PushManyLast(p: PushState, k: nat)
    requires p.size <= p.cap
    ensures PushMany(p, k + 1) == PushOnce(PushMany(p, k))
    decreases k
  {
    if k > 0 {
      PushManyLast(PushOnce(p), k - 1);
    }
  }

  /** As long as the elements fit, pushing never changes the capacity and
      relocates nothing. */
  lemma {:induction false} PushesWithinCapacity(p: PushState, k: nat)
    requires p.size + k <= p.cap
    ensures PushMany(p, k) == PushState(p.cap, p.size + k, p.relocated)
    decreases k
  {
    if k > 0 {
      PushesWithinCapacity(PushOnce(p), k - 1);
    }
  }

  /** The first N pushes into an empty vector stay inline, and the push that
      exceeds N leaves the vector with a capacity larger than N, which later
      pushes never lower again. */
  lemma InlineUntilFull(n: nat, k: nat)
    ensures k <= n ==> PushMany(Start(n), k).cap == n
    ensures k > n ==> PushMany(Start(n), k).cap > n
  {
    if k <= n {
      PushesWithinCapacity(Start(n), k);
    }
  }

  /** The bookkeeping bound that makes push_back amortised constant time. */
  ghost predicate Amortised(p: PushState)
  {
    p.size <= p.cap && p.relocated <= 3 * p.cap && p.relocated <= 4 * p.size
  }

  lemma PushOnceAmortised(p: PushState)
    requires Amortised(p)
    ensures Amortised(PushOnce(p))
  {
    var q := PushOnce(p);
    if p.size == p.cap {
      var c := p.cap;
      assert q.relocated <= 4 * c;
      if c > LargeSizeThreshold {
        assert q.cap == c + c / 2;
        assert 3 * q.cap >= 4 * c;
      } else if c > 0 {
        assert q.cap == 2 * c;
      }
    }
  }

  lemma {:induction false} PushManyAmortised(p: PushState, k: nat)
    requires Amortised(p)
    ensures Amortised(PushMany(p, k))
    decreases k
  {
    if k > 0 {
      PushOnceAmortised(p);
      PushManyAmortised(PushOnce(p), k - 1);
    }
  }

  /** k pushes into an empty vector relocate at most 4k elements in all:
      push_back runs in amortised constant time. */
  lemma AmortisedPushes(n: nat, k: nat)
    ensures PushMany(Start(n), k).relocated <= 4 * k
  {
    PushManyAmortised(Start(n), k);
  }
}
