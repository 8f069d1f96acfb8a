/** The element sequences the mutating operations of small_vector produce,
    stated on plain sequences. */
module Sequences {

  /** `k` copies of `v`. */
  function Fill<T>(v: T, k: nat): (r: seq<T>)
    ensures |r| == k && forall j :: 0 <= j < k ==> r[j] == v
  {
    seq(k, _ => v)
  }

  /** `s` with `v` placed at position `i`, the elements from `i` on moved one up. */
  function Inserted<T>(s: seq<T>, i: nat, v: T): (r: seq<T>)
    requires i <= |s|
    ensures |r| == |s| + 1 && r[i] == v
    ensures forall j :: 0 <= j < i ==> r[j] == s[j]
    ensures forall j :: i < j < |r| ==> r[j] == s[j - 1]
  {
    s[..i] + [v] + s[i..]
  }

  /** `s` without the elements at positions first .. last - 1. */
  function Erased<T>(s: seq<T>, first: nat, last: nat): (r: seq<T>)
    requires first <= last <= |s|
    ensures |r| == |s| - (last - first)
    ensures forall j :: 0 <= j < first ==> r[j] == s[j]
    ensures forall j :: first <= j < |r| ==> r[j] == s[j + (last - first)]
  {
    s[..first] + s[last..]
  }

  /** `s` cut to length n, or padded to length n with copies of `v`. */
  function Resized<T>(s: seq<T>, n: nat, v: T): (r: seq<T>)
    ensures |r| == n
    ensures forall j :: 0 <= j < n && j < |s| ==> r[j] == s[j]
    ensures forall j :: |s| <= j < n ==> r[j] == v
  {
    if n <= |s| then s[..n] else s + Fill(v, n - |s|)
  }

  /** Inserting at the end is appending. */
  lemma InsertAtEnd<T>(s: seq<T>, v: T)
    ensures Inserted(s, |s|, v) == s + [v]
  {
  }

  /** Erasing the element just inserted gives back the original sequence. */
  lemma EraseUndoesInsert<T>(s: seq<T>, i: nat, v: T)
    requires i <= |s|
    ensures Erased(Inserted(s, i, v), i, i + 1) == s
  {
  }

  /** Erasing an empty range changes nothing; erasing everything leaves nothing. */
  lemma EraseEmptyAndFull<T>(s: seq<T>, i: nat)
    requires i <= |s|
    ensures Erased(s, i, i) == s
    ensures Erased(s, 0, |s|) == []
  {
  }

  /** Resizing is undone by resizing back to the original length after growing. */
  lemma ResizeGrowThenShrink<T>(s: seq<T>, n: nat, v: T)
    requires |s| <= n
    ensures Resized(Resized(s, n, v), |s|, v) == s
  {
  }

  /** A prefix assembled in two pieces: t agrees with s below k, and from k to
      m it agrees with u, which in turn agrees with s from k on. */
  lemma JoinSlices<T>(s: seq<T>, t: seq<T>, u: seq<T>, k: nat, m: nat)
    requires k <= m <= |s| == |u| && m <= |t|
    requires t[..k] == s[..k] && t[k..m] == u[k..m] && u[k..] == s[k..]
    ensures t[..m] == s[..m]
  {
    assert u[k..m] == u[k..][..m - k] == s[k..][..m - k] == s[k..m];
    assert t[..m] == t[..k] + t[k..m];
    assert s[..m] == s[..k] + s[k..m];
  }
}
