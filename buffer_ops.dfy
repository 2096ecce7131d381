/** The element loops SimpleVector runs on its buffer: std::fill and std::generate
    over a range, std::copy of a prefix into a fresh buffer, and the overlapping
    one-place shifts that Insert (std::copy_backward) and Erase (std::copy) perform. */
module BufferOps {

  /** std::fill(a + from, a + to, v), and std::generate with a generator that
      always yields v. */
  method Fill<T>(a: array<T>, from: nat, to: nat, v: T)
    requires from <= to <= a.Length
    modifies a
    ensures forall k :: from <= k < to ==> a[k] == v
    ensures forall k :: 0 <= k < a.Length && !(from <= k < to) ==> a[k] == old(a[k])
  {
    var i := from;
    while i < to
      invariant from <= i <= to
      invariant forall k :: from <= k < i ==> a[k] == v
      invariant forall k :: 0 <= k < a.Length && !(from <= k < i) ==> a[k] == old(a[k])
    {
      a[i] := v;
      i := i + 1;
    }
  }

  /** std::copy(src, src + n, dst) between two different buffers. */
  method CopyPrefix<T>(src: array<T>, dst: array<T>, n: nat)
    requires n <= src.Length && n <= dst.Length && src != dst
    modifies dst
    ensures dst[..n] == src[..n]
    ensures forall k :: n <= k < dst.Length ==> dst[k] == old(dst[k])
  {
    var i := 0;
    while i < n
      invariant 0 <= i <= n
      invariant forall k :: 0 <= k < i ==> dst[k] == src[k]
      invariant forall k :: i <= k < dst.Length ==> dst[k] == old(dst[k])
    {
      dst[i] := src[i];
      i := i + 1;
    }
  }

  /** std::copy_backward(a + lo, a + hi, a + hi + 1): every element of [lo, hi)
      moves one place up, walking down from the top so that nothing is
      overwritten before it has moved; slot lo keeps its old value. */
  method ShiftRight<T>(a: array<T>, lo: nat, hi: nat)
    requires lo <= hi < a.Length
    modifies a
    ensures forall k :: lo < k <= hi ==> a[k] == old(a[k - 1])
    ensures forall k :: 0 <= k < a.Length && !(lo < k <= hi) ==> a[k] == old(a[k])
  {
    var i := hi;
    while i > lo
      invariant lo <= i <= hi
      invariant forall k :: i < k <= hi ==> a[k] == old(a[k - 1])
      invariant forall k :: 0 <= k < a.Length && !(i < k <= hi) ==> a[k] == old(a[k])
    {
      a[i] := a[i - 1];
      i := i - 1;
    }
  }

  /** The shift of (lo, hi) one place down is defined: the source range
      [lo + 1, hi) is a range inside the buffer. */
  predicate CanShiftLeft<T>(a: array<T>, lo: nat, hi: nat) {
    lo < hi <= a.Length
  }

  /** std::copy(a + lo + 1, a + hi, a + lo): every element of (lo, hi) moves one
      place down, walking up so that nothing is overwritten before it has moved;
      slot hi - 1 keeps its old value. */
  method ShiftLeft<T>(a: array<T>, lo: nat, hi: nat)
    requires CanShiftLeft(a, lo, hi)
    modifies a
    ensures forall k :: lo <= k < hi - 1 ==> a[k] == old(a[k + 1])
    ensures forall k :: 0 <= k < a.Length && !(lo <= k < hi - 1) ==> a[k] == old(a[k])
  {
    var i := lo;
    while i < hi - 1
      invariant lo <= i <= hi - 1
      invariant forall k :: lo <= k < i ==> a[k] == old(a[k + 1])
      invariant forall k :: 0 <= k < a.Length && !(lo <= k < i) ==> a[k] == old(a[k])
    {
      a[i] := a[i + 1];
      i := i + 1;
    }
  }
}
