/**
 * Reallocation of a buffer, as `realloc` does it: the new buffer keeps the
 * cells the old one had (as far as they fit) and the cells added at the end
 * hold unspecified values.
 */
module Buffers {

  method Realloc<T(0)>(a: array<T>, n: nat) returns (b: array<T>)
    ensures fresh(b) && b.Length == n
    ensures forall t | 0 <= t < n && t < a.Length :: b[t] == a[t]
  {
    b := new T[n];
    forall t | 0 <= t < n && t < a.Length {
      b[t] := a[t];
    }
  }
}
