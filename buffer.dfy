// `clear_array`: zero the first `size` bytes of a buffer, in place.
module Buffer {
  import opened CTypes

  /** Sets a[0..size) to 0 and leaves the rest of `a` alone. The counter is
      a byte, as in the source; it never wraps because it stops at
      `size` <= 255. */
  method ClearArray(a: array<byte>, size: byte)
    requires size as int <= a.Length
    modifies a
    ensures forall k :: 0 <= k < size as int ==> a[k] == 0
    ensures forall k :: size as int <= k < a.Length ==> a[k] == old(a[k])
  {
    var i: byte := 0;
    while i < size
      invariant i <= size
      invariant forall k :: 0 <= k < i as int ==> a[k] == 0
      invariant forall k :: i as int <= k < a.Length ==> a[k] == old(a[k])
    {
      a[i as int] := 0;
      i := i + 1;
    }
  }
}
