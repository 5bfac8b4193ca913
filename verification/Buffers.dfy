/**
 * Filling and copying parts of byte buffers: memset and memcpy.
 * The contracts give the whole buffer afterwards, so that callers can reason with sequences.
 */
module Buffers {
  method Copy<T>(dst: array<T>, at: nat, src: seq<T>)
    requires at + |src| <= dst.Length
    modifies dst
    ensures dst[..] == old(dst[..at]) + src + old(dst[at + |src|..])
  {
    for i := 0 to |src|
      invariant forall k :: 0 <= k < at ==> dst[k] == old(dst[k])
      invariant forall k :: 0 <= k < i ==> dst[at + k] == src[k]
      invariant forall k :: at + |src| <= k < dst.Length ==> dst[k] == old(dst[k])
    {
      dst[at + i] := src[i];
    }
  }

  method Fill<T>(dst: array<T>, at: nat, n: nat, x: T)
    requires at + n <= dst.Length
    modifies dst
    ensures dst[..at] == old(dst[..at])
    ensures forall k :: at <= k < at + n ==> dst[k] == x
    ensures dst[at + n..] == old(dst[at + n..])
  {
    for i := 0 to n
      invariant forall k :: 0 <= k < at ==> dst[k] == old(dst[k])
      invariant forall k :: at <= k < at + i ==> dst[k] == x
      invariant forall k :: at + n <= k < dst.Length ==> dst[k] == old(dst[k])
    {
      dst[at + i] := x;
    }
  }
}
