/** The three byte-array primitives the engines use on their buffers:
    memcpy into a buffer at an offset, memset to zero, and memmove of a
    tail to the front. */
module Mem {
  import opened CpioTypes

  /** memcpy(buf + at, data, |data|). */
  method CopyIn(buf: array<byte>, at: nat, data: seq<byte>)
    requires at + |data| <= buf.Length
    modifies buf
    ensures buf[..at] == old(buf[..at])
    ensures buf[at..at + |data|] == data
    ensures buf[at + |data|..] == old(buf[at + |data|..])
  {
    var i := 0;
    while i < |data|
      invariant 0 <= i <= |data|
      invariant forall j :: 0 <= j < at ==> buf[j] == old(buf[j])
      invariant forall j :: 0 <= j < i ==> buf[at + j] == data[j]
      invariant forall j :: at + i <= j < buf.Length ==> buf[j] == old(buf[j])
    {
      buf[at + i] := data[i];
      i := i + 1;
    }
  }

  /** memset(buf + from, 0, buf.Length - from). */
  method ZeroFrom(buf: array<byte>, from: nat)
    requires from <= buf.Length
    modifies buf
    ensures buf[..from] == old(buf[..from])
    ensures buf[from..] == Zeros(buf.Length - from)
  {
    var i := from;
    while i < buf.Length
      invariant from <= i <= buf.Length
      invariant forall j :: 0 <= j < from ==> buf[j] == old(buf[j])
      invariant forall j :: from <= j < i ==> buf[j] == 0
    {
      buf[i] := 0;
      i := i + 1;
    }
  }

  /** memmove(buf, buf + k, len - k): drops the first `k` of the `len`
      buffered bytes. */
  method Discard(buf: array<byte>, len: nat, k: nat)
    requires k <= len <= buf.Length
    modifies buf
    ensures buf[..len - k] == old(buf[k..len])
  {
    var i := 0;
    while i < len - k
      invariant 0 <= i <= len - k
      invariant forall j :: 0 <= j < i ==> buf[j] == old(buf[j + k])
      invariant forall j :: i <= j < buf.Length ==> buf[j] == old(buf[j])
    {
      buf[i] := buf[i + k];
      i := i + 1;
    }
  }
}
