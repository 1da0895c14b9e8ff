/** Filling and copying stretches of memory. */
module Memory {
  import opened Bytes

  /** memset over a range of the memory. */
  method Set(a: array<byte>, at: nat, b: byte, n: nat)
    requires at + n <= a.Length
    modifies a
    ensures a[..] == Splice(old(a[..]), at, Fill(b, n))
  {
    forall i | at <= i < at + n { a[i] := b; }
  }

  /** memmove of foreign bytes into the memory. */
  method Put(a: array<byte>, at: nat, data: seq<byte>)
    requires at + |data| <= a.Length
    modifies a
    ensures a[..] == Splice(old(a[..]), at, data)
  {
    forall i | 0 <= i < |data| { a[at + i] := data[i]; }
  }

  /** memcpy of a whole buffer. */
  method Overwrite(a: array<byte>, data: seq<byte>)
    requires |data| == a.Length
    modifies a
    ensures a[..] == data
  {
    forall i | 0 <= i < |data| { a[i] := data[i]; }
  }

  /** Combines the first `n` bytes with one byte by exclusive or. */
  method XorByte(a: array<byte>, n: nat, b: byte)
    requires n <= a.Length
    modifies a
    ensures a[..n] == XorAll(old(a[..n]), b)
    ensures a[n..] == old(a[n..])
  {
    for i := 0 to n
      invariant forall j :: 0 <= j < i ==> a[j] == Xor(old(a[j]), b)
      invariant forall j :: i <= j < a.Length ==> a[j] == old(a[j])
    {
      a[i] := Xor(a[i], b);
    }
  }

  /** Combines the first bytes with others by exclusive or. */
  method XorInto(a: array<byte>, data: seq<byte>)
    requires |data| <= a.Length
    modifies a
    ensures a[..] == XorFront(old(a[..]), data)
  {
    for i := 0 to |data|
      invariant forall j :: 0 <= j < a.Length ==> a[j] == if j < i then Xor(old(a[j]), data[j]) else old(a[j])
    {
      a[i] := Xor(a[i], data[i]);
    }
  }
}
