/** Counting in big-endian byte strings, in place and with carry. */
module Counters {
  import opened Bytes

  /** The next byte string: one more, from all ones back to zero. */
  function Successor(s: seq<byte>): (r: seq<byte>)
    ensures |r| == |s|
  {
    if s == [] then []
    else
      var front, last := s[..|s| - 1], s[|s| - 1];
      if last == 255 then Successor(front) + [0] else front + [last + 1]
  }

  predicate AllOnes(s: seq<byte>) { forall i :: 0 <= i < |s| ==> s[i] == 255 }

  lemma {:induction false} AllOnesVal(s: seq<byte>)
    ensures AllOnes(s) <==> Val(s) == Pow256(|s|) - 1
  {
    if s != [] {
      var front := s[..|s| - 1];
      AllOnesVal(front);
      ValBound(front);
      assert s == front + [s[|s| - 1]];
    }
  }

  lemma {:induction false} SuccessorVal(s: seq<byte>)
    ensures Val(Successor(s)) == if Val(s) + 1 == Pow256(|s|) then 0 else Val(s) + 1
  {
    if s != [] {
      var front, last := s[..|s| - 1], s[|s| - 1];
      SuccessorVal(front);
      ValBound(front);
      if last == 255 {
        assert Successor(s)[..|s| - 1] == Successor(front);
      } else {
        assert Successor(s)[..|s| - 1] == front;
      }
    }
  }

  /** It is addition of one modulo the size of the counter. */
  lemma SuccessorAddsOne(s: seq<byte>)
    ensures Val(Successor(s)) == (Val(s) + 1) % Pow256(|s|)
  {
    SuccessorVal(s);
    ValBound(s);
    hide Val, Successor, Pow256;
    Wrapped(Val(s) + 1, Pow256(|s|));
  }

  lemma Wrapped(x: nat, p: nat)
    requires 0 < p && x <= p
    ensures x % p == if x == p then 0 else x
  {
  }

  lemma OneMoreZero(s: seq<byte>, n: nat)
    ensures (s + [0]) + Fill(0, n) == s + Fill(0, n + 1)
  {
  }

  /** A carry goes on from the bytes above. */
  lemma CarriedOn(s: seq<byte>, i: nat)
    requires 0 < i <= |s| && s[i - 1] == 255
    requires Successor(s) == Successor(s[..i]) + Fill(0, |s| - i)
    ensures Successor(s) == Successor(s[..i - 1]) + Fill(0, |s| - i + 1)
  {
    var t := s[..i];
    assert t[..i - 1] == s[..i - 1];
    assert Successor(t) == Successor(t[..i - 1]) + [0];
    hide Successor;
    OneMoreZero(Successor(t[..i - 1]), |s| - i);
  }

  lemma CarryStops(s: seq<byte>, i: nat)
    requires 0 < i <= |s| && s[i - 1] < 255
    requires Successor(s) == Successor(s[..i]) + Fill(0, |s| - i)
    ensures Successor(s) == s[..i - 1] + [s[i - 1] + 1] + Fill(0, |s| - i)
  {
    assert s[..i][..i - 1] == s[..i - 1];
  }

  /** Adds one in place; `wrapped` tells that the carry went past the first byte. */
  method Increment(a: array<byte>) returns (wrapped: bool)
    modifies a
    ensures a[..] == Successor(old(a[..]))
    ensures wrapped == AllOnes(old(a[..]))
  {
    ghost var was := a[..];
    var i := a.Length;
    wrapped := true;
    assert was[..i] == was;
    while i > 0
      invariant i <= a.Length
      invariant a[..] == was[..i] + Fill(0, a.Length - i)
      invariant Successor(was) == Successor(was[..i]) + Fill(0, a.Length - i)
      invariant forall j :: i <= j < a.Length ==> was[j] == 255
    {
      var last: int := a[i - 1];
      a[i - 1] := (last + 1) % 256;
      if a[i - 1] != 0 {
        CarryStops(was, i);
        return false;
      }
      CarriedOn(was, i);
      i := i - 1;
    }
    assert was[..0] == [];
  }
}
