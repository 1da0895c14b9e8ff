/** Record sequence numbers and the additional data made from them. */
module Sequence {
  import opened Bytes
  import opened Counters

  const SEQUENCE_LEN: nat := 8
  const MAX_AAD_LEN: nat := 13

  /** The next sequence number; none after the last one. */
  function Next(s: seq<byte>): Option<seq<byte>> {
    if s != [] && AllOnes(s) then None else Some(Successor(s))
  }

  /** The sequence number after `n` increments that all succeed. */
  function After(s: seq<byte>, n: nat): (r: Option<seq<byte>>)
    ensures r.Some? ==> |r.value| == |s|
  {
    if n == 0 then Some(s)
    else match After(s, n - 1)
      case None => None
      case Some(t) => Next(t)
  }

  /** The carry loop; on failure the number has gone round to zero. */
  method IncrementSequenceNumber(a: array<byte>) returns (ok: bool)
    modifies a
    ensures a[..] == Successor(old(a[..]))
    ensures ok <==> Next(old(a[..])).Some?
  {
    var wrapped := Increment(a);
    ok := !wrapped || a.Length == 0;
  }

  /** Increments count: they succeed exactly as long as the value fits. */
  lemma {:induction false} AfterCounts(s: seq<byte>, n: nat)
    requires s != []
    ensures After(s, n).Some? <==> Val(s) + n < Pow256(|s|)
    ensures After(s, n).Some? ==> Val(After(s, n).value) == Val(s) + n
  {
    ValBound(s);
    if n > 0 {
      AfterCounts(s, n - 1);
      if After(s, n - 1).Some? {
        var t := After(s, n - 1).value;
        AllOnesVal(t);
        SuccessorVal(t);
      }
    }
  }

  lemma {:induction false} ValCons(s: seq<byte>)
    requires s != []
    ensures Val(s) == s[0] * Pow256(|s| - 1) + Val(s[1..])
  {
    if |s| == 1 {
      assert s[..0] == [] && s[1..] == [];
    } else {
      var front := s[..|s| - 1];
      ValCons(front);
      assert s[1..][..|s| - 2] == front[1..];
      var p := Pow256(|s| - 2);
      assert (s[0] * p) * 256 == s[0] * (256 * p);
    }
  }

  lemma {:induction false} ShiftIsPower(k: nat)
    ensures Pow2(8 * k) == Pow256(k)
  {
    if k > 0 {
      ShiftIsPower(k - 1);
      var n := 8 * k - 8;
      assert Pow2(n + 2) == 4 * Pow2(n) && Pow2(n + 4) == 4 * Pow2(n + 2);
      assert Pow2(n + 6) == 4 * Pow2(n + 4) && Pow2(n + 8) == 4 * Pow2(n + 6);
    }
  }

  /** Shifts and adds the bytes from the last to the first. */
  method SequenceNumberToUint64(s: seq<byte>) returns (v: nat)
    requires |s| <= 8
    ensures v == Val(s) <= MAX_U64
  {
    var shift, i := 0, |s|;
    v := 0;
    assert s[|s|..] == [];
    while i > 0
      invariant 0 <= i <= |s| && shift == 8 * (|s| - i) && v == Val(s[i..])
    {
      ghost var t := s[i - 1..];
      ValCons(t);
      assert t[1..] == s[i..];
      ShiftIsPower(|s| - i);
      v := v + s[i - 1] * Pow2(shift);
      shift := shift + 8;
      i := i - 1;
    }
    assert s[0..] == s;
    ValBound(s);
    Pow256Grows(|s|, 8);
    Pow256Values();
  }

  lemma {:induction false} Pow256Grows(m: nat, n: nat)
    requires m <= n
    ensures Pow256(m) <= Pow256(n)
  {
    if m < n { Pow256Grows(m, n - 1); }
  }

  // ---------------------------------------------------------------- additional data

  /** The additional data of section 6.2.3.3 of RFC 5246. */
  function Aad(number: seq<byte>, kind: byte, version: byte, length: nat): seq<byte>
    requires length < 0x1_0000
  {
    number + [kind] + [version / 10, version % 10] + BE(length, 2)
  }

  method AadInit(version: byte, number: seq<byte>, kind: byte, length: nat, ad: array<byte>) returns (ok: bool)
    requires |number| >= SEQUENCE_LEN && length < 0x1_0000
    modifies ad
    ensures ok <==> ad.Length >= MAX_AAD_LEN
    ensures ok ==> ad[..] == Splice(old(ad[..]), 0, Aad(number[..SEQUENCE_LEN], kind, version, length))
    ensures !ok ==> ad[..] == old(ad[..])
  {
    if ad.Length < MAX_AAD_LEN { return false; }
    var idx := 0;
    while idx < SEQUENCE_LEN
      invariant 0 <= idx <= SEQUENCE_LEN
      invariant forall i :: 0 <= i < ad.Length ==> ad[i] == if i < idx then number[i] else old(ad[i])
    {
      ad[idx] := number[idx];
      idx := idx + 1;
    }
    ad[idx] := kind;
    ad[idx + 1] := version / 10;
    ad[idx + 2] := version % 10;
    ad[idx + 3] := length / 256;
    ad[idx + 4] := length % 256;
    assert BE(length, 2) == [length / 256, length % 256] by { TwoBytes(length); }
    return true;
  }

  lemma TwoBytes(v: nat)
    requires v < 0x1_0000
    ensures BE(v, 2) == [v / 256, v % 256]
  {
    assert BE(v / 256, 1) == BE(v / 256 / 256, 0) + [v / 256 % 256];
  }

  /** The thirteen bytes in their places: number, type, version, length. */
  lemma AadBytes(number: seq<byte>, kind: byte, version: byte, length: nat)
    requires |number| == 8 && length < 0x1_0000
    ensures var a := Aad(number, kind, version, length);
            && |a| == 13 && a[..8] == number && a[8] == kind && a[9] == version / 10 && a[10] == version % 10
            && a[11] == length / 256 && a[12] == length % 256
  {
    TwoBytes(length);
    hide BE;
  }

  /** Different records have different additional data. */
  lemma AadInjective(s: seq<byte>, k: byte, v: byte, n: nat, s': seq<byte>, k': byte, v': byte, n': nat)
    requires |s| == |s'| && n < 0x1_0000 && n' < 0x1_0000
    requires Aad(s, k, v, n) == Aad(s', k', v', n')
    ensures s == s' && k == k' && v == v' && n == n'
  {
    var a, a' := Aad(s, k, v, n), Aad(s', k', v', n');
    hide BE;
    assert a[..|s|] == s && a'[..|s|] == s';
    assert a[|s|] == k && a'[|s|] == k';
    assert a[|s| + 1] == v / 10 && a[|s| + 2] == v % 10 && a'[|s| + 1] == v' / 10 && a'[|s| + 2] == v' % 10;
    assert a[|s| + 3..] == BE(n, 2) && a'[|s| + 3..] == BE(n', 2);
    Pow256Values();
    BEInjective(n, n', 2);
  }

  /** Along a run of increments no two records share their additional data, whatever else is in it. */
  lemma AadDistinctInRun(s: seq<byte>, i: nat, j: nat, k: byte, v: byte, n: nat, k': byte, v': byte, n': nat)
    requires |s| == SEQUENCE_LEN && i < j && After(s, j).Some? && n < 0x1_0000 && n' < 0x1_0000
    ensures After(s, i).Some?
    ensures Aad(After(s, i).value, k, v, n) != Aad(After(s, j).value, k', v', n')
  {
    AfterCounts(s, i);
    AfterCounts(s, j);
    var a, b := After(s, i).value, After(s, j).value;
    hide After, Val;
    if Aad(a, k, v, n) == Aad(b, k', v', n') {
      AadInjective(a, k, v, n, b, k', v', n');
      assert false;
    }
  }
}
