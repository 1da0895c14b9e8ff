/** Bytes, fixed-width limits, big-endian numbers and bitwise operators shared by every component. */
module Bytes {

  type byte = x: int | 0 <= x < 256

  const MAX_U32 := 0xFFFF_FFFF
  const MAX_U64 := 0xFFFF_FFFF_FFFF_FFFF

  datatype Option<+T> = None | Some(value: T)

  function Min(a: nat, b: nat): nat { if a <= b then a else b }

  function Max(a: nat, b: nat): nat { if a >= b then a else b }

  /** `n` copies of one byte. */
  function Fill(b: byte, n: nat): (s: seq<byte>)
    ensures |s| == n
    ensures forall i :: 0 <= i < n ==> s[i] == b
  {
    seq(n, _ => b)
  }

  /** The ASCII bytes of a string literal. */
  function Ascii(s: string): (r: seq<byte>)
    requires forall i :: 0 <= i < |s| ==> s[i] as int < 128
    ensures |r| == |s|
    ensures forall i :: 0 <= i < |s| ==> r[i] == s[i] as int
  {
    seq(|s|, i requires 0 <= i < |s| => s[i] as int)
  }

  /** `s` with `t` written over it from offset `at`. */
  function Splice(s: seq<byte>, at: nat, t: seq<byte>): (r: seq<byte>)
    requires at + |t| <= |s|
    ensures |r| == |s|
    ensures forall i :: 0 <= i < |s| ==> r[i] == if at <= i < at + |t| then t[i - at] else s[i]
  {
    seq(|s|, i requires 0 <= i < |s| => if at <= i < at + |t| then t[i - at] else s[i])
  }

  /** Two adjoining writes are one. */
  lemma SpliceTwice(s: seq<byte>, at: nat, t: seq<byte>, u: seq<byte>)
    requires at + |t| + |u| <= |s|
    ensures Splice(Splice(s, at, t), at + |t|, u) == Splice(s, at, t + u)
  {
  }

  function Concat(parts: seq<seq<byte>>): seq<byte> {
    if parts == [] then [] else parts[0] + Concat(parts[1..])
  }

  lemma {:induction false} ConcatSnoc(parts: seq<seq<byte>>, last: seq<byte>)
    ensures Concat(parts + [last]) == Concat(parts) + last
  {
    if parts == [] {
      assert (parts + [last])[1..] == [];
    } else {
      assert (parts + [last])[1..] == parts[1..] + [last];
      ConcatSnoc(parts[1..], last);
    }
  }

  // ---------------------------------------------------------------- big-endian numbers

  function Pow256(n: nat): (p: nat)
    ensures p > 0
  {
    if n == 0 then 1 else 256 * Pow256(n - 1)
  }

  /** The big-endian value of a byte string. */
  function Val(s: seq<byte>): nat {
    if s == [] then 0 else Val(s[..|s| - 1]) * 256 + s[|s| - 1]
  }

  /** The low `n` bytes of `v`, most significant first. */
  function BE(v: nat, n: nat): (s: seq<byte>)
    ensures |s| == n
  {
    if n == 0 then [] else BE(v / 256, n - 1) + [v % 256]
  }

  lemma {:induction false} ValBound(s: seq<byte>)
    ensures Val(s) < Pow256(|s|)
  {
    if s != [] { ValBound(s[..|s| - 1]); }
  }

  lemma {:induction false} BEVal(s: seq<byte>)
    ensures BE(Val(s), |s|) == s
  {
    if s != [] {
      BEVal(s[..|s| - 1]);
      assert s == s[..|s| - 1] + [s[|s| - 1]];
    }
  }

  lemma {:induction false} ValBE(v: nat, n: nat)
    requires v < Pow256(n)
    ensures Val(BE(v, n)) == v
  {
    if n != 0 { ValBE(v / 256, n - 1); }
  }

  lemma BEInjective(v: nat, w: nat, n: nat)
    requires v < Pow256(n) && w < Pow256(n)
    requires BE(v, n) == BE(w, n)
    ensures v == w
  {
    ValBE(v, n);
    ValBE(w, n);
  }

  /** The low byte of `v` shifted right by `k` bytes. */
  function ShiftedByte(v: nat, k: nat): byte {
    v / Pow256(k) % 256
  }

  /** Byte `i` of the big-endian form is `v` shifted right by the bytes below it. */
  lemma {:induction false} BEAt(v: nat, n: nat, i: nat)
    requires i < n
    ensures BE(v, n)[i] == ShiftedByte(v, n - i - 1)
  {
    if i < n - 1 {
      BEAt(v / 256, n - 1, i);
      DivDiv(v, Pow256(n - 1 - i - 1));
    }
  }

  lemma DivDiv(v: nat, p: nat)
    requires p > 0
    ensures v / 256 / p == v / (256 * p)
  {
    var q := v / (256 * p);
    var r := v % (256 * p);
    assert v == q * (256 * p) + r;
    assert v == (q * p) * 256 + r;
    assert v / 256 == q * p + r / 256;
    assert r / 256 < p;
    DivUnique(q * p + r / 256, p, q, r / 256);
  }

  lemma DivUnique(a: nat, p: nat, q: nat, r: nat)
    requires r < p && a == q * p + r
    ensures a / p == q
  {
    var d := a / p - q;
    assert d * p == r - a % p;
    assert d >= 1 ==> d * p >= p;
    assert d <= -1 ==> d * p + p <= 0;
  }

  lemma Pow256Values()
    ensures Pow256(1) == 0x100 && Pow256(2) == 0x1_0000 && Pow256(3) == 0x100_0000
    ensures Pow256(4) == 0x1_0000_0000 && Pow256(8) == 0x1_0000_0000_0000_0000
  {
    assert Pow256(4) == 256 * 256 * 256 * 256;
    assert Pow256(8) == 256 * 256 * 256 * 256 * Pow256(4);
  }

  // ---------------------------------------------------------------- bitwise operators

  function Pow2(n: nat): (p: nat)
    ensures p > 0
  {
    if n == 0 then 1 else 2 * Pow2(n - 1)
  }

  function BitXor(a: nat, b: nat): nat { if a % 2 == b % 2 then 0 else 1 }

  /** Exclusive or of the low `n` bits. */
  function XorBits(a: nat, b: nat, n: nat): nat {
    if n == 0 then 0 else 2 * XorBits(a / 2, b / 2, n - 1) + BitXor(a, b)
  }

  lemma XorBitsUnfold(a: nat, b: nat, n: nat, h: nat)
    requires n > 0 && h == XorBits(a / 2, b / 2, n - 1)
    ensures XorBits(a, b, n) == 2 * h + BitXor(a, b)
  {
  }

  lemma Halve(x: nat, bit: nat)
    requires bit < 2
    ensures (2 * x + bit) / 2 == x && (2 * x + bit) % 2 == bit
  {
  }

  lemma BitXorAssociative(a: nat, b: nat, c: nat)
    ensures BitXor(BitXor(a, b), c) == BitXor(a, BitXor(b, c))
  {
  }

  lemma {:induction false} XorBitsAssociative(a: nat, b: nat, c: nat, n: nat)
    ensures XorBits(XorBits(a, b, n), c, n) == XorBits(a, XorBits(b, c, n), n)
  {
    if n > 0 {
      var x, y := XorBits(a / 2, b / 2, n - 1), XorBits(b / 2, c / 2, n - 1);
      Halve(x, BitXor(a, b));
      Halve(y, BitXor(b, c));
      XorBitsAssociative(a / 2, b / 2, c / 2, n - 1);
      XorBitsUnfold(a, b, n, x);
      XorBitsUnfold(b, c, n, y);
      XorBitsUnfold(2 * x + BitXor(a, b), c, n, XorBits(x, c / 2, n - 1));
      XorBitsUnfold(a, 2 * y + BitXor(b, c), n, XorBits(a / 2, y, n - 1));
      BitXorAssociative(a, b, c);
    }
  }

  lemma {:induction false} XorBitsBasics(a: nat, b: nat, n: nat)
    ensures XorBits(a, b, n) == XorBits(b, a, n) < Pow2(n)
    ensures XorBits(a, a, n) == 0
    ensures a < Pow2(n) ==> XorBits(a, 0, n) == a
  {
    if n > 0 { XorBitsBasics(a / 2, b / 2, n - 1); }
  }

  function Xor(a: byte, b: byte): byte {
    XorBitsBasics(a, b, 8);
    assert Pow2(8) == 256;
    XorBits(a, b, 8)
  }

  /** Xor is associative, commutative and its own inverse. */
  lemma XorLaws(a: byte, b: byte, c: byte)
    ensures Xor(Xor(a, b), c) == Xor(a, Xor(b, c))
    ensures Xor(a, b) == Xor(b, a)
    ensures Xor(a, 0) == a
    ensures Xor(Xor(a, b), b) == a && Xor(b, Xor(b, a)) == a
  {
    assert Pow2(8) == 256;
    XorBitsAssociative(a, b, c, 8);
    XorBitsAssociative(a, b, b, 8);
    XorBitsBasics(a, b, 8);
    XorBitsBasics(b, Xor(a, b), 8);
  }

  /** Byte strings of equal length combined byte by byte. */
  function XorSeq(s: seq<byte>, t: seq<byte>): (r: seq<byte>)
    requires |s| == |t|
    ensures |r| == |s|
    ensures forall i :: 0 <= i < |s| ==> r[i] == Xor(s[i], t[i])
  {
    seq(|s|, i requires 0 <= i < |s| => Xor(s[i], t[i]))
  }

  lemma XorSeqCancels(s: seq<byte>, t: seq<byte>)
    requires |s| == |t|
    ensures XorSeq(XorSeq(s, t), t) == s
    ensures XorSeq(t, XorSeq(t, s)) == s
  {
    forall i | 0 <= i < |s|
      ensures Xor(Xor(s[i], t[i]), t[i]) == s[i] && Xor(t[i], Xor(t[i], s[i])) == s[i]
    {
      XorLaws(s[i], t[i], t[i]);
    }
  }

  /** The first bytes of `s` combined with those of `t`. */
  function XorFront(s: seq<byte>, t: seq<byte>): (r: seq<byte>)
    requires |t| <= |s|
    ensures |r| == |s|
    ensures forall i :: 0 <= i < |s| ==> r[i] == if i < |t| then Xor(s[i], t[i]) else s[i]
    ensures |t| == |s| ==> r == XorSeq(s, t)
  {
    XorSeq(s[..|t|], t) + s[|t|..]
  }

  /** Every byte combined with the same byte. */
  function XorAll(s: seq<byte>, b: byte): (r: seq<byte>)
    ensures |r| == |s|
    ensures forall i :: 0 <= i < |s| ==> r[i] == Xor(s[i], b)
  {
    seq(|s|, i requires 0 <= i < |s| => Xor(s[i], b))
  }

  lemma XorAllTwice(s: seq<byte>, b: byte, c: byte)
    ensures XorAll(XorAll(s, b), c) == XorAll(s, Xor(b, c))
  {
    forall i | 0 <= i < |s|
      ensures Xor(Xor(s[i], b), c) == Xor(s[i], Xor(b, c))
    {
      XorLaws(s[i], b, c);
    }
  }

  /** Bitwise and. */
  function AndBits(a: nat, b: nat): nat {
    if a == 0 || b == 0 then 0
    else 2 * AndBits(a / 2, b / 2) + (if a % 2 == 1 && b % 2 == 1 then 1 else 0)
  }

  /** Masking with one less than a power of two is the remainder by it. */
  lemma {:induction false} MaskIsRemainder(a: nat, n: nat)
    ensures AndBits(a, Pow2(n) - 1) == a % Pow2(n)
  {
    if a != 0 && n != 0 {
      MaskIsRemainder(a / 2, n - 1);
      var p := Pow2(n - 1);
      assert (2 * p - 1) / 2 == p - 1 && (2 * p - 1) % 2 == 1;
      HalfRemainder(a, p);
    }
  }

  lemma HalfRemainder(a: nat, p: nat)
    requires p > 0
    ensures a % (2 * p) == 2 * (a / 2 % p) + a % 2
  {
    var q := a / 2 / p;
    assert a / 2 == q * p + a / 2 % p;
    assert a == q * (2 * p) + 2 * (a / 2 % p) + a % 2;
    DivUnique(a, 2 * p, q, 2 * (a / 2 % p) + a % 2);
    assert a == (a / (2 * p)) * (2 * p) + a % (2 * p);
  }
}
