/** The streaming hash: a digest is a function of the bytes absorbed since the state was initialised. */
module Hash {
  import opened Bytes

  datatype HashAlg = NoHash | Md5 | Sha1 | Sha224 | Sha256 | Sha384 | Sha512 | Md5Sha1

  function DigestSize(a: HashAlg): (n: nat)
    ensures n <= 64
  {
    match a
    case NoHash => 0
    case Md5 => 16
    case Sha1 => 20
    case Sha224 => 28
    case Sha256 => 32
    case Sha384 => 48
    case Sha512 => 64
    case Md5Sha1 => 36
  }

  function BlockSize(a: HashAlg): (n: nat)
    ensures n == 64 || n == 128
    ensures DigestSize(a) <= n
  {
    if a == Sha384 || a == Sha512 then 128 else 64
  }

  /** The hash functions themselves: anything that yields digests of the right size. */
  type HashFn = h: (HashAlg, seq<byte>) -> seq<byte>
    | forall a, m :: |h(a, m)| == DigestSize(a)
    witness (a, m) => Fill(0, DigestSize(a))

  // ---------------------------------------------------------------- compression rounds

  /** The length field that ends a padded message, by section 5.1 of FIPS 180-4. */
  function LengthField(a: HashAlg): nat { if BlockSize(a) == 128 then 16 else 8 }

  /** The blocks of a message of `n` bytes once padded: a one bit, zeros and the length field follow it. */
  function PaddedBlocks(a: HashAlg, n: nat): nat {
    (n + 1 + LengthField(a) + BlockSize(a) - 1) / BlockSize(a)
  }

  /** Rounds already done when `n` bytes have been absorbed: one for each full block. */
  function AbsorbRounds(a: HashAlg, n: nat): nat { n / BlockSize(a) }

  /** Rounds that finalising adds. */
  function FinalRounds(a: HashAlg, n: nat): int { PaddedBlocks(a, n) - AbsorbRounds(a, n) }

  /** One round more than usual is needed when the padding does not fit behind the last bytes. */
  lemma FinalRoundsAre(a: HashAlg, n: nat)
    ensures FinalRounds(a, n) == if n % BlockSize(a) + 1 + LengthField(a) <= BlockSize(a) then 1 else 2
  {
    var b, r := BlockSize(a), n % BlockSize(a);
    var q := n / b;
    assert n == q * b + r;
    var x := r + 1 + LengthField(a) + b - 1;
    assert n + 1 + LengthField(a) + b - 1 == q * b + x;
    if x < 2 * b {
      DivUnique(q * b + x, b, q + 1, x - b);
    } else {
      DivUnique(q * b + x, b, q + 2, x - 2 * b);
    }
  }

  // ---------------------------------------------------------------- the state

  class HashState {
    const H: HashFn
    var alg: HashAlg
    var ready: bool
    var total: nat
    var absorbed: seq<byte>
    ghost var rounds: nat

    /** What holds between calls. */
    ghost predicate Valid()
      reads this
    {
      total <= MAX_U64 && (ready ==> total == |absorbed|)
    }

    constructor (h: HashFn)
      ensures H == h && Valid() && !ready
    {
      H, alg, ready, total, absorbed, rounds := h, NoHash, false, 0, [], 0;
    }

    method Init(a: HashAlg)
      modifies this
      ensures Valid() && alg == a && ready && absorbed == [] && rounds == old(rounds)
    {
      alg, ready, total, absorbed := a, true, 0, [];
    }

    method Update(data: seq<byte>) returns (ok: bool)
      requires Valid() && |data| <= MAX_U32
      modifies this
      ensures Valid() && alg == old(alg)
      ensures ok <==> old(ready) && old(total) + |data| <= MAX_U64
      ensures !ok ==> ready == old(ready) && total == old(total) && absorbed == old(absorbed) && rounds == old(rounds)
      ensures ok ==> ready && absorbed == old(absorbed) + data && total == |absorbed|
      ensures ok ==> rounds == old(rounds) + AbsorbRounds(alg, |absorbed|) - AbsorbRounds(alg, |old(absorbed)|)
    {
      if !ready { return false; }
      if |data| > MAX_U64 - total { return false; }
      RoundsGrow(alg, total, |data|);
      rounds := rounds + AbsorbRounds(alg, total + |data|) - AbsorbRounds(alg, total);
      total := total + |data|;
      absorbed := absorbed + data;
      return true;
    }

    /** Finalises; the state then refuses input until it is initialised, reset or copied to. */
    method Digest(size: nat) returns (ok: bool, out: seq<byte>)
      requires Valid()
      modifies this
      ensures Valid() && alg == old(alg) && !ready
      ensures ok <==> old(ready) && size == DigestSize(alg)
      ensures ok ==> out == H(alg, old(absorbed)) && rounds == old(rounds) + FinalRounds(alg, |old(absorbed)|)
    {
      if !ready { return false, []; }
      FinalRoundsAre(alg, |absorbed|);
      total, ready := 0, false;
      if size != DigestSize(alg) { return false, []; }
      rounds := rounds + FinalRounds(alg, |absorbed|);
      return true, H(alg, absorbed);
    }

    method CopyFrom(from: HashState)
      requires from.Valid() && H == from.H
      modifies this
      ensures Valid() && alg == old(from.alg) && ready == old(from.ready)
      ensures total == old(from.total) && absorbed == old(from.absorbed) && rounds == old(rounds)
    {
      alg, ready, total, absorbed := from.alg, from.ready, from.total, from.absorbed;
    }

    method Reset()
      modifies this
      ensures Valid() && alg == old(alg) && ready && absorbed == [] && rounds == old(rounds)
    {
      Init(alg);
    }

    method CurrentlyInHashTotal() returns (ok: bool, n: nat)
      requires Valid()
      ensures ok == ready && (ok ==> n == |absorbed|)
    {
      return ready, total;
    }

    /** The bytes in the unfinished block, by a mask instead of a division. */
    method CurrentlyInHashBlock() returns (ok: bool, n: nat)
      requires Valid()
      ensures ok == ready && (ok ==> n == |absorbed| % BlockSize(alg))
    {
      if !ready { return false, 0; }
      assert Pow2(6) == 64 && Pow2(7) == 128;
      MaskIsRemainder(total, if BlockSize(alg) == 128 then 7 else 6);
      return true, AndBits(total, BlockSize(alg) - 1);
    }
  }

  lemma RoundsGrow(a: HashAlg, n: nat, k: nat)
    ensures AbsorbRounds(a, n + k) >= AbsorbRounds(a, n)
  {
  }
}
