/** CTR_DRBG without derivation function, as section 10.2.1 of NIST SP 800-90A has it: the counter V is a number. */
module DrbgSpec {
  import opened Bytes

  const BLOCK: nat := 16

  /** Encryption of one block under a key. */
  type BlockCipher = e: (seq<byte>, seq<byte>) -> seq<byte>
    | forall k, x :: |e(k, x)| == BLOCK
    witness (k, x) => Fill(0, BLOCK)

  datatype Working = Working(key: seq<byte>, v: nat)

  /** V takes this many values. */
  function Turn(): (n: nat)
    ensures n > 0
  {
    Pow256(BLOCK)
  }

  predicate Sized(w: Working) { (|w.key| == 16 || |w.key| == 32) && w.v < Turn() }

  function SeedSize(w: Working): nat { BLOCK + |w.key| }

  /** The least number of blocks that holds `size` bytes. */
  function Blocks(size: nat): (n: nat)
    ensures (n - 1) * BLOCK < size <= n * BLOCK || n == size == 0
  {
    (size + BLOCK - 1) / BLOCK
  }

  function CounterBlock(v: nat): (r: seq<byte>)
    ensures |r| == BLOCK
  {
    BE(v % Turn(), BLOCK)
  }

  /** The encryptions of V + 1, ..., V + n. */
  function KeyStream(e: BlockCipher, w: Working, n: nat): (s: seq<byte>)
    ensures |s| == n * BLOCK
  {
    if n == 0 then [] else KeyStream(e, w, n - 1) + e(w.key, CounterBlock(w.v + n))
  }

  function Advance(w: Working, n: nat): Working { w.(v := (w.v + n) % Turn()) }

  function Bits(e: BlockCipher, w: Working, size: nat): (s: seq<byte>)
    ensures |s| == size
  {
    KeyStream(e, w, Blocks(size))[..size]
  }

  /** Section 10.2.1.2: key and V become key stream combined with the provided data. */
  function Update(e: BlockCipher, w: Working, data: seq<byte>): (r: Working)
    requires Sized(w) && |data| == SeedSize(w)
    ensures Sized(r) && |r.key| == |w.key|
  {
    var t := XorSeq(Bits(e, w, |data|), data);
    ValBound(t[|w.key|..]);
    Working(t[..|w.key|], Val(t[|w.key|..]))
  }

  /** A personalization string brought to the size of a seed. */
  function Fit(ps: seq<byte>, size: nat): (r: seq<byte>)
    ensures |r| == size
  {
    if |ps| >= size then ps[..size] else ps + Fill(0, size - |ps|)
  }

  /** Section 10.2.1.3.1. */
  function Instantiate(e: BlockCipher, keySize: nat, entropy: seq<byte>, ps: seq<byte>): (w: Working)
    requires (keySize == 16 || keySize == 32) && |entropy| == BLOCK + keySize
    ensures Sized(w) && |w.key| == keySize
  {
    Update(e, Working(Fill(0, keySize), 0), XorSeq(entropy, Fit(ps, BLOCK + keySize)))
  }

  /** Section 10.2.1.4.1 with additional input of zeros. */
  function Reseed(e: BlockCipher, w: Working, entropy: seq<byte>): (r: Working)
    requires Sized(w) && |entropy| == SeedSize(w)
    ensures Sized(r) && |r.key| == |w.key|
  {
    Update(e, w, XorSeq(entropy, Fill(0, SeedSize(w))))
  }

  /** Section 10.2.1.5.1 without additional input: the state after the bits have been taken. */
  function AfterGenerate(e: BlockCipher, w: Working, size: nat): (r: Working)
    requires Sized(w)
    ensures Sized(r) && |r.key| == |w.key|
  {
    Update(e, Advance(w, Blocks(size)), Fill(0, SeedSize(w)))
  }

  // ---------------------------------------------------------------- byte by byte

  /** V runs modulo 2^128 and is encrypted in big-endian form. */
  lemma CounterBlockVal(v: nat)
    ensures Turn() == 0x1_0000_0000_0000_0000_0000_0000_0000_0000
    ensures Val(CounterBlock(v)) == v % 0x1_0000_0000_0000_0000_0000_0000_0000_0000
  {
    hide Val, BE;
    Pow256Values();
    assert Pow256(10) == 65536 * Pow256(8) && Pow256(12) == 65536 * Pow256(10);
    assert Pow256(14) == 65536 * Pow256(12) && Pow256(16) == 65536 * Pow256(14);
    ValBE(v % Turn(), BLOCK);
  }

  /** Byte `i` of the bits is a byte of the encryption of V plus the number of its block, from 1 on. */
  lemma BitsByte(e: BlockCipher, w: Working, size: nat, i: nat)
    requires i < size
    ensures Bits(e, w, size)[i] == e(w.key, CounterBlock(w.v + i / 16 + 1))[i % 16]
  {
    var k, n := i / 16, Blocks(size);
    KeyStreamBlock(e, w, n, k);
    hide KeyStream, CounterBlock;
    var s := KeyStream(e, w, n);
    assert s[i] == s[k * BLOCK..k * BLOCK + BLOCK][i - k * BLOCK];
  }

  /** Key and V in a row are key stream combined with the provided data, the key first. */
  lemma UpdateByte(e: BlockCipher, w: Working, data: seq<byte>, i: nat)
    requires Sized(w) && |data| == SeedSize(w) && i < |data|
    ensures var r := Update(e, w, data);
            (r.key + BE(r.v, 16))[i] == Xor(e(w.key, CounterBlock(w.v + i / 16 + 1))[i % 16], data[i])
  {
    BitsByte(e, w, |data|, i);
    hide Bits, BE, Val, CounterBlock, Turn, Xor;
    var t := XorSeq(Bits(e, w, |data|), data);
    BEVal(t[|w.key|..]);
    assert t[..|w.key|] + t[|w.key|..] == t;
  }

  /** Instantiation starts from a zero key and a zero V, and mixes the string, filled with zeros or cut, into the
      entropy. */
  lemma InstantiateByte(e: BlockCipher, keySize: nat, entropy: seq<byte>, ps: seq<byte>, i: nat)
    requires (keySize == 16 || keySize == 32) && |entropy| == 16 + keySize && i < |entropy|
    ensures var r := Instantiate(e, keySize, entropy, ps);
            (r.key + BE(r.v, 16))[i] ==
              Xor(e(Fill(0, keySize), BE(i / 16 + 1, 16))[i % 16], Xor(entropy[i], if i < |ps| then ps[i] else 0))
  {
    hide Update, BE, Xor, Turn, CounterBlock;
    RequestsAreShort();
    Small(i / 16 + 1);
    UpdateByte(e, Working(Fill(0, keySize), 0), XorSeq(entropy, Fit(ps, BLOCK + keySize)), i);
  }

  lemma Small(v: nat)
    requires v < Turn()
    ensures CounterBlock(v) == BE(v, 16)
  {
    hide BE, Turn;
    SmallRemainder(v, Turn());
  }

  lemma SmallRemainder(v: nat, m: nat)
    requires v < m
    ensures v % m == v
  {
  }

  /** Reseeding mixes in the entropy as it is. */
  lemma ReseedByte(e: BlockCipher, w: Working, entropy: seq<byte>, i: nat)
    requires Sized(w) && |entropy| == SeedSize(w) && i < |entropy|
    ensures var r := Reseed(e, w, entropy);
            (r.key + BE(r.v, 16))[i] == Xor(e(w.key, CounterBlock(w.v + i / 16 + 1))[i % 16], entropy[i])
  {
    hide Update, BE, Xor, CounterBlock, Turn;
    UpdateByte(e, w, XorSeq(entropy, Fill(0, SeedSize(w))), i);
    XorLaws(entropy[i], 0, 0);
  }

  /** After a request key and V are the key stream that follows the blocks served. */
  lemma AfterGenerateByte(e: BlockCipher, w: Working, size: nat, i: nat)
    requires Sized(w) && i < SeedSize(w)
    ensures var r := AfterGenerate(e, w, size);
            (r.key + BE(r.v, 16))[i] == e(w.key, CounterBlock(w.v + (size + 15) / 16 + i / 16 + 1))[i % 16]
  {
    hide Update, BE, Xor, Turn;
    var n := Blocks(size);
    UpdateByte(e, Advance(w, n), Fill(0, SeedSize(w)), i);
    ModAdd(w.v + n, i / 16 + 1, Turn());
    XorLaws(e(w.key, CounterBlock(w.v + n + i / 16 + 1))[i % 16], 0, 0);
  }

  lemma ModAdd(a: nat, j: nat, m: nat)
    requires m > 0
    ensures (a % m + j) % m == (a + j) % m
  {
    var q, r := a / m, a % m + j;
    ModDrop(q, r, m);
    assert a + j == q * m + r;
  }

  lemma {:induction false} ModDrop(q: nat, r: nat, m: nat)
    requires m > 0
    ensures (q * m + r) % m == r % m
  {
    var p, s := r / m, r % m;
    assert q * m + r == (q + p) * m + s;
    DivUnique(q * m + r, m, q + p, s);
  }

  // ---------------------------------------------------------------- whole runs

  /** What a caller did: a start, whose source of entropy may fail, a request that was served, or a wipe. */
  datatype Event = Started(keySize: nat, entropy: Option<seq<byte>>, ps: seq<byte>)
                 | Served(size: nat, mixed: seq<byte>)
                 | Wiped

  predicate ProperKey(n: nat) { n == 16 || n == 32 }

  /** The state of the standard's mechanism after a run; every request reseeds first. */
  function Replay(e: BlockCipher, run: seq<Event>): (r: Option<Working>)
    ensures r.Some? ==> Sized(r.value)
  {
    if run == [] then None
    else match run[|run| - 1]
      case Started(n, None, _) => if ProperKey(n) then Some(Working(Fill(0, n), 0)) else None
      case Started(n, Some(x), ps) =>
        if ProperKey(n) && |x| == BLOCK + n then Some(Instantiate(e, n, x, ps)) else None
      case Served(size, x) =>
        var before := Replay(e, run[..|run| - 1]);
        if before.None? || |x| != SeedSize(before.value) then None
        else Some(AfterGenerate(e, Reseed(e, before.value, x), size))
      case Wiped => None
  }

  /** The blocks encrypted since the last seeding. */
  function Spent(e: BlockCipher, run: seq<Event>): nat {
    if run == [] then 0
    else
      var before := run[..|run| - 1];
      match run[|run| - 1]
      case Started(_, None, _) => Spent(e, before)
      case Started(_, Some(_), _) => 0
      case Served(size, x) => Spent(e, before) + 2 * Blocks(|x|) + Blocks(size)
      case Wiped => 0
  }

  lemma ReplayStarted(e: BlockCipher, run: seq<Event>, n: nat, x: Option<seq<byte>>, ps: seq<byte>)
    requires ProperKey(n) && (x.Some? ==> |x.value| == BLOCK + n)
    ensures var after := run + [Started(n, x, ps)];
            && Replay(e, after) == Some(if x.None? then Working(Fill(0, n), 0) else Instantiate(e, n, x.value, ps))
            && Spent(e, after) == if x.None? then Spent(e, run) else 0
  {
    hide Instantiate;
    assert (run + [Started(n, x, ps)])[..|run|] == run;
  }

  lemma ReplayServed(e: BlockCipher, run: seq<Event>, size: nat, x: seq<byte>)
    requires Replay(e, run).Some? && |x| == SeedSize(Replay(e, run).value)
    ensures var after := run + [Served(size, x)];
            && Replay(e, after) == Some(AfterGenerate(e, Reseed(e, Replay(e, run).value, x), size))
            && Spent(e, after) == Spent(e, run) + 2 * Blocks(|x|) + Blocks(size)
  {
    hide Reseed, AfterGenerate, Blocks;
    assert (run + [Served(size, x)])[..|run|] == run;
  }

  // ---------------------------------------------------------------- no block comes twice

  ghost predicate Injective(e: BlockCipher) {
    forall k: seq<byte>, x, y ::
      |x| == BLOCK && |y| == BLOCK && e(k, x) == e(k, y) ==> x == y
  }

  lemma Encrypts(e: BlockCipher, k: seq<byte>, x: seq<byte>, y: seq<byte>)
    requires Injective(e) && |x| == BLOCK && |y| == BLOCK && x != y
    ensures e(k, x) != e(k, y)
  {
  }

  /** Two counters less than a full turn apart differ. */
  lemma ResiduesDiffer(a: nat, b: nat, m: nat)
    requires a < b < a + m
    ensures a % m != b % m
  {
    var q := b / m - a / m;
    assert b - a == q * m + (b % m - a % m);
    assert q <= 0 ==> q * m <= 0;
    assert q >= 1 ==> q * m >= m;
  }

  lemma CounterBlocksDiffer(a: nat, b: nat)
    requires a < b < a + Turn()
    ensures CounterBlock(a) != CounterBlock(b)
  {
    hide BE, Pow256;
    ResiduesDiffer(a, b, Turn());
    if CounterBlock(a) == CounterBlock(b) {
      BEInjective(a % Turn(), b % Turn(), BLOCK);
      assert false;
    }
  }

  lemma {:induction false} KeyStreamBlock(e: BlockCipher, w: Working, n: nat, i: nat)
    requires i < n
    ensures i * BLOCK + BLOCK <= n * BLOCK
    ensures KeyStream(e, w, n)[i * BLOCK..i * BLOCK + BLOCK] == e(w.key, CounterBlock(w.v + i + 1))
  {
    hide CounterBlock;
    var s := KeyStream(e, w, n - 1);
    if i == n - 1 {
      assert KeyStream(e, w, n)[i * BLOCK..] == e(w.key, CounterBlock(w.v + n));
    } else {
      KeyStreamBlock(e, w, n - 1, i);
      assert KeyStream(e, w, n)[i * BLOCK..i * BLOCK + BLOCK] == s[i * BLOCK..i * BLOCK + BLOCK];
    }
  }

  lemma BitsBlock(e: BlockCipher, w: Working, size: nat, i: nat)
    requires i * BLOCK + BLOCK <= size
    ensures Bits(e, w, size)[i * BLOCK..i * BLOCK + BLOCK] == e(w.key, CounterBlock(w.v + i + 1))
  {
    var n := Blocks(size);
    KeyStreamBlock(e, w, n, i);
    hide KeyStream, CounterBlock;
    var s, t := Bits(e, w, size), KeyStream(e, w, n);
    assert s[i * BLOCK..i * BLOCK + BLOCK] == t[i * BLOCK..i * BLOCK + BLOCK];
  }

  /** With an injective cipher the full blocks of one request are pairwise distinct, also where V wraps; one
      request is far shorter than a full turn of V. */
  lemma BlocksDistinct(e: BlockCipher, w: Working, size: nat, i: nat, j: nat)
    requires Injective(e) && i < j < i + Turn() && j * BLOCK + BLOCK <= size
    ensures var s := Bits(e, w, size);
            s[i * BLOCK..i * BLOCK + BLOCK] != s[j * BLOCK..j * BLOCK + BLOCK]
  {
    hide Turn, Bits, CounterBlock, Injective;
    assert i * BLOCK + BLOCK <= size;
    BitsBlock(e, w, size, i);
    BitsBlock(e, w, size, j);
    CounterBlocksDiffer(w.v + i + 1, w.v + j + 1);
    Encrypts(e, w.key, CounterBlock(w.v + i + 1), CounterBlock(w.v + j + 1));
  }

  lemma RequestsAreShort()
    ensures 8192 < Turn()
  {
    Pow256Values();
    assert Pow256(10) == 65536 * Pow256(8) && Pow256(12) == 65536 * Pow256(10);
    assert Pow256(14) == 65536 * Pow256(12) && Pow256(16) == 65536 * Pow256(14);
  }

  /** So within any one request that is served no full block comes twice. */
  lemma RequestDistinct(e: BlockCipher, w: Working, size: nat, i: nat, j: nat)
    requires Injective(e) && size <= 8192 && i < j && j * BLOCK + BLOCK <= size
    ensures var s := Bits(e, w, size);
            s[i * BLOCK..i * BLOCK + BLOCK] != s[j * BLOCK..j * BLOCK + BLOCK]
  {
    hide Turn, Bits, Injective;
    RequestsAreShort();
    BlocksDistinct(e, w, size, i, j);
  }
}
