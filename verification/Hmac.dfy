/** The keyed hash with its four hash states and its block counter. */
module Hmac {
  import opened Bytes
  import opened Memory
  import opened Hash

  datatype HmacAlg = NoHmac | HmacMd5 | HmacSha1 | HmacSha224 | HmacSha256 | HmacSha384 | HmacSha512
                   | Sslv3Md5 | Sslv3Sha1

  function HashOf(a: HmacAlg): HashAlg {
    match a
    case NoHmac => NoHash
    case HmacMd5 => Md5
    case HmacSha1 => Sha1
    case HmacSha224 => Sha224
    case HmacSha256 => Sha256
    case HmacSha384 => Sha384
    case HmacSha512 => Sha512
    case Sslv3Md5 => Md5
    case Sslv3Sha1 => Sha1
  }

  predicate IsSslv3(a: HmacAlg) { a == Sslv3Md5 || a == Sslv3Sha1 }

  function PadSize(a: HmacAlg): nat {
    match a
    case HmacSha384 => 128
    case HmacSha512 => 128
    case Sslv3Md5 => 48
    case Sslv3Sha1 => 40
    case _ => 64
  }

  function HmacDigestSize(a: HmacAlg): nat { DigestSize(HashOf(a)) }

  function HmacBlockSize(a: HmacAlg): nat { BlockSize(HashOf(a)) }

  // ---------------------------------------------------------------- the functions computed

  /** The key brought to the size of a block: hashed if it is longer, then filled with zeros. */
  function BlockKey(h: HashFn, a: HmacAlg, key: seq<byte>): (k: seq<byte>)
    ensures |k| >= HmacBlockSize(a)
    ensures !IsSslv3(a) ==> |k| == HmacBlockSize(a)
  {
    var k := if |key| > HmacBlockSize(a) then h(HashOf(a), key) else key;
    k + Fill(0, HmacBlockSize(a) - |k|)
  }

  /** HMAC of section 2 of RFC 2104. */
  function Rfc2104(h: HashFn, a: HmacAlg, key: seq<byte>, text: seq<byte>): seq<byte> {
    var k := BlockKey(h, a, key);
    h(HashOf(a), XorAll(k, 0x5c) + h(HashOf(a), XorAll(k, 0x36) + text))
  }

  /** What the inner and the outer hash absorb before the data: for SSLv3 the key and a row of pad bytes. */
  function Prefix(h: HashFn, a: HmacAlg, key: seq<byte>, pad: byte): (p: seq<byte>)
    ensures |p| <= |key| + 128
  {
    if IsSslv3(a) then key + Fill(pad, PadSize(a)) else XorAll(BlockKey(h, a, key), pad)
  }

  /** The outer hash over the digest of what the inner hash has absorbed. */
  function Finish(h: HashFn, a: HmacAlg, key: seq<byte>, absorbed: seq<byte>): seq<byte> {
    h(HashOf(a), Prefix(h, a, key, 0x5c) + h(HashOf(a), absorbed))
  }

  /** The keyed hash of a text under any of the algorithms. */
  function MacOf(h: HashFn, a: HmacAlg, key: seq<byte>, text: seq<byte>): (d: seq<byte>)
    ensures |d| == HmacDigestSize(a)
  {
    Finish(h, a, key, Prefix(h, a, key, 0x36) + text)
  }

  lemma MacIsRfc2104(h: HashFn, a: HmacAlg, key: seq<byte>, text: seq<byte>)
    requires !IsSslv3(a)
    ensures MacOf(h, a, key, text) == Rfc2104(h, a, key, text)
  {
  }

  /** The algorithms of TLS, with their hash, its block size and its digest size. */
  predicate Suite(a: HmacAlg, g: HashAlg, block: nat, digest: nat) {
    (a, g, block, digest) in {(NoHmac, NoHash, 64, 0), (HmacMd5, Md5, 64, 16), (HmacSha1, Sha1, 64, 20),
                              (HmacSha224, Sha224, 64, 28), (HmacSha256, Sha256, 64, 32),
                              (HmacSha384, Sha384, 128, 48), (HmacSha512, Sha512, 128, 64)}
  }

  /** A key followed by zeros up to the size of a block, each byte combined with a pad byte. */
  function Padded(key: seq<byte>, block: nat, pad: byte): (r: seq<byte>)
    ensures |r| == block
    ensures forall i :: 0 <= i < block ==> r[i] == Xor(KeyByte(key, i), pad)
  {
    seq(block, i requires 0 <= i < block => Xor(KeyByte(key, i), pad))
  }

  function KeyByte(key: seq<byte>, i: nat): byte { if i < |key| then key[i] else 0 }

  /** Keys of up to a block are used as they are, longer ones are replaced by their hash. */
  lemma MacWritesOut(h: HashFn, a: HmacAlg, g: HashAlg, block: nat, digest: nat, key: seq<byte>, text: seq<byte>)
    requires Suite(a, g, block, digest)
    ensures |MacOf(h, a, key, text)| == digest
    ensures |key| <= block ==>
              MacOf(h, a, key, text) == h(g, Padded(key, block, 0x5c) + h(g, Padded(key, block, 0x36) + text))
    ensures |key| > block ==> MacOf(h, a, key, text) == MacOf(h, a, h(g, key), text)
  {
    if |key| <= block {
      assert XorAll(BlockKey(h, a, key), 0x36) == Padded(key, block, 0x36);
      assert XorAll(BlockKey(h, a, key), 0x5c) == Padded(key, block, 0x5c);
    } else {
      assert BlockKey(h, a, h(g, key)) == BlockKey(h, a, key);
    }
  }

  /** For SSLv3 the key is used as it is, and 48 or 40 pad bytes follow it. */
  lemma Sslv3MacWritesOut(h: HashFn, key: seq<byte>, text: seq<byte>)
    ensures MacOf(h, Sslv3Md5, key, text) == h(Md5, key + Fill(0x5c, 48) + h(Md5, key + Fill(0x36, 48) + text))
    ensures MacOf(h, Sslv3Sha1, key, text) == h(Sha1, key + Fill(0x5c, 40) + h(Sha1, key + Fill(0x36, 40) + text))
  {
  }

  // ---------------------------------------------------------------- the state as a value

  /** The inner hash: open with the data since the last reset, closed by a digest, or ready again after a
      two-round digest but holding a block of zeros instead of the key. */
  datatype Inner = Open(data: seq<byte>) | Closed | Dummy(data: seq<byte>)

  /** `count` is what the block counter shows. */
  datatype Mac = Blank | Mac(alg: HmacAlg, key: seq<byte>, inner: Inner, count: nat)

  datatype Call = InitCall(alg: HmacAlg, key: seq<byte>) | UpdateCall(data: seq<byte>) | DigestCall(size: nat) | TwoRoundsCall(size: nat) | ResetCall

  /** A call's effect on the state, whether it succeeds, and the digest it returns. */
  datatype Reply = Reply(mac: Mac, ok: bool, out: seq<byte>)

  const HIGHEST_32_BIT: nat := 4294949760
  const MAX_CHUNK: nat := MAX_U32 - HIGHEST_32_BIT

  /** The room the padding of the last block needs: one byte and the length field. */
  function SpaceLeft(a: HmacAlg): nat { if HmacBlockSize(a) == 128 then 17 else 9 }

  function Absorbed(h: HashFn, m: Mac): seq<byte>
    requires m.Mac?
  {
    match m.inner
    case Open(data) => Prefix(h, m.alg, m.key, 0x36) + data
    case Closed => []
    case Dummy(data) => Fill(0, HmacBlockSize(m.alg)) + data
  }

  function Start(h: HashFn, a: HmacAlg, key: seq<byte>): Mac {
    Mac(a, key, Open([]), |Prefix(h, a, key, 0x36)| % HmacBlockSize(a))
  }

  function Push(i: Inner, data: seq<byte>): Inner
    requires !i.Closed?
  {
    if i.Open? then Open(i.data + data) else Dummy(i.data + data)
  }

  function AfterUpdate(h: HashFn, m: Mac, data: seq<byte>): Reply {
    if m.Blank? || |data| > MAX_CHUNK then Reply(m, false, [])
    else
      var counted := m.(count := (m.count + |data|) % HmacBlockSize(m.alg));
      if m.inner.Closed? || |Absorbed(h, m)| + |data| > MAX_U64 then Reply(counted, false, [])
      else Reply(counted.(inner := Push(m.inner, data)), true, [])
  }

  function AfterDigest(h: HashFn, m: Mac, size: nat): Reply {
    if m.Blank? || m.inner.Closed? then Reply(m, false, [])
    else if size != HmacDigestSize(m.alg) then Reply(m.(inner := Closed), false, [])
    else Reply(m.(inner := Closed), true, Finish(h, m.alg, m.key, Absorbed(h, m)))
  }

  function AfterTwoRounds(h: HashFn, m: Mac, size: nat): Reply {
    var r := AfterDigest(h, m, size);
    if !r.ok || m.count + SpaceLeft(m.alg) > HmacBlockSize(m.alg) then r
    else r.(mac := m.(inner := Dummy([])))
  }

  function AfterReset(h: HashFn, m: Mac): Reply {
    if m.Blank? then Reply(m, false, []) else Reply(Start(h, m.alg, m.key), true, [])
  }

  function After(h: HashFn, m: Mac, c: Call): Reply {
    match c
    case InitCall(a, key) => Reply(Start(h, a, key), true, [])
    case UpdateCall(data) => AfterUpdate(h, m, data)
    case DigestCall(size) => AfterDigest(h, m, size)
    case TwoRoundsCall(size) => AfterTwoRounds(h, m, size)
    case ResetCall => AfterReset(h, m)
  }

  /** The block counter tells how far the inner hash is into a block. */
  predicate InStep(h: HashFn, m: Mac) {
    m.Mac? && m.inner.Open? && m.count == |Absorbed(h, m)| % HmacBlockSize(m.alg)
  }

  // ---------------------------------------------------------------- the state in memory

  class HmacState {
    const H: HashFn
    const inner: HashState
    const innerKey: HashState
    const outer: HashState
    const outerKey: HashState
    const xorPad: array<byte>
    const digestPad: array<byte>
    var alg: HmacAlg
    var blockSize: nat
    var inBlock: nat
    var padSize: nat
    var digestSize: nat
    ghost var mac: Mac

    ghost function Footprint(): set<object> {
      {this, inner, innerKey, outer, outerKey, xorPad, digestPad}
    }

    /** Four distinct hash states over the same hash functions, and two buffers. */
    ghost predicate Shaped()
      reads inner, innerKey, outer, outerKey
    {
      && inner != innerKey && inner != outer && inner != outerKey
      && innerKey != outer && innerKey != outerKey && outer != outerKey
      && xorPad != digestPad && xorPad.Length == 128 && digestPad.Length == 64
      && inner.H == H && innerKey.H == H && outer.H == H && outerKey.H == H
      && inner.Valid() && innerKey.Valid() && outer.Valid() && outerKey.Valid()
    }

    ghost predicate Sized(a: HmacAlg)
      reads `alg, `blockSize, `padSize, `digestSize
    {
      alg == a && blockSize == HmacBlockSize(a) && padSize == PadSize(a) && digestSize == HmacDigestSize(a)
    }

    ghost predicate Absorbs(s: HashState, bytes: seq<byte>)
      reads `alg, s
    {
      s.alg == HashOf(alg) && s.ready && s.absorbed == bytes
    }

    /** The two key states are ready to be copied, and no key material is left in the pad. */
    ghost predicate Keyed(a: HmacAlg, key: seq<byte>): (r: bool)
      reads `alg, `blockSize, `padSize, `digestSize, innerKey, outerKey, xorPad
      ensures r ==> Sized(a) && Absorbs(outerKey, Prefix(H, a, key, 0x5c))
    {
      && Sized(a)
      && Absorbs(innerKey, Prefix(H, a, key, 0x36)) && Absorbs(outerKey, Prefix(H, a, key, 0x5c))
      && xorPad[..] == Fill(0, 128)
    }

    /** The inner hash and the counter are as the value says. */
    ghost predicate Tracks()
      requires mac.Mac?
      reads this, inner
    {
      && inner.alg == HashOf(mac.alg) && (inner.ready <==> !mac.inner.Closed?)
      && (inner.ready ==> inner.absorbed == Absorbed(H, mac))
      && inBlock == mac.count < HmacBlockSize(mac.alg)
    }

    ghost predicate Valid(): (r: bool)
      reads this, inner, innerKey, outer, outerKey, xorPad, digestPad
      ensures r ==> Shaped()
    {
      && Shaped()
      && (mac.Blank? ==> !inner.ready && blockSize == 0)
      && (mac.Mac? ==> |mac.key| <= MAX_U32 && Keyed(mac.alg, mac.key) && Tracks())
    }

    constructor (h: HashFn)
      ensures H == h && Valid() && mac == Blank
      ensures fresh(Footprint())
    {
      H := h;
      inner := new HashState(h);
      innerKey := new HashState(h);
      outer := new HashState(h);
      outerKey := new HashState(h);
      xorPad := new byte[128](_ => 0);
      digestPad := new byte[64](_ => 0);
      alg, blockSize, inBlock, padSize, digestSize, mac := NoHmac, 0, 0, 0, 0, Blank;
    }

    /** Key material for SSLv3: the key, then the pad bytes. */
    method Sslv3Init(key: seq<byte>)
      requires Shaped() && |key| <= MAX_U32 && padSize <= 128
      requires Absorbs(innerKey, []) && Absorbs(outerKey, [])
      modifies innerKey, outerKey, xorPad
      ensures Shaped()
      ensures Absorbs(innerKey, key + Fill(0x36, padSize)) && Absorbs(outerKey, key + Fill(0x5c, padSize))
    {
      Set(xorPad, 0, 0x36, padSize);
      assert xorPad[..padSize] == Fill(0x36, padSize);
      var ok := innerKey.Update(key);
      ok := innerKey.Update(xorPad[..padSize]);
      Set(xorPad, 0, 0x5c, padSize);
      assert xorPad[..padSize] == Fill(0x5c, padSize);
      ok := outerKey.Update(key);
      ok := outerKey.Update(xorPad[..padSize]);
      assert [] + key == key;
    }

    /** The key fitted to a block in the pad, using the outer hash if it is too long. */
    method LoadKey(key: seq<byte>)
      requires Shaped() && |key| <= MAX_U32 && padSize == HmacBlockSize(alg) && digestSize == HmacDigestSize(alg)
      requires Absorbs(outer, [])
      modifies outer, xorPad, digestPad
      ensures Shaped() && xorPad[..padSize] == BlockKey(H, alg, key)
    {
      Set(xorPad, 0, 0, 128);
      if |key| > padSize {
        var ok := outer.Update(key);
        assert [] + key == key;
        var digest;
        ok, digest := outer.Digest(digestSize);
        Put(digestPad, 0, digest);
        Put(xorPad, 0, digestPad[..digestSize]);
      } else {
        Put(xorPad, 0, key);
      }
      assert xorPad[..padSize] == BlockKey(H, alg, key);
    }

    /** Key material for TLS: the block-sized key combined with the inner, then with the outer pad byte. */
    method TlsInit(key: seq<byte>)
      requires Shaped() && |key| <= MAX_U32 && padSize == HmacBlockSize(alg) && digestSize == HmacDigestSize(alg)
      requires Absorbs(outer, []) && Absorbs(innerKey, []) && Absorbs(outerKey, [])
      modifies innerKey, outer, outerKey, xorPad, digestPad
      ensures Shaped()
      ensures Absorbs(innerKey, XorAll(BlockKey(H, alg, key), 0x36))
      ensures Absorbs(outerKey, XorAll(BlockKey(H, alg, key), 0x5c))
    {
      LoadKey(key);
      ghost var k := BlockKey(H, alg, key);
      XorByte(xorPad, padSize, 0x36);
      var ok := innerKey.Update(xorPad[..padSize]);
      assert innerKey.absorbed == XorAll(k, 0x36);
      XorByte(xorPad, padSize, 0x6a);
      PadBytes();
      XorAllTwice(k, 0x36, 0x6a);
      ok := outerKey.Update(xorPad[..padSize]);
      assert outerKey.absorbed == XorAll(k, 0x5c);
    }

    method LoadKeys(a: HmacAlg, key: seq<byte>)
      requires Shaped() && Sized(a) && |key| <= MAX_U32
      requires Absorbs(outer, []) && Absorbs(innerKey, []) && Absorbs(outerKey, [])
      modifies innerKey, outer, outerKey, xorPad, digestPad
      ensures Shaped() && Keyed(a, key)
    {
      if IsSslv3(a) {
        Sslv3Init(key);
      } else {
        TlsInit(key);
      }
      Set(xorPad, 0, 0, 128);
      assert xorPad[..] == Fill(0, 128);
    }

    method Init(a: HmacAlg, key: seq<byte>)
      requires Valid() && |key| <= MAX_U32
      modifies Footprint()
      ensures Valid() && mac == Start(H, a, key)
    {
      alg := a;
      blockSize := HmacBlockSize(a);
      inBlock := 0;
      padSize := PadSize(a);
      digestSize := HmacDigestSize(a);
      inner.Init(HashOf(a));
      innerKey.Init(HashOf(a));
      outer.Init(HashOf(a));
      outerKey.Init(HashOf(a));
      LoadKeys(a, key);
      Rewind(a, key);
    }

    method Rewind(ghost a: HmacAlg, ghost key: seq<byte>)
      requires Shaped() && Keyed(a, key) && |key| <= MAX_U32
      modifies this`inBlock, this`mac, inner
      ensures Valid() && mac == Start(H, a, key)
    {
      inner.CopyFrom(innerKey);
      var _, total := inner.CurrentlyInHashTotal();
      inBlock := total % blockSize;
      mac := Start(H, a, key);
      assert inner.absorbed == Absorbed(H, mac);
    }

    method Reset() returns (ok: bool)
      requires Valid()
      modifies this`inBlock, this`mac, inner
      ensures Valid() && Reply(mac, ok, []) == AfterReset(H, old(mac))
    {
      if blockSize == 0 { return false; }
      Rewind(mac.alg, mac.key);
      return true;
    }

    method Update(data: seq<byte>) returns (ok: bool)
      requires Valid() && |data| <= MAX_U32
      modifies this`inBlock, this`mac, inner
      ensures Valid() && Reply(mac, ok, []) == AfterUpdate(H, old(mac), data)
    {
      hide HmacState.Keyed, Prefix, Absorbed;
      if blockSize == 0 { return false; }
      if |data| > MAX_U32 - HIGHEST_32_BIT { return false; }
      var value := (HIGHEST_32_BIT + |data|) % blockSize;
      if inBlock + value > MAX_U32 { return false; }
      CountMeans(mac.alg, inBlock, |data|);
      inBlock := (inBlock + value) % blockSize;
      ok := inner.Update(data);
      PushAbsorbs(H, mac, data);
      mac := AfterUpdate(H, mac, data).mac;
    }

    /** The outer hash over the key and the inner digest. */
    method OuterDigest(inDigest: seq<byte>, size: nat) returns (ok: bool, out: seq<byte>)
      requires Shaped() && outerKey.ready && outerKey.total < 4 * MAX_U32 && |inDigest| <= 64
      modifies outer, digestPad
      ensures Shaped() && (ok <==> size == DigestSize(outerKey.alg))
      ensures out == if ok then H(outerKey.alg, outerKey.absorbed + inDigest) else []
    {
      Put(digestPad, 0, inDigest);
      outer.CopyFrom(outerKey);
      assert digestPad[..|inDigest|] == inDigest;
      ok := outer.Update(digestPad[..|inDigest|]);
      ok, out := outer.Digest(size);
      if !ok { out := []; }
    }

    method Digest(size: nat) returns (ok: bool, out: seq<byte>)
      requires Valid()
      modifies this`mac, inner, outer, digestPad
      ensures Valid() && Reply(mac, ok, out) == AfterDigest(H, old(mac), size)
      ensures ok ==> inner.rounds == old(inner.rounds) + FinalRounds(inner.alg, |old(inner.absorbed)|)
    {
      hide HmacState.Keyed, Prefix, Absorbed, FinalRounds;
      var inDigest;
      ok, inDigest := inner.Digest(digestSize);
      if !ok { return false, []; }
      ok, out := OuterDigest(inDigest, size);
      mac := AfterDigest(H, mac, size).mac;
    }

    /** However many rounds the digest needs, the inner hash does two. */
    method DigestTwoCompressionRounds(size: nat) returns (ok: bool, out: seq<byte>)
      requires Valid()
      modifies this`mac, inner, outer, digestPad
      ensures Valid() && Reply(mac, ok, out) == AfterTwoRounds(H, old(mac), size)
      ensures ok && old(InStep(H, mac)) && alg != NoHmac ==> inner.rounds == old(inner.rounds) + 2
    {
      hide Finish, Prefix;
      ok, out := Digest(size);
      if !ok { return; }
      FinalRoundsAre(inner.alg, |old(inner.absorbed)|);
      var spaceLeft := if blockSize == 128 then 17 else 9;
      if inBlock > blockSize - spaceLeft { return; }
      inner.Reset();
      var _ := inner.Update(xorPad[..blockSize]);
      mac := mac.(inner := Dummy([]));
    }

    /** No hash state and no buffer is shared. */
    ghost predicate Apart(from: HmacState) {
      && this != from
      && inner != from.inner && inner != from.innerKey && inner != from.outer && inner != from.outerKey
      && innerKey != from.inner && innerKey != from.innerKey && innerKey != from.outer && innerKey != from.outerKey
      && outer != from.inner && outer != from.innerKey && outer != from.outer && outer != from.outerKey
      && outerKey != from.inner && outerKey != from.innerKey && outerKey != from.outer && outerKey != from.outerKey
      && xorPad != from.xorPad && xorPad != from.digestPad
      && digestPad != from.xorPad && digestPad != from.digestPad
    }

    /** Copies what the four hash states and the two buffers hold. */
    method CopyContents(from: HmacState)
      requires Shaped() && from.Valid() && H == from.H && Apart(from)
      modifies inner, innerKey, outer, outerKey, xorPad, digestPad
      ensures Shaped() && from.Valid() && SameHashes(from) && xorPad[..] == from.xorPad[..]
    {
      hide HmacState.Keyed, HmacState.Tracks;
      inner.CopyFrom(from.inner);
      innerKey.CopyFrom(from.innerKey);
      outer.CopyFrom(from.outer);
      outerKey.CopyFrom(from.outerKey);
      Overwrite(xorPad, from.xorPad[..]);
      Overwrite(digestPad, from.digestPad[..]);
    }

    ghost predicate SameHashes(from: HmacState)
      reads inner, innerKey, outer, outerKey, from.inner, from.innerKey, from.outer, from.outerKey
    {
      && SameHash(inner, from.inner) && SameHash(innerKey, from.innerKey)
      && SameHash(outer, from.outer) && SameHash(outerKey, from.outerKey)
    }

    ghost predicate SameFields(from: HmacState)
      reads this, from
    {
      && alg == from.alg && blockSize == from.blockSize && inBlock == from.inBlock
      && padSize == from.padSize && digestSize == from.digestSize && mac == from.mac
    }

    method CopyFrom(from: HmacState)
      requires Valid() && from.Valid() && H == from.H && Apart(from)
      modifies Footprint()
      ensures Valid() && mac == from.mac
    {
      hide HmacState.SameHashes, HmacState.Keyed, HmacState.Tracks, Prefix, Absorbed, Fill;
      alg := from.alg;
      blockSize := from.blockSize;
      inBlock := from.inBlock;
      padSize := from.padSize;
      digestSize := from.digestSize;
      mac := from.mac;
      CopyContents(from);
      CopyIsValid(from);
    }

    lemma CopyIsValid(from: HmacState)
      requires from.Valid() && Shaped() && SameFields(from) && SameHashes(from)
      requires H == from.H && xorPad[..] == from.xorPad[..]
      ensures Valid()
    {
      hide Prefix, Absorbed, Fill;
    }
  }

  ghost predicate SameHash(s: HashState, t: HashState)
    reads s, t
  {
    s.alg == t.alg && s.ready == t.ready && s.total == t.total && s.absorbed == t.absorbed
  }

  lemma PushAbsorbs(h: HashFn, m: Mac, data: seq<byte>)
    requires m.Mac?
    ensures var r := AfterUpdate(h, m, data);
            r.mac.Mac? && Absorbed(h, r.mac) == Absorbed(h, m) + if r.ok then data else []
  {
  }

  /** The large multiple of the block size leaves the count as it is, and no sum leaves 32 bits. */
  lemma CountMeans(a: HmacAlg, count: nat, n: nat)
    requires count < HmacBlockSize(a) && n <= MAX_CHUNK
    ensures HIGHEST_32_BIT + n <= MAX_U32 && count + (HIGHEST_32_BIT + n) % HmacBlockSize(a) <= MAX_U32
    ensures (count + (HIGHEST_32_BIT + n) % HmacBlockSize(a)) % HmacBlockSize(a) == (count + n) % HmacBlockSize(a)
  {
  }

  lemma PadBytes()
    ensures Xor(0x36, 0x6a) == 0x5c
  {
    assert XorBits(0, 0, 1) == 0;
    assert XorBits(0, 1, 2) == 1;
    assert XorBits(1, 3, 3) == 2;
    assert XorBits(3, 6, 4) == 5;
    assert XorBits(6, 13, 5) == 11;
    assert XorBits(13, 26, 6) == 23;
    assert XorBits(27, 53, 7) == 46;
    assert XorBits(54, 106, 8) == 92;
  }
}
