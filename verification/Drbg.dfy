/** The generator itself: V is counted in place, key and V are replaced after every use. */
module Drbg {
  import opened Bytes
  import opened Counters
  import opened Memory
  import D = DrbgSpec

  const GENERATE_LIMIT: nat := 8192
  const TWO_64: nat := MAX_U64 + 1

  datatype Mode = Aes128 | Aes256

  function KeySize(m: Mode): nat { if m == Aes128 then 16 else 32 }

  class Generator {
    const E: D.BlockCipher
    const v: array<byte>
    var ready: bool
    var key: seq<byte>
    var bytesUsed: nat
    var mixes: nat
    ghost var blocks: nat
    ghost var run: seq<D.Event>

    ghost predicate Valid()
      reads this, v
    {
      && v.Length == D.BLOCK && bytesUsed == 16 * blocks % TWO_64 && mixes < TWO_64
      && (ready ==> |key| == 16 || |key| == 32)
    }

    /** Key and counter as the standard has them. */
    ghost function Value(): (w: D.Working)
      requires v.Length == D.BLOCK
      reads `key, v
      ensures w.key == key && w.v < D.Turn()
    {
      ValBound(v[..]);
      D.Working(key, Val(v[..]))
    }

    /** Key, V and the number of bytes used are what the standard's mechanism has after the same run. */
    ghost predicate Faithful(): (r: bool)
      reads this, v
      ensures r ==> Valid()
    {
      && Valid() && D.Replay(E, run) == (if ready then Some(Value()) else None)
      && blocks == D.Spent(E, run)
    }

    constructor (e: D.BlockCipher)
      ensures Faithful() && E == e && run == [] && fresh(v)
    {
      E := e;
      v := new byte[D.BLOCK](_ => 0);
      ready, key, bytesUsed, mixes, blocks, run := false, [], 0, 0, 0, [];
    }

    /** Counts V up and encrypts it. */
    method NextBlock() returns (block: seq<byte>)
      requires Valid() && ready
      modifies v, `bytesUsed, `blocks
      ensures Valid() && Value() == D.Advance(old(Value()), 1) && blocks == old(blocks) + 1
      ensures block == E(key, D.CounterBlock(old(Value()).v + 1))
    {
      hide Pow256, Val, BE, Successor;
      ghost var was := v[..];
      var _ := Increment(v);
      SuccessorAddsOne(was);
      BEVal(v[..]);
      block := E(key, v[..]);
      UsedSteps(blocks);
      blocks := blocks + 1;
      bytesUsed := (bytesUsed + 16) % TWO_64;
    }

    /** Fills `out` with key stream: whole blocks first, then what is left from a spare block. */
    method Bits(out: array<byte>)
      requires Valid() && ready && out != v
      modifies v, `bytesUsed, `blocks, out
      ensures Valid() && Value() == D.Advance(old(Value()), D.Blocks(out.Length))
      ensures out[..] == D.Bits(E, old(Value()), out.Length)
      ensures blocks == old(blocks) + D.Blocks(out.Length)
    {
      hide Pow256, D.KeyStream, D.Advance, D.CounterBlock, Generator.Value, Emitted, D.Bits, D.Blocks, Splice;
      ghost var w, n := Value(), 0;
      var aligned := out.Length - out.Length % D.BLOCK;
      var i := 0;
      Started(E, w, out[..]);
      while i < aligned
        invariant i == 16 * n <= aligned && Valid() && blocks == old(blocks) + n
        invariant Emitted(E, w, Value(), out[..], n)
      {
        EmitStep(E, w, Value(), out[..], n);
        var block := NextBlock();
        Put(out, i, block);
        i, n := i + 16, n + 1;
      }
      if out.Length <= aligned {
        EmittedAll(E, w, Value(), out[..], n);
        return;
      }
      EmitRest(E, w, Value(), out[..], n);
      var spare := NextBlock();
      Put(out, aligned, spare[..out.Length - aligned]);
    }

    /** Key and V are replaced. */
    method Update(data: seq<byte>) returns (ok: bool)
      requires Valid() && ready
      modifies v, `key, `bytesUsed, `blocks
      ensures Valid() && ok == (|data| == D.SeedSize(old(Value())))
      ensures ok ==> Value() == D.Update(E, old(Value()), data) && blocks == old(blocks) + D.Blocks(|data|)
      ensures !ok ==> Value() == old(Value()) && blocks == old(blocks)
    {
      hide Pow256, D.Bits, D.Blocks, Val;
      var size := D.BLOCK + |key|;
      var temp := new byte[size](_ => 0);
      if |data| != size { return false; }
      Bits(temp);
      XorInto(temp, data);
      var keySize := |key|;
      key := temp[..keySize];
      Put(v, 0, temp[keySize..]);
      assert v[..] == temp[keySize..];
      return true;
    }

    method MixInEntropy(entropy: array<byte>, ps: seq<byte>) returns (ok: bool)
      requires Valid() && ready && entropy != v
      modifies v, `key, `bytesUsed, `blocks, entropy
      ensures Valid() && ok == (|ps| <= entropy.Length == D.SeedSize(old(Value())))
      ensures ok ==> Value() == D.Update(E, old(Value()), XorFront(old(entropy[..]), ps))
      ensures ok ==> blocks == old(blocks) + D.Blocks(entropy.Length)
      ensures !ok ==> Value() == old(Value()) && blocks == old(blocks)
    {
      hide D.Update, Generator.Value;
      if entropy.Length < |ps| { return false; }
      XorInto(entropy, ps);
      ok := Update(entropy[..]);
    }

    /** Mixes in fresh entropy; none comes when its source fails. */
    method Seed(ps: seq<byte>, entropy: Option<seq<byte>>) returns (ok: bool)
      requires Valid() && ready && |ps| == D.SeedSize(Value())
      requires entropy.Some? ==> |entropy.value| == D.SeedSize(Value())
      modifies v, `key, `bytesUsed, `blocks
      ensures Valid() && ok == entropy.Some?
      ensures ok ==> Value() == D.Update(E, old(Value()), XorSeq(entropy.value, ps)) && bytesUsed == blocks == 0
      ensures !ok ==> Value() == old(Value()) && blocks == old(blocks)
    {
      hide D.Update, Generator.Value;
      if entropy.None? { return false; }
      var blob := FromSeq(entropy.value);
      ok := MixInEntropy(blob, ps);
      hide XorSeq, XorFront;
      bytesUsed, blocks := 0, 0;
    }

    method Mix(ps: seq<byte>, entropy: Option<seq<byte>>) returns (ok: bool)
      requires Valid() && ready && |ps| == D.SeedSize(Value())
      requires entropy.Some? ==> |entropy.value| == D.SeedSize(Value())
      modifies v, `key, `bytesUsed, `blocks, `mixes
      ensures Valid() && ok == entropy.Some?
      ensures ok ==> Value() == D.Update(E, old(Value()), XorSeq(entropy.value, ps))
      ensures ok ==> blocks == old(blocks) + D.Blocks(|ps|) && mixes == (old(mixes) + 1) % TWO_64
      ensures !ok ==> Value() == old(Value()) && blocks == old(blocks) && mixes == old(mixes)
    {
      hide D.Update, Generator.Value;
      if entropy.None? { return false; }
      var blob := FromSeq(entropy.value);
      ok := MixInEntropy(blob, ps);
      mixes := (mixes + 1) % TWO_64;
    }

    method Instantiate(ps: seq<byte>, mode: Mode, entropy: Option<seq<byte>>) returns (ok: bool)
      requires Faithful() && (entropy.Some? ==> |entropy.value| == D.BLOCK + KeySize(mode))
      modifies this, v
      ensures Faithful() && ready && ok == entropy.Some?
      ensures run == old(run) + [D.Started(KeySize(mode), entropy, ps)]
    {
      hide D.Update, Pow256, Val, D.Replay, D.Spent, D.Fit, XorSeq;
      D.ReplayStarted(E, run, KeySize(mode), entropy, ps);
      ready := true;
      Set(v, 0, 0, D.BLOCK);
      key := Fill(0, KeySize(mode));
      ZerosVal(v[..]);
      var seed := Fitted(ps, D.BLOCK + KeySize(mode));
      ok := Seed(seed[..], entropy);
      run := run + [D.Started(KeySize(mode), entropy, ps)];
    }

    /** Reseeds, takes the bits, and updates: the bits are those of the standard after the same run. */
    method Generate(out: array<byte>, entropy: Option<seq<byte>>) returns (ok: bool)
      requires Faithful() && out != v
      requires ready && entropy.Some? ==> |entropy.value| == D.SeedSize(Value())
      modifies this, v, out
      ensures Faithful() && ok == (ready && out.Length <= GENERATE_LIMIT && entropy.Some?)
      ensures ok ==> D.Replay(E, old(run)).Some? && run == old(run) + [D.Served(out.Length, entropy.value)]
      ensures ok ==> out[..] == D.Bits(E, D.Reseed(E, D.Replay(E, old(run)).value, entropy.value), out.Length)
      ensures !ok ==> run == old(run) && out[..] == old(out[..])
    {
      hide D.Update, D.Bits, D.Blocks, Generator.Value, Pow256, XorSeq, Fill, D.Replay, D.Spent;
      if !ready { return false; }
      var zeros := Fill(0, D.BLOCK + |key|);
      if out.Length > GENERATE_LIMIT { return false; }
      ok := Mix(zeros, entropy);
      if !ok { return; }
      Bits(out);
      ok := Update(zeros);
      D.ReplayServed(E, run, out.Length, entropy.value);
      run := run + [D.Served(out.Length, entropy.value)];
    }

    method Wipe()
      requires Faithful()
      modifies this, v
      ensures Faithful() && !ready && Value() == D.Working([], 0) && bytesUsed == mixes == 0
      ensures run == old(run) + [D.Wiped]
    {
      hide Val, Pow256, D.Instantiate, D.AfterGenerate, D.Reseed, D.Blocks;
      ready, key, bytesUsed, mixes, blocks := false, [], 0, 0, 0;
      Set(v, 0, 0, D.BLOCK);
      ZerosVal(v[..]);
      run := run + [D.Wiped];
    }
  }

  lemma {:induction false} ZerosVal(s: seq<byte>)
    ensures (forall i :: 0 <= i < |s| ==> s[i] == 0) ==> Val(s) == 0
  {
    if s != [] { ZerosVal(s[..|s| - 1]); }
  }

  /** A zeroed buffer with as much of the string as it takes. */
  method Fitted(ps: seq<byte>, size: nat) returns (a: array<byte>)
    ensures fresh(a) && a[..] == D.Fit(ps, size)
  {
    a := new byte[size](_ => 0);
    Put(a, 0, ps[..Min(size, |ps|)]);
    assert a[..] == D.Fit(ps, size);
  }

  method FromSeq(s: seq<byte>) returns (a: array<byte>)
    ensures fresh(a) && a[..] == s
  {
    a := new byte[|s|](i requires 0 <= i < |s| => s[i]);
  }

  /** The first `n` blocks of `out` are key stream, and V has been counted that far. */
  ghost predicate Emitted(e: D.BlockCipher, w: D.Working, now: D.Working, out: seq<byte>, n: nat) {
    now == D.Advance(w, n) && 16 * n <= |out| && out[..16 * n] == D.KeyStream(e, w, n)
  }

  lemma Started(e: D.BlockCipher, w: D.Working, out: seq<byte>)
    requires w.v < D.Turn()
    ensures Emitted(e, w, w, out, 0)
  {
    hide Pow256;
    Wrapped(w.v, D.Turn());
  }

  lemma AdvanceOn(w: D.Working, n: nat)
    ensures D.Advance(D.Advance(w, n), 1) == D.Advance(w, n + 1)
    ensures D.CounterBlock(D.Advance(w, n).v + 1) == D.CounterBlock(w.v + n + 1)
  {
    hide Pow256, BE;
    D.ModAdd(w.v + n, 1, D.Turn());
  }

  /** One more block. */
  lemma EmitStep(e: D.BlockCipher, w: D.Working, now: D.Working, out: seq<byte>, n: nat)
    requires Emitted(e, w, now, out, n) && 16 * n + 16 <= |out|
    ensures var block := e(w.key, D.CounterBlock(now.v + 1));
            Emitted(e, w, D.Advance(now, 1), Splice(out, 16 * n, block), n + 1)
    ensures now.key == w.key
  {
    AdvanceOn(w, n);
    hide D.CounterBlock, Pow256;
    var block := e(w.key, D.CounterBlock(now.v + 1));
    assert Splice(out, 16 * n, block)[..16 * n + 16] == out[..16 * n] + block;
  }

  lemma EmittedAll(e: D.BlockCipher, w: D.Working, now: D.Working, out: seq<byte>, n: nat)
    requires Emitted(e, w, now, out, n) && |out| == 16 * n
    ensures n == D.Blocks(|out|) && now == D.Advance(w, n) && out == D.Bits(e, w, |out|)
  {
    hide D.KeyStream, D.Advance;
    assert out[..16 * n] == out;
  }

  /** The last block, of which only the beginning is used. */
  lemma EmitRest(e: D.BlockCipher, w: D.Working, now: D.Working, out: seq<byte>, n: nat)
    requires Emitted(e, w, now, out, n) && 16 * n < |out| < 16 * n + 16
    ensures var block := e(w.key, D.CounterBlock(now.v + 1));
            && D.Blocks(|out|) == n + 1 && D.Advance(now, 1) == D.Advance(w, n + 1)
            && Splice(out, 16 * n, block[..|out| - 16 * n]) == D.Bits(e, w, |out|)
    ensures now.key == w.key
  {
    AdvanceOn(w, n);
    hide D.CounterBlock, Pow256;
    var block := e(w.key, D.CounterBlock(now.v + 1));
    var rest := |out| - 16 * n;
    assert D.KeyStream(e, w, n + 1) == D.KeyStream(e, w, n) + block;
    assert Splice(out, 16 * n, block[..rest]) == out[..16 * n] + block[..rest];
  }

  lemma UsedSteps(n: nat)
    ensures (16 * n % TWO_64 + 16) % TWO_64 == 16 * (n + 1) % TWO_64
  {
  }
}
