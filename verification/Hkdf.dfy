/** Key derivation: extract and expand of RFC 5869, and the labelled expansion of TLS 1.3. */
module Hkdf {
  import opened Bytes
  import opened Memory
  import opened Hash
  import opened Hmac

  const MAX_ROUNDS: nat := 255
  const MAX_DIGEST: nat := 64

  /** T(i) of section 2.3 of RFC 5869. */
  function T(h: HashFn, a: HmacAlg, prk: seq<byte>, info: seq<byte>, i: nat): (t: seq<byte>)
    ensures |t| == if i == 0 then 0 else HmacDigestSize(a)
  {
    if i == 0 then [] else MacOf(h, a, prk, T(h, a, prk, info, i - 1) + info + [i % 256])
  }

  /** T(1) | ... | T(n). */
  function Stream(h: HashFn, a: HmacAlg, prk: seq<byte>, info: seq<byte>, n: nat): (s: seq<byte>)
    ensures |s| == n * HmacDigestSize(a)
  {
    if n == 0 then []
    else
      MulStep(n, HmacDigestSize(a));
      Stream(h, a, prk, info, n - 1) + T(h, a, prk, info, n)
  }

  lemma MulStep(n: nat, d: nat)
    ensures n * d == (n - 1) * d + d
  {
  }

  /** The least number of rounds that yields `size` bytes. */
  function Rounds(a: HmacAlg, size: nat): (n: nat)
    requires a != NoHmac
    ensures (n - 1) * HmacDigestSize(a) < size <= n * HmacDigestSize(a) || n == size == 0
  {
    var d := HmacDigestSize(a);
    size / d + if size % d != 0 then 1 else 0
  }

  /** Output keying material of `size` bytes. */
  function Okm(h: HashFn, a: HmacAlg, prk: seq<byte>, info: seq<byte>, size: nat): (r: seq<byte>)
    requires a != NoHmac
    ensures |r| == size
  {
    Stream(h, a, prk, info, Rounds(a, size))[..size]
  }

  lemma {:induction false} StreamPrefix(h: HashFn, a: HmacAlg, prk: seq<byte>, info: seq<byte>, m: nat, n: nat)
    requires m <= n
    ensures Stream(h, a, prk, info, m) <= Stream(h, a, prk, info, n)
  {
    hide T;
    if m < n {
      StreamPrefix(h, a, prk, info, m, n - 1);
      var s := Stream(h, a, prk, info, n - 1);
      assert s <= Stream(h, a, prk, info, n);
    }
  }

  /** Block `i` of a string cut into blocks of `d` bytes; the last may be short. */
  function Piece(s: seq<byte>, i: nat, d: nat): seq<byte> { Part(s, i * d, d) }

  function Part(s: seq<byte>, at: nat, d: nat): seq<byte> { s[Min(at, |s|)..Min(at + d, |s|)] }

  lemma {:induction false} StreamPiece(h: HashFn, a: HmacAlg, prk: seq<byte>, info: seq<byte>, n: nat, i: nat, d: nat)
    requires i < n && d == HmacDigestSize(a)
    ensures Piece(Stream(h, a, prk, info, n), i, d) == T(h, a, prk, info, i + 1)
  {
    hide *;
    StreamUnfolds(h, a, prk, info, n - 1);
    var s, t := Stream(h, a, prk, info, n - 1), T(h, a, prk, info, n);
    if i == n - 1 {
      LastPiece(s, t, i, d);
    } else {
      StreamPiece(h, a, prk, info, n - 1, i, d);
      OneMoreFits(i, n - 1, d);
      EarlyPiece(s, t, i, d);
    }
  }

  lemma OneMoreFits(i: nat, n: nat, d: nat)
    requires i < n
    ensures i * d + d <= n * d
  {
    MulGrows(i + 1, n, d);
  }

  lemma LastPiece(s: seq<byte>, t: seq<byte>, i: nat, d: nat)
    requires |s| == i * d && |t| == d
    ensures Piece(s + t, i, d) == t
  {
  }

  lemma EarlyPiece(s: seq<byte>, t: seq<byte>, i: nat, d: nat)
    requires i * d + d <= |s|
    ensures Piece(s + t, i, d) == Piece(s, i, d)
  {
  }

  /** Each block of the output is the keyed hash over the block before it, the info and its number from 1 on, without
      a block before it for the first; the last block may be cut short. */
  lemma OkmBlock(h: HashFn, a: HmacAlg, prk: seq<byte>, info: seq<byte>, size: nat, i: nat, d: nat)
    requires a != NoHmac && d == HmacDigestSize(a) && i < 255 && i * d < size
    ensures var out := Okm(h, a, prk, info, size);
            var before := if i == 0 then [] else Piece(out, i - 1, d);
            Piece(out, i, d) <= MacOf(h, a, prk, before + info + [i + 1])
  {
    hide T, Stream, MacOf, HmacDigestSize, Rounds, Piece;
    BlockIsNeeded(a, size, i, d);
    TUnfolds(h, a, prk, info, i + 1);
    var n := Rounds(a, size);
    var s := Stream(h, a, prk, info, n);
    StreamPiece(h, a, prk, info, n, i, d);
    CutPiece(s, i, d, size);
    if i > 0 {
      StreamPiece(h, a, prk, info, n, i - 1, d);
      WholePiece(s, i - 1, d, size);
    }
  }

  lemma BlockIsNeeded(a: HmacAlg, size: nat, i: nat, d: nat)
    requires a != NoHmac && d == HmacDigestSize(a) && i * d < size
    ensures i < Rounds(a, size)
  {
    MulGrows(Rounds(a, size), i, d);
  }

  lemma CutPiece(s: seq<byte>, i: nat, d: nat, size: nat)
    requires i * d < size <= |s|
    ensures Piece(s[..size], i, d) <= Piece(s, i, d)
  {
    hide Part;
    CutAt(s, i * d, d, size);
  }

  lemma CutAt(s: seq<byte>, at: nat, d: nat, size: nat)
    requires at < size <= |s|
    ensures Part(s[..size], at, d) <= Part(s, at, d)
  {
    var cut, end := Min(at + d, size), Min(at + d, |s|);
    assert s[..size][at..cut] == s[at..cut] == s[at..end][..cut - at];
  }

  lemma WholePiece(s: seq<byte>, i: nat, d: nat, size: nat)
    requires (i + 1) * d < size <= |s|
    ensures Piece(s[..size], i, d) == Piece(s, i, d)
  {
    assert (i + 1) * d == i * d + d;
  }

  lemma MulGrows(m: int, n: int, d: nat)
    ensures m <= n ==> m * d <= n * d
  {
  }

  lemma RoundsLeast(a: HmacAlg, size: nat, n: nat)
    requires a != NoHmac && size <= n * HmacDigestSize(a)
    ensures Rounds(a, size) <= n
  {
    MulGrows(n, Rounds(a, size) - 1, HmacDigestSize(a));
  }

  /** A shorter output is the beginning of a longer one. */
  lemma ShorterIsPrefix(h: HashFn, a: HmacAlg, prk: seq<byte>, info: seq<byte>, m: nat, n: nat)
    requires a != NoHmac && m <= n
    ensures Okm(h, a, prk, info, m) <= Okm(h, a, prk, info, n)
  {
    RoundsLeast(a, m, Rounds(a, n));
    hide Stream, Rounds;
    StreamPrefix(h, a, prk, info, Rounds(a, m), Rounds(a, n));
  }

  /** Without a salt, a string of zeros as long as a digest is meant, by section 2.2 of RFC 5869. */
  lemma EmptySaltIsZeros(h: HashFn, a: HmacAlg, key: seq<byte>)
    requires !IsSslv3(a)
    ensures MacOf(h, a, [], key) == MacOf(h, a, Fill(0, HmacDigestSize(a)), key)
  {
    var n := HmacDigestSize(a);
    assert BlockKey(h, a, []) == Fill(0, HmacBlockSize(a));
    assert BlockKey(h, a, Fill(0, n)) == Fill(0, HmacBlockSize(a));
  }

  // ---------------------------------------------------------------- the methods

  /** An open keyed hash with this data in it. */
  predicate Holds(m: Mac, a: HmacAlg, key: seq<byte>, data: seq<byte>) {
    m.Mac? && m.alg == a && m.key == key && m.inner == Open(data)
  }

  lemma UpdateHolds(h: HashFn, m: Mac, a: HmacAlg, key: seq<byte>, data: seq<byte>, more: seq<byte>)
    requires Holds(m, a, key, data) && |key| <= MAX_U32 && |data| <= MAX_U32
    ensures var r := AfterUpdate(h, m, more);
            (r.ok <==> |more| <= MAX_CHUNK) && (r.ok ==> Holds(r.mac, a, key, data + more))
  {
    hide Prefix;
  }

  lemma DigestHolds(h: HashFn, m: Mac, a: HmacAlg, key: seq<byte>, data: seq<byte>, size: nat)
    requires Holds(m, a, key, data)
    ensures var r := AfterDigest(h, m, size);
            && r.mac.Mac? && r.mac.alg == a && r.mac.key == key
            && (r.ok <==> size == HmacDigestSize(a)) && (r.ok ==> r.out == MacOf(h, a, key, data))
  {
    hide Prefix, Finish;
  }

  method Extract(hmac: HmacState, a: HmacAlg, salt: seq<byte>, key: seq<byte>, capacity: nat)
    returns (ok: bool, prk: seq<byte>)
    requires hmac.Valid() && |salt| <= MAX_U32 && |key| <= MAX_U32
    modifies hmac.Footprint()
    ensures hmac.Valid()
    ensures ok <==> HmacDigestSize(a) <= capacity && |key| <= MAX_CHUNK
    ensures ok ==> prk == MacOf(hmac.H, a, salt, key) && hmac.mac == Start(hmac.H, a, salt)
  {
    hide HmacState.Valid, AfterUpdate, AfterDigest, MacOf;
    if HmacDigestSize(a) > capacity { return false, []; }
    hmac.Init(a, salt);
    UpdateHolds(hmac.H, hmac.mac, a, salt, [], key);
    ok := hmac.Update(key);
    if !ok { return false, []; }
    assert [] + key == key;
    DigestHolds(hmac.H, hmac.mac, a, salt, key, HmacDigestSize(a));
    ok, prk := hmac.Digest(HmacDigestSize(a));
    ok := hmac.Reset();
  }

  /** One round of the expansion: the previous block except in the first, the info and the round number. */
  method ExpandRound(hmac: HmacState, a: HmacAlg, prk: seq<byte>, prev: seq<byte>, info: seq<byte>, round: nat)
    returns (ok: bool, t: seq<byte>)
    requires hmac.Valid() && |prk| <= MAX_U32 && |info| <= MAX_U32 && 1 <= round <= MAX_ROUNDS
    requires |prev| == HmacDigestSize(a)
    modifies hmac.Footprint()
    ensures hmac.Valid()
    ensures ok <==> |info| <= MAX_CHUNK
    ensures ok ==> t == MacOf(hmac.H, a, prk, (if round == 1 then [] else prev) + info + [round])
  {
    hide HmacState.Valid, AfterUpdate, AfterDigest, MacOf;
    hmac.Init(a, prk);
    ghost var data: seq<byte> := [];
    if round != 1 {
      UpdateHolds(hmac.H, hmac.mac, a, prk, data, prev);
      ok := hmac.Update(prev);
      data := prev;
      assert [] + prev == prev;
    }
    UpdateHolds(hmac.H, hmac.mac, a, prk, data, info);
    ok := hmac.Update(info);
    if !ok { return false, []; }
    UpdateHolds(hmac.H, hmac.mac, a, prk, data + info, [round]);
    ok := hmac.Update([round]);
    DigestHolds(hmac.H, hmac.mac, a, prk, data + info + [round], HmacDigestSize(a));
    ok, t := hmac.Digest(HmacDigestSize(a));
    ok := hmac.Reset();
  }

  /** Whether so much output can be had. */
  predicate Expandable(a: HmacAlg, info: seq<byte>, size: nat) {
    a != NoHmac && 1 <= size <= MAX_ROUNDS * HmacDigestSize(a) && |info| <= MAX_CHUNK
  }

  /** The output is filled with the first blocks of the stream, the last one cut short. */
  ghost predicate Filled(h: HashFn, a: HmacAlg, prk: seq<byte>, info: seq<byte>, out: seq<byte>, done: nat, round: nat) {
    && done == Min(round * HmacDigestSize(a), |out|)
    && out[..done] == Stream(h, a, prk, info, round)[..done]
  }

  lemma NotYetFull(a: HmacAlg, size: nat, round: nat)
    requires a != NoHmac && round < Rounds(a, size)
    ensures round * HmacDigestSize(a) < size && (round + 1) * HmacDigestSize(a) == round * HmacDigestSize(a) + HmacDigestSize(a)
  {
    MulGrows(round, Rounds(a, size) - 1, HmacDigestSize(a));
  }

  /** What of a block still fits. */
  function Chunk(a: HmacAlg, size: nat, done: nat): (n: nat)
    requires done <= size
    ensures n <= HmacDigestSize(a) && done + n == Min(done + HmacDigestSize(a), size)
  {
    if done + HmacDigestSize(a) > size then size - done else HmacDigestSize(a)
  }

  lemma FilledStep(h: HashFn, a: HmacAlg, prk: seq<byte>, info: seq<byte>, out: seq<byte>, done: nat, round: nat)
    requires Filled(h, a, prk, info, out, done, round) && a != NoHmac && round < Rounds(a, |out|)
    ensures done <= |out|
    ensures var n := Chunk(a, |out|, done);
            Filled(h, a, prk, info, Splice(out, done, T(h, a, prk, info, round + 1)[..n]), done + n, round + 1)
  {
    hide T, HmacDigestSize, Rounds, Stream, Chunk, Splice;
    NotYetFull(a, |out|, round);
    StreamUnfolds(h, a, prk, info, round);
    var s := Stream(h, a, prk, info, round);
    assert done == |s| && s[..done] == s;
    AppendCut(out, s, T(h, a, prk, info, round + 1), Chunk(a, |out|, done));
  }

  lemma StreamUnfolds(h: HashFn, a: HmacAlg, prk: seq<byte>, info: seq<byte>, n: nat)
    ensures Stream(h, a, prk, info, n + 1) == Stream(h, a, prk, info, n) + T(h, a, prk, info, n + 1)
  {
    hide T;
  }

  lemma AppendCut(out: seq<byte>, s: seq<byte>, t: seq<byte>, n: nat)
    requires n <= |t| && |s| + n <= |out| && out[..|s|] == s
    ensures Splice(out, |s|, t[..n])[..|s| + n] == (s + t)[..|s| + n]
  {
    assert Splice(out, |s|, t[..n])[..|s| + n] == s + t[..n];
  }

  lemma FilledEnds(h: HashFn, a: HmacAlg, prk: seq<byte>, info: seq<byte>, out: seq<byte>)
    requires a != NoHmac
    ensures Filled(h, a, prk, info, out, 0, 0)
    ensures forall done :: Filled(h, a, prk, info, out, done, Rounds(a, |out|)) ==> out == Okm(h, a, prk, info, |out|)
  {
    hide Stream;
    assert out[..|out|] == out;
  }

  lemma TUnfolds(h: HashFn, a: HmacAlg, prk: seq<byte>, info: seq<byte>, i: nat)
    requires 1 <= i < 256
    ensures T(h, a, prk, info, i) == MacOf(h, a, prk, T(h, a, prk, info, i - 1) + info + [i])
    ensures T(h, a, prk, info, 0) == []
  {
    hide MacOf;
  }

  /** The rounds of the expansion, when there is some but not too much output to make. */
  method ExpandRounds(hmac: HmacState, a: HmacAlg, prk: seq<byte>, info: seq<byte>, output: array<byte>, total: nat)
    returns (ok: bool)
    requires hmac.Valid() && |prk| <= MAX_U32 && |info| <= MAX_U32 && output !in hmac.Footprint()
    requires a != NoHmac && 0 < total == Rounds(a, output.Length) <= MAX_ROUNDS
    modifies hmac.Footprint(), output
    ensures hmac.Valid() && (ok <==> |info| <= MAX_CHUNK)
    ensures output[..] == if ok then Okm(hmac.H, a, prk, info, output.Length) else old(output[..])
  {
    hide HmacState.Valid, T, Stream, Filled, Fill, Okm, MacOf, HmacDigestSize, Rounds, Splice;
    ghost var h := hmac.H;
    var d := HmacDigestSize(a);
    var prev, done := Fill(0, d), 0;
    FilledEnds(h, a, prk, info, output[..]);
    for round := 1 to total + 1
      invariant hmac.Valid() && |prev| == d && (round > 1 ==> prev == T(h, a, prk, info, round - 1))
      invariant Filled(h, a, prk, info, output[..], done, round - 1)
      invariant round > 1 ==> |info| <= MAX_CHUNK
      invariant round == 1 ==> output[..] == old(output[..])
    {
      ok, prev := ExpandRound(hmac, a, prk, prev, info, round);
      if !ok { return; }
      TUnfolds(h, a, prk, info, round);
      FilledStep(h, a, prk, info, output[..], done, round - 1);
      var n := d;
      if done + d > output.Length { n := output.Length - done; }
      Put(output, done, prev[..n]);
      done := done + n;
    }
    FilledEnds(h, a, prk, info, output[..]);
    return true;
  }

  lemma RoundsInRange(a: HmacAlg, size: nat)
    requires a != NoHmac
    ensures 1 <= Rounds(a, size) <= MAX_ROUNDS <==> 1 <= size <= MAX_ROUNDS * HmacDigestSize(a)
  {
    if size <= MAX_ROUNDS * HmacDigestSize(a) {
      RoundsLeast(a, size, MAX_ROUNDS);
    }
    MulGrows(Rounds(a, size), MAX_ROUNDS, HmacDigestSize(a));
  }

  method Expand(hmac: HmacState, a: HmacAlg, prk: seq<byte>, info: seq<byte>, output: array<byte>) returns (ok: bool)
    requires hmac.Valid() && |prk| <= MAX_U32 && |info| <= MAX_U32 && output.Length <= MAX_U32
    requires output !in hmac.Footprint()
    modifies hmac.Footprint(), output
    ensures hmac.Valid()
    ensures ok <==> Expandable(a, info, output.Length)
    ensures ok ==> output[..] == Okm(hmac.H, a, prk, info, output.Length)
    ensures !ok ==> output[..] == old(output[..])
  {
    hide HmacState.Valid, Okm;
    var d := HmacDigestSize(a);
    if d == 0 { return false; }
    var totalRounds := output.Length / d;
    if output.Length % d != 0 { totalRounds := totalRounds + 1; }
    RoundsInRange(a, output.Length);
    if totalRounds == 0 { return false; }
    if totalRounds > MAX_ROUNDS { return false; }
    ok := ExpandRounds(hmac, a, prk, info, output, totalRounds);
  }

  /** Extract, then expand. */
  method Derive(hmac: HmacState, a: HmacAlg, salt: seq<byte>, key: seq<byte>, info: seq<byte>, output: array<byte>)
    returns (ok: bool)
    requires hmac.Valid() && |salt| <= MAX_U32 && |key| <= MAX_U32 && |info| <= MAX_U32 && output.Length <= MAX_U32
    requires output !in hmac.Footprint()
    modifies hmac.Footprint(), output
    ensures hmac.Valid()
    ensures ok <==> |key| <= MAX_CHUNK && Expandable(a, info, output.Length)
    ensures ok ==> output[..] == Okm(hmac.H, a, MacOf(hmac.H, a, salt, key), info, output.Length)
    ensures !ok ==> output[..] == old(output[..])
  {
    hide HmacState.Valid, Okm, MacOf, Expandable;
    var prk;
    ok, prk := Extract(hmac, a, salt, key, MAX_DIGEST);
    if !ok { return; }
    ok := Expand(hmac, a, prk, info, output);
  }
}
