/** The SCRAM mode: encryption under a fresh random value, and its inverse. */
module Scram {
  import opened Bytes
  import opened Hash
  import opened Hmac

  const R_SIZE: nat := 32
  const T_SIZE: nat := 16

  /** What the libraries supply: hashes, key stream of a length, and an authenticator. The last two refuse
      some nonces and lengths. */
  datatype Library = Library(h: HashFn, ctr: Ctr, gmac: Gmac)

  type Ctr = f: (seq<byte>, seq<byte>, nat) -> Option<seq<byte>>
    | forall k, n, size :: f(k, n, size).Some? ==> |f(k, n, size).value| == size
    witness (k, n, size) => None

  type Gmac = f: (seq<byte>, seq<byte>, seq<byte>) -> Option<seq<byte>>
    | forall k, n, data :: f(k, n, data).Some? ==> |f(k, n, data).value| == T_SIZE
    witness (k, n, data) => None

  /** A number in `n` bytes, refused when it does not fit. */
  function ByteStr(v: int, n: nat): (r: Option<seq<byte>>)
    ensures r.Some? <==> 0 <= v < Pow256(n)
    ensures r.Some? ==> |r.value| == n && Val(r.value) == v
  {
    if 0 <= v < Pow256(n) then
      ValBE(v, n);
      Some(BE(v, n))
    else None
  }

  function Mac512(lib: Library, key: seq<byte>, s: seq<byte>): (u: seq<byte>)
    ensures |u| == 64
  {
    MacOf(lib.h, HmacSha512, key, s)
  }

  /** The input of the keyed hash: nonce, purpose, two lengths, T and R. */
  function Input(n: seq<byte>, purpose: nat, a: nat, m: nat, t: seq<byte>, r: seq<byte>): seq<byte> {
    n + BE(purpose, 4) + BE(a, 8) + BE(m, 8) + t + r
  }

  function Zeros(n: nat): seq<byte> { Fill(0, n) }

  /** Bytewise exclusive or as far as both strings go. */
  function XorZip(s: seq<byte>, t: seq<byte>): (r: seq<byte>)
    ensures |r| == Min(|s|, |t|)
  {
    var n := Min(|s|, |t|);
    XorSeq(s[..n], t[..n])
  }

  function Slice(s: seq<byte>, lo: nat, hi: nat): (r: seq<byte>)
    requires lo <= hi
    ensures |r| == Min(hi, |s|) - Min(lo, |s|)
  {
    s[Min(lo, |s|)..Min(hi, |s|)]
  }

  function PaddingLen(size: nat, frame: int): (p: nat)
    ensures frame > 0 ==> p < frame && (size + p) % frame == 0
    ensures frame <= 0 ==> p == 0
  {
    if frame > 0 then
      PaddingFills(size, frame);
      (frame - size) % frame
    else 0
  }

  lemma PaddingFills(size: nat, frame: nat)
    requires frame > 0
    ensures (size + (frame - size) % frame) % frame == 0
  {
    var p, q := (frame - size) % frame, (frame - size) / frame;
    assert frame - size == q * frame + p;
    assert size + p == (1 - q) * frame;
    Multiple(1 - q, frame);
  }

  lemma Multiple(k: int, frame: nat)
    requires frame > 0 && k * frame >= 0
    ensures (k * frame) % frame == 0
  {
    assert k < 0 ==> k * frame < 0;
    DivUnique(k * frame, frame, k, 0);
  }

  datatype Sealed = Sealed(c: seq<byte>, x: seq<byte>, tag: seq<byte>)

  datatype Outcome = Raised | Rejected | Message(m: seq<byte>)

  function EncryptionKey(lib: Library, key: seq<byte>, n: seq<byte>, r: seq<byte>): seq<byte> {
    Mac512(lib, key, Input(n, 1, 0, 0, Zeros(16), r))[..32]
  }

  function AuthenticationKey(lib: Library, key: seq<byte>, n: seq<byte>): seq<byte> {
    Mac512(lib, key, Input(n, 2, 0, 0, Zeros(16), Zeros(32)))[..32]
  }

  function Pad(lib: Library, key: seq<byte>, n: seq<byte>, t: seq<byte>): (u: seq<byte>)
    ensures |u| == 64
  {
    Mac512(lib, key, Input(n, 3, 0, 0, t, Zeros(32)))
  }

  function TagOf(lib: Library, key: seq<byte>, n: seq<byte>, a: nat, m: nat, t: seq<byte>, r: seq<byte>): seq<byte> {
    Mac512(lib, key, Input(n, 4, a, m, t, r))[..16]
  }

  function Crypt(stream: seq<byte>, s: seq<byte>): seq<byte>
    requires |stream| == |s|
  {
    XorSeq(stream, s)
  }

  function Encrypt(lib: Library, key: seq<byte>, n: seq<byte>, a: seq<byte>, m: seq<byte>, frame: int, r: seq<byte>)
    : Option<Sealed>
    requires |r| == R_SIZE
  {
    var padding := PaddingLen(|m|, frame);
    var paddingStr := ByteStr(padding, 2);
    var padded := m + Zeros(padding);
    var stream := lib.ctr(EncryptionKey(lib, key, n, r), n, |padded|);
    if paddingStr.None? || stream.None? then None
    else
      var c := Crypt(stream.value, padded);
      var t := lib.gmac(AuthenticationKey(lib, key, n), n, a + c);
      if t.None? then None
      else
        var u3 := Pad(lib, key, n, t.value);
        var x := XorZip(Slice(u3, 0, 32), r) + XorZip(Slice(u3, 32, 34), paddingStr.value);
        if ByteStr(|a|, 8).None? || ByteStr(|m|, 8).None? then None
        else Some(Sealed(c, x, TagOf(lib, key, n, |a|, |m|, t.value, r)))
  }

  function Decrypt(lib: Library, key: seq<byte>, n: seq<byte>, a: seq<byte>, s: Sealed): Outcome {
    var t := lib.gmac(AuthenticationKey(lib, key, n), n, a + s.c);
    if t.None? then Raised
    else
      var u3 := Pad(lib, key, n, t.value);
      var r := XorZip(Slice(u3, 0, 32), Slice(s.x, 0, 32));
      var size := |s.c| - Val(XorZip(Slice(u3, 32, 34), Slice(s.x, 32, 34)));
      if ByteStr(|a|, 8).None? || ByteStr(size, 8).None? then Raised
      else if s.tag != TagOf(lib, key, n, |a|, size, t.value, r) then Rejected
      else
        var stream := lib.ctr(EncryptionKey(lib, key, n, r), n, |s.c|);
        if stream.None? then Raised else Message(Crypt(stream.value, s.c)[..size])
  }

  /** The one-time pad comes off again. */
  lemma PadCancels(u: seq<byte>, r: seq<byte>, p: seq<byte>)
    requires |u| == 64 && |r| == R_SIZE && |p| == 2
    ensures var x := XorZip(Slice(u, 0, 32), r) + XorZip(Slice(u, 32, 34), p);
            XorZip(Slice(u, 0, 32), Slice(x, 0, 32)) == r && XorZip(Slice(u, 32, 34), Slice(x, 32, 34)) == p
  {
    var front, back := Slice(u, 0, 32), Slice(u, 32, 34);
    var y, z := XorZip(front, r), XorZip(back, p);
    assert front[..32] == front && back[..2] == back && r[..32] == r && p[..2] == p;
    assert Slice(y + z, 0, 32) == y && Slice(y + z, 32, 34) == z;
    assert y[..32] == y && z[..2] == z;
    XorSeqCancels(r, front);
    XorSeqCancels(p, back);
  }

  /** Decryption undoes encryption for every key, nonce, data, message, frame size and random value. */
  lemma DecryptInverts(lib: Library, key: seq<byte>, n: seq<byte>, a: seq<byte>, m: seq<byte>, frame: int, r: seq<byte>)
    requires |r| == R_SIZE
    ensures var s := Encrypt(lib, key, n, a, m, frame, r);
            s.Some? ==> Decrypt(lib, key, n, a, s.value) == Message(m)
  {
    var s := Encrypt(lib, key, n, a, m, frame, r);
    if s.Some? {
      hide Pad, EncryptionKey, AuthenticationKey, TagOf, XorZip, Slice, XorSeq, Val, BE, Pow256, PaddingLen;
      var padding := PaddingLen(|m|, frame);
      var padded := m + Zeros(padding);
      var t := lib.gmac(AuthenticationKey(lib, key, n), n, a + s.value.c).value;
      PadCancels(Pad(lib, key, n, t), r, ByteStr(padding, 2).value);
      var stream := lib.ctr(EncryptionKey(lib, key, n, r), n, |padded|).value;
      XorSeqCancels(padded, stream);
      assert padded[..|m|] == m;
    }
  }

  // ---------------------------------------------------------------- the inputs spelled out

  function S1(n: seq<byte>, r: seq<byte>): seq<byte> { n + [0, 0, 0, 1] + Fill(0, 8) + Fill(0, 8) + Fill(0, 16) + r }

  function S2(n: seq<byte>): seq<byte> { n + [0, 0, 0, 2] + Fill(0, 8) + Fill(0, 8) + Fill(0, 16) + Fill(0, 32) }

  function S3(n: seq<byte>, t: seq<byte>): seq<byte> { n + [0, 0, 0, 3] + Fill(0, 8) + Fill(0, 8) + t + Fill(0, 32) }

  function S4(n: seq<byte>, a: nat, m: nat, t: seq<byte>, r: seq<byte>): seq<byte> {
    n + [0, 0, 0, 4] + BE(a, 8) + BE(m, 8) + t + r
  }

  lemma FourBytes(i: byte)
    ensures BE(i, 4) == [0, 0, 0, i]
  {
    var v: nat := i;
    assert v / 256 == 0 && v % 256 == i;
    assert BE(0, 1) == BE(0, 0) + [0] && BE(0, 2) == BE(0, 1) + [0] && BE(0, 3) == BE(0, 2) + [0];
    assert BE(v, 4) == BE(0, 3) + [i];
  }

  lemma {:induction false} ZeroBytes(n: nat)
    ensures BE(0, n) == Fill(0, n)
  {
    if n > 0 { ZeroBytes(n - 1); }
  }

  lemma InputsSpelled(n: seq<byte>, a: nat, m: nat, t: seq<byte>, r: seq<byte>)
    ensures Input(n, 1, 0, 0, Zeros(16), r) == S1(n, r)
    ensures Input(n, 2, 0, 0, Zeros(16), Zeros(32)) == S2(n)
    ensures Input(n, 3, 0, 0, t, Zeros(32)) == S3(n, t)
    ensures Input(n, 4, a, m, t, r) == S4(n, a, m, t, r)
  {
    hide BE, Fill;
    FourBytes(1);
    FourBytes(2);
    FourBytes(3);
    FourBytes(4);
    ZeroBytes(8);
  }

  function Hmac512(lib: Library, key: seq<byte>, s: seq<byte>): (u: seq<byte>)
    ensures |u| == 64
  {
    Rfc2104(lib.h, HmacSha512, key, s)
  }

  /** What encryption under a random value returns, written out: the key stream of the first key over the message
      and its padding; the one-time pad over the random value and the length of the padding; and the tag. */
  ghost predicate SealedAs(lib: Library, key: seq<byte>, n: seq<byte>, a: seq<byte>, m: seq<byte>, padding: nat, r: seq<byte>,
                           s: Sealed)
    requires |r| == 32 && padding < 0x1_0000
  {
    var stream := lib.ctr(Hmac512(lib, key, S1(n, r))[..32], n, |m| + padding);
    var t := lib.gmac(Hmac512(lib, key, S2(n))[..32], n, a + s.c);
    && stream.Some? && t.Some?
    && s.c == XorSeq(stream.value, m + Fill(0, padding))
    && (var u := Hmac512(lib, key, S3(n, t.value));
        s.x == XorSeq(u[..32], r) + XorSeq(u[32..34], BE(padding, 2)))
    && s.tag == Hmac512(lib, key, S4(n, |a|, |m|, t.value, r))[..16]
  }

  lemma EncryptSpelled(lib: Library, key: seq<byte>, n: seq<byte>, a: seq<byte>, m: seq<byte>, frame: int, r: seq<byte>)
    requires |r| == R_SIZE && Encrypt(lib, key, n, a, m, frame, r).Some?
    ensures PaddingLen(|m|, frame) < 0x1_0000
    ensures SealedAs(lib, key, n, a, m, PaddingLen(|m|, frame), r, Encrypt(lib, key, n, a, m, frame, r).value)
  {
    hide EncryptionKey, AuthenticationKey, Pad, TagOf, Hmac512, S1, S2, S3, S4, XorSeq, XorZip, Slice, BE, Val, Pow256, PaddingLen;
    Pow256Values();
    var s, padding := Encrypt(lib, key, n, a, m, frame, r).value, PaddingLen(|m|, frame);
    var t := lib.gmac(AuthenticationKey(lib, key, n), n, a + s.c).value;
    KeysSpelled(lib, key, n, |a|, |m|, t, r);
    PadSpelled(Pad(lib, key, n, t), r, BE(padding, 2));
  }

  lemma PadSpelled(u: seq<byte>, r: seq<byte>, p: seq<byte>)
    requires |u| == 64 && |r| == 32 && |p| == 2
    ensures XorZip(Slice(u, 0, 32), r) == XorSeq(u[..32], r) && XorZip(Slice(u, 32, 34), p) == XorSeq(u[32..34], p)
  {
    assert Slice(u, 0, 32)[..32] == u[..32] && Slice(u, 32, 34)[..2] == u[32..34] && r[..32] == r && p[..2] == p;
  }

  /** With the one-time pad that the authenticator of data and ciphertext gives, X decrypts to a random value and a
      padding length; the message is the ciphertext less the padding, decrypted under the key of the random value;
      and the tag is the keyed hash over the authenticator, both lengths and the random value. */
  ghost predicate Authentic(lib: Library, key: seq<byte>, n: seq<byte>, a: seq<byte>, s: Sealed, m: seq<byte>,
                            r: seq<byte>, p: seq<byte>) {
    var t := lib.gmac(Hmac512(lib, key, S2(n))[..32], n, a + s.c);
    var stream := lib.ctr(Hmac512(lib, key, S1(n, r))[..32], n, |s.c|);
    && t.Some? && stream.Some?
    && |r| == Min(|s.x|, 32) && |r| + |p| == Min(|s.x|, 34)
    && (var u := Hmac512(lib, key, S3(n, t.value));
        XorSeq(u[..|r| + |p|], s.x[..|r| + |p|]) == r + p)
    && |a| <= MAX_U64 && |m| <= MAX_U64 && |m| + Val(p) == |s.c| && m == XorSeq(stream.value, s.c)[..|m|]
    && s.tag == Hmac512(lib, key, S4(n, |a|, |m|, t.value, r))[..16]
  }

  /** Exactly the authentic messages are returned. */
  lemma DecryptAuthenticates(lib: Library, key: seq<byte>, n: seq<byte>, a: seq<byte>, s: Sealed, m: seq<byte>)
    ensures Decrypt(lib, key, n, a, s) == Message(m) <==> exists r, p :: Authentic(lib, key, n, a, s, m, r, p)
  {
    hide Decrypt, Authentic;
    if Decrypt(lib, key, n, a, s) == Message(m) {
      ReturnedIsAuthentic(lib, key, n, a, s, m);
    }
    if r, p :| Authentic(lib, key, n, a, s, m, r, p) {
      AuthenticIsReturned(lib, key, n, a, s, m, r, p);
    }
  }

  /** The keys and the pad, written out. */
  lemma KeysSpelled(lib: Library, key: seq<byte>, n: seq<byte>, a: nat, m: nat, t: seq<byte>, r: seq<byte>)
    ensures EncryptionKey(lib, key, n, r) == Hmac512(lib, key, S1(n, r))[..32]
    ensures AuthenticationKey(lib, key, n) == Hmac512(lib, key, S2(n))[..32]
    ensures Pad(lib, key, n, t) == Hmac512(lib, key, S3(n, t))
    ensures TagOf(lib, key, n, a, m, t, r) == Hmac512(lib, key, S4(n, a, m, t, r))[..16]
  {
    InputsSpelled(n, a, m, t, r);
    MacIsRfc2104(lib.h, HmacSha512, key, S1(n, r));
    MacIsRfc2104(lib.h, HmacSha512, key, S2(n));
    MacIsRfc2104(lib.h, HmacSha512, key, S3(n, t));
    MacIsRfc2104(lib.h, HmacSha512, key, S4(n, a, m, t, r));
    hide Input, S1, S2, S3, S4, Rfc2104, MacOf;
  }

  lemma ReturnedIsAuthentic(lib: Library, key: seq<byte>, n: seq<byte>, a: seq<byte>, s: Sealed, m: seq<byte>)
    requires Decrypt(lib, key, n, a, s) == Message(m)
    ensures exists r, p :: Authentic(lib, key, n, a, s, m, r, p)
  {
    hide Hmac512, EncryptionKey, AuthenticationKey, Pad, TagOf, S1, S2, S3, S4, XorSeq, XorZip, Slice, Val, Pow256, BE;
    Pow256Values();
    var t := lib.gmac(AuthenticationKey(lib, key, n), n, a + s.c).value;
    var u := Pad(lib, key, n, t);
    var r, p := XorZip(Slice(u, 0, 32), Slice(s.x, 0, 32)), XorZip(Slice(u, 32, 34), Slice(s.x, 32, 34));
    PadApplies(u, s.x);
    KeysSpelled(lib, key, n, |a|, |m|, t, r);
    assert Authentic(lib, key, n, a, s, m, r, p);
  }

  lemma AuthenticIsReturned(lib: Library, key: seq<byte>, n: seq<byte>, a: seq<byte>, s: Sealed, m: seq<byte>,
                            r: seq<byte>, p: seq<byte>)
    requires Authentic(lib, key, n, a, s, m, r, p)
    ensures Decrypt(lib, key, n, a, s) == Message(m)
  {
    hide Hmac512, EncryptionKey, AuthenticationKey, Pad, TagOf, S1, S2, S3, S4, XorSeq, XorZip, Slice, Val, Pow256, BE;
    Pow256Values();
    var t := lib.gmac(Hmac512(lib, key, S2(n))[..32], n, a + s.c).value;
    KeysSpelled(lib, key, n, |a|, |m|, t, r);
    var u := Pad(lib, key, n, t);
    PadApplies(u, s.x);
    SameParts(r, p, XorZip(Slice(u, 0, 32), Slice(s.x, 0, 32)), XorZip(Slice(u, 32, 34), Slice(s.x, 32, 34)));
  }

  lemma SameParts(r: seq<byte>, p: seq<byte>, r': seq<byte>, p': seq<byte>)
    requires r + p == r' + p' && |r| == |r'|
    ensures r == r' && p == p'
  {
    assert (r + p)[..|r|] == r && (r' + p')[..|r|] == r' && (r + p)[|r|..] == p && (r' + p')[|r|..] == p';
  }

  lemma PadApplies(u: seq<byte>, x: seq<byte>)
    requires |u| == 64
    ensures var r := XorZip(Slice(u, 0, 32), Slice(x, 0, 32));
            var p := XorZip(Slice(u, 32, 34), Slice(x, 32, 34));
            |r| == Min(|x|, 32) && |r| + |p| == Min(|x|, 34) && XorSeq(u[..|r| + |p|], x[..|r| + |p|]) == r + p
  {
  }

  /** The ciphertext is the least whole number of frames that holds the message; without frames it has its size. */
  lemma CiphertextSize(lib: Library, key: seq<byte>, n: seq<byte>, a: seq<byte>, m: seq<byte>, frame: int, r: seq<byte>)
    requires |r| == R_SIZE && Encrypt(lib, key, n, a, m, frame, r).Some?
    ensures var size := |Encrypt(lib, key, n, a, m, frame, r).value.c|;
            && (frame > 0 ==> size % frame == 0 && |m| <= size < |m| + frame)
            && (frame <= 0 ==> size == |m|)
  {
    hide Pad, EncryptionKey, AuthenticationKey, TagOf, XorZip, Slice, Val, BE, Pow256, ByteStr;
  }

  /** When the libraries refuse nothing and the lengths fit eight bytes, encryption is refused exactly when the
      length of the padding does not fit two bytes; frames of up to 65536 bytes are never refused. */
  lemma EncryptSucceeds(lib: Library, key: seq<byte>, n: seq<byte>, a: seq<byte>, m: seq<byte>, frame: int, r: seq<byte>)
    requires |r| == R_SIZE && |a| <= MAX_U64 && |m| <= MAX_U64
    requires forall k, size :: lib.ctr(k, n, size).Some?
    requires forall k, data :: lib.gmac(k, n, data).Some?
    ensures Encrypt(lib, key, n, a, m, frame, r).Some? <==> PaddingLen(|m|, frame) <= 65535
    ensures frame <= 65536 ==> Encrypt(lib, key, n, a, m, frame, r).Some?
  {
    hide Pad, EncryptionKey, AuthenticationKey, TagOf, XorZip, Slice, Val, BE;
    Pow256Values();
  }

  /** Inputs of the keyed hash with nonces of one size agree only when they agree in every part; so the four
      purposes never share an input. */
  lemma InputInjective(n: seq<byte>, i: nat, a: nat, m: nat, t: seq<byte>, r: seq<byte>,
                       n': seq<byte>, i': nat, a': nat, m': nat, t': seq<byte>, r': seq<byte>)
    requires |n| == |n'| && |t| == |t'| && i <= MAX_U32 && i' <= MAX_U32
    requires a <= MAX_U64 && m <= MAX_U64 && a' <= MAX_U64 && m' <= MAX_U64
    requires Input(n, i, a, m, t, r) == Input(n', i', a', m', t', r')
    ensures n == n' && i == i' && a == a' && m == m' && t == t' && r == r'
  {
    hide BE;
    var s, s', k := Input(n, i, a, m, t, r), Input(n', i', a', m', t', r'), |n|;
    assert s[..k] == n && s'[..k] == n';
    assert s[k..k + 4] == BE(i, 4) && s'[k..k + 4] == BE(i', 4);
    assert s[k + 4..k + 12] == BE(a, 8) && s'[k + 4..k + 12] == BE(a', 8);
    assert s[k + 12..k + 20] == BE(m, 8) && s'[k + 12..k + 20] == BE(m', 8);
    assert s[k + 20..k + 20 + |t|] == t && s'[k + 20..k + 20 + |t|] == t';
    assert s[k + 20 + |t|..] == r && s'[k + 20 + |t|..] == r';
    Pow256Values();
    BEInjective(i, i', 4);
    BEInjective(a, a', 8);
    BEInjective(m, m', 8);
  }
}
