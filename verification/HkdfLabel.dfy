/** The labelled expansion of TLS 1.3. */
module HkdfLabel {
  import opened Bytes
  import opened Hmac
  import opened Hkdf
  import opened Stuffers
  import S = StufferSpec
  import V = Vectors

  const MAX_LABEL: nat := 249
  const BUFFER_SIZE: nat := 2 + 256 + 256
  const PREFIX: seq<byte> := [0x74, 0x6c, 0x73, 0x31, 0x33, 0x20]

  /** What the code writes: sizes are cut to the width of their field. */
  function Written(size: nat, name: seq<byte>, context: seq<byte>): (w: seq<byte>)
    ensures |w| == 10 + |name| + |context|
  {
    BE(size % 0x1_0000, 2) + [(|name| + 6) % 256] + PREFIX + name + [|context| % 256] + context
  }

  /** A label written out: 48 bytes of output, the label "key" and no context. */
  lemma KeyLabel()
    ensures Written(48, Ascii("key"), []) == [0, 48, 9] + Ascii("tls13 key") + [0]
  {
    assert BE(0, 1) == BE(0, 0) + [0] && BE(48, 2) == BE(0, 1) + [48];
    assert PREFIX == Ascii("tls13 ") && Ascii("tls13 key") == Ascii("tls13 ") + Ascii("key");
  }

  /** The prefix is the one of the standard, and label and context follow it in their places. */
  lemma WrittenParts(size: nat, name: seq<byte>, context: seq<byte>)
    requires |name| <= MAX_LABEL
    ensures var w := Written(size, name, context);
            && Val(w[..2]) == size % 0x1_0000 && w[2] == |name| + 6 && w[3..9] == Ascii("tls13 ") && w[9..9 + |name|] == name
            && w[9 + |name|] == |context| % 256 && w[10 + |name|..] == context
  {
    Pow256Values();
    ValBE(size % 0x1_0000, 2);
    hide BE, Val;
    assert Written(size, name, context)[..2] == BE(size % 0x1_0000, 2);
  }

  /** The HkdfLabel of section 7.1 of RFC 8446. */
  function Structure(size: nat, name: seq<byte>, context: seq<byte>): seq<V.Vec> {
    [V.Raw(BE(size, 2)), V.Vector(1, [V.Raw(PREFIX + name)]), V.Vector(1, [V.Raw(context)])]
  }

  lemma EncodeThree(x: V.Vec, y: V.Vec, z: V.Vec)
    ensures V.EncodeAll([x, y, z]) == match (V.Encode(x), V.Encode(y), V.Encode(z))
                                      case (Some(p), Some(q), Some(r)) => Some(p + (q + r))
                                      case _ => None
  {
    hide V.Encode;
    assert [x, y, z][1..] == [y, z] && [y, z][1..] == [z] && [z][1..] == [];
    assert V.EncodeAll([]) == Some([]);
    if V.Encode(z).Some? { assert V.Encode(z).value + [] == V.Encode(z).value; }
    assert V.EncodeAll([z]) == V.Encode(z);
  }

  lemma EncodeOne(data: seq<byte>)
    ensures V.Encode(V.Vector(1, [V.Raw(data)])) == if |data| < 256 then Some([|data|] + data) else None
  {
    assert [V.Raw(data)][1..] == [] && V.EncodeAll([]) == Some([]) && data + [] == data;
    assert V.EncodeAll([V.Raw(data)]) == Some(data);
    Pow256Values();
    if |data| < 256 { OneByte(|data|); }
  }

  lemma OneByte(n: byte)
    ensures BE(n, 1) == [n]
  {
    Pow256Values();
    BEAt(n, 1, 0);
  }

  /** The code writes the structure of the standard exactly when the context fits its length byte. */
  lemma WritesStructure(size: nat, name: seq<byte>, context: seq<byte>)
    requires size < 0x1_0000 && |name| <= MAX_LABEL
    ensures |context| < 256 <==> V.EncodeAll(Structure(size, name, context)) == Some(Written(size, name, context))
    ensures |context| >= 256 ==> V.EncodeAll(Structure(size, name, context)) == None
  {
    var s := Structure(size, name, context);
    EncodeThree(s[0], s[1], s[2]);
    EncodeOne(PREFIX + name);
    EncodeOne(context);
    assert V.Encode(s[0]) == Some(BE(size, 2));
    hide V.Encode, V.EncodeAll, BE;
    if |context| < 256 {
      assert BE(size, 2) + (([|name| + 6] + (PREFIX + name)) + ([|context|] + context)) == Written(size, name, context);
    }
  }

  /** Different requests are never written alike. */
  lemma WrittenInjective(s: nat, n: seq<byte>, c: seq<byte>, s': nat, n': seq<byte>, c': seq<byte>)
    requires s < 0x1_0000 && s' < 0x1_0000 && |n| <= MAX_LABEL && |n'| <= MAX_LABEL
    requires Written(s, n, c) == Written(s', n', c')
    ensures s == s' && n == n' && c == c'
  {
    var w, w' := Written(s, n, c), Written(s', n', c');
    hide BE;
    assert w[..2] == BE(s, 2) && w'[..2] == BE(s', 2);
    Pow256Values();
    BEInjective(s, s', 2);
    assert w[2] == |n| + 6 && w'[2] == |n'| + 6;
    assert w[9..9 + |n|] == n && w'[9..9 + |n'|] == n';
    assert w[10 + |n|..] == c && w'[10 + |n'|..] == c';
  }

  // ---------------------------------------------------------------- writing it

  /** A buffer of fixed size with `data` in it. */
  ghost predicate Holding(b: S.Buf, data: seq<byte>) {
    S.Valid(b) && !b.growable && b.size == BUFFER_SIZE && b.read == 0 && S.Written(b) == data
  }

  lemma StoreHolds(e: S.Env, b: S.Buf, data: seq<byte>, more: seq<byte>)
    requires Holding(b, data)
    ensures var r := S.SkipAndStore(e, b, more);
            && (r.ok <==> |data| + |more| <= BUFFER_SIZE)
            && (r.ok ==> Holding(r.b, data + more))
  {
    hide Splice;
    V.StoreGrows(e, b, more);
  }

  /** Appends bytes. */
  method Add(out: Stuffer, bytes: seq<byte>, ghost data: seq<byte>) returns (ok: bool)
    requires out.Valid() && Holding(out.Value(), data) && |bytes| <= MAX_U32
    modifies out, out.mem
    ensures out.Valid() && out.Tracked()
    ensures ok <==> |data| + |bytes| <= BUFFER_SIZE
    ensures ok ==> Holding(out.Value(), data + bytes)
  {
    hide Stuffer.Valid, Stuffer.Value, S.Valid, Holding, S.SkipAndStore, S.WriteBytes;
    StoreHolds(out.env, out.Value(), data, bytes);
    S.WriteBytesIsSkipAndStore(out.env, out.Value(), bytes);
    ok := out.WriteBytes(bytes);
  }

  method WriteSize(out: Stuffer, size: nat) returns (ok: bool)
    requires out.Valid() && Holding(out.Value(), []) && size < 0x1_0000
    modifies out, out.mem
    ensures out.Valid() && out.Tracked()
    ensures ok && Holding(out.Value(), BE(size, 2))
  {
    hide Stuffer.Valid, Stuffer.Value, S.Valid, Holding, S.SkipAndStore;
    StoreHolds(out.env, out.Value(), [], BE(size, 2));
    ok := out.WriteNetworkOrder(size, 2);
    assert [] + BE(size, 2) == BE(size, 2);
  }

  method WriteLabel(out: Stuffer, size: nat, name: seq<byte>, context: seq<byte>) returns (ok: bool)
    requires out.Valid() && Holding(out.Value(), [])
    requires |name| <= MAX_LABEL && |context| <= MAX_U32
    modifies out, out.mem
    ensures out.Valid() && out.Tracked()
    ensures ok <==> 10 + |name| + |context| <= BUFFER_SIZE
    ensures ok ==> Holding(out.Value(), Written(size, name, context))
  {
    hide Stuffer.Valid, Stuffer.Value, S.Valid, Holding, BE;
    ok := WriteSize(out, size % 0x1_0000);
    ghost var d1 := BE(size % 0x1_0000, 2);
    ok := Add(out, [(|name| + 6) % 256], d1);
    ghost var d2 := d1 + [(|name| + 6) % 256];
    ok := Add(out, PREFIX, d2);
    ok := Add(out, name, d2 + PREFIX);
    ghost var d4 := d2 + PREFIX + name;
    ok := Add(out, [|context| % 256], d4);
    ok := Add(out, context, d4 + [|context| % 256]);
  }

  method ExpandLabel(e: S.Env, hmac: HmacState, a: HmacAlg, secret: seq<byte>, name: seq<byte>, context: seq<byte>,
                     output: array<byte>) returns (ok: bool)
    requires hmac.Valid() && output !in hmac.Footprint()
    requires |secret| <= MAX_U32 && |name| <= MAX_U32 && |context| <= MAX_U32 && output.Length <= MAX_U32
    modifies hmac.Footprint(), output
    ensures hmac.Valid()
    ensures ok <==> && |name| <= MAX_LABEL && |name| + |context| <= 504
                    && a != NoHmac && 1 <= output.Length <= MAX_ROUNDS * HmacDigestSize(a)
    ensures ok ==> output[..] == Okm(hmac.H, a, secret, Written(output.Length, name, context), output.Length)
    ensures !ok ==> output[..] == old(output[..])
  {
    hide HmacState.Valid, Okm, Stuffer.Valid, Written;
    if |name| > MAX_LABEL { return false; }
    var buffer := new byte[BUFFER_SIZE](_ => 0);
    var out := new Stuffer.Over(e, buffer);
    ok := WriteLabel(out, output.Length, name, context);
    if !ok { return; }
    var info := out.mem[..out.write - out.read];
    ok := Expand(hmac, a, secret, info, output);
  }
}
