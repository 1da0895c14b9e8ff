/** Certificate chains: built from PEM text, walked, and written to the wire. */
module Certificate {
  import opened Bytes
  import opened Stuffers
  import P = PemSpec
  import R = Pem
  import S = StufferSpec
  import V = Vectors

  // ---------------------------------------------------------------- the wire form

  const LENGTH_BYTES: nat := 3
  const MAX_VECTOR: nat := 0x100_0000

  /** Each certificate with its length, one after the other. */
  function Entries(certs: seq<seq<byte>>): seq<byte> {
    if certs == [] then [] else BE(|certs[0]|, LENGTH_BYTES) + certs[0] + Entries(certs[1..])
  }

  /** The certificate list of section 7.4.2 of RFC 5246. */
  function Message(certs: seq<seq<byte>>): seq<byte> {
    BE(|Entries(certs)|, LENGTH_BYTES) + Entries(certs)
  }

  /** What the chain keeps as its size: every certificate and its length field. */
  function ChainSize(certs: seq<seq<byte>>): nat {
    if certs == [] then 0 else |certs[0]| + LENGTH_BYTES + ChainSize(certs[1..])
  }

  predicate Sendable(certs: seq<seq<byte>>) {
    (forall i :: 0 <= i < |certs| ==> |certs[i]| < MAX_VECTOR) && ChainSize(certs) < MAX_VECTOR
  }

  lemma {:induction false} EntriesSize(certs: seq<seq<byte>>)
    ensures |Entries(certs)| == ChainSize(certs)
  {
    if certs != [] { EntriesSize(certs[1..]); }
  }

  lemma {:induction false} EntriesSnoc(certs: seq<seq<byte>>, c: seq<byte>)
    ensures Entries(certs + [c]) == Entries(certs) + (BE(|c|, LENGTH_BYTES) + c)
    ensures ChainSize(certs + [c]) == ChainSize(certs) + |c| + LENGTH_BYTES
  {
    if certs != [] {
      assert (certs + [c])[1..] == certs[1..] + [c];
      EntriesSnoc(certs[1..], c);
    } else {
      assert (certs + [c])[1..] == [];
    }
  }

  /** A reader of such lists: a length, then certificates until the bytes run out. */
  function ParseEntries(s: seq<byte>): Option<seq<seq<byte>>>
    decreases |s|
  {
    if s == [] then Some([])
    else if |s| < LENGTH_BYTES then None
    else
      var n := Val(s[..LENGTH_BYTES]);
      if |s| < LENGTH_BYTES + n then None
      else match ParseEntries(s[LENGTH_BYTES + n..])
        case None => None
        case Some(rest) => Some([s[LENGTH_BYTES..LENGTH_BYTES + n]] + rest)
  }

  function ParseMessage(s: seq<byte>): Option<seq<seq<byte>>> {
    if |s| < LENGTH_BYTES || Val(s[..LENGTH_BYTES]) != |s| - LENGTH_BYTES then None
    else ParseEntries(s[LENGTH_BYTES..])
  }

  lemma {:induction false} ParseEntriesInverts(certs: seq<seq<byte>>)
    requires forall i :: 0 <= i < |certs| ==> |certs[i]| < MAX_VECTOR
    ensures ParseEntries(Entries(certs)) == Some(certs)
  {
    if certs != [] {
      hide BE, Val;
      Pow256Values();
      var c, s := certs[0], Entries(certs);
      ValBE(|c|, LENGTH_BYTES);
      ParseEntriesInverts(certs[1..]);
      assert s[..LENGTH_BYTES] == BE(|c|, LENGTH_BYTES);
      assert s[LENGTH_BYTES..LENGTH_BYTES + |c|] == c;
      assert s[LENGTH_BYTES + |c|..] == Entries(certs[1..]);
      assert certs == [c] + certs[1..];
    }
  }

  /** The message is read back as the chain. */
  lemma MessageInverts(certs: seq<seq<byte>>)
    requires Sendable(certs)
    ensures ParseMessage(Message(certs)) == Some(certs)
  {
    hide BE, Val;
    Pow256Values();
    EntriesSize(certs);
    ValBE(|Entries(certs)|, LENGTH_BYTES);
    ParseEntriesInverts(certs);
    assert Message(certs)[..LENGTH_BYTES] == BE(|Entries(certs)|, LENGTH_BYTES);
    assert Message(certs)[LENGTH_BYTES..] == Entries(certs);
  }

  /** It is the wire form of a vector of vectors. */
  function AsVectors(certs: seq<seq<byte>>): seq<V.Vec> {
    seq(|certs|, i requires 0 <= i < |certs| => V.Vector(LENGTH_BYTES, [V.Raw(certs[i])]))
  }

  lemma {:induction false} EntriesAreVectors(certs: seq<seq<byte>>)
    requires forall i :: 0 <= i < |certs| ==> |certs[i]| < MAX_VECTOR
    ensures V.EncodeAll(AsVectors(certs)) == Some(Entries(certs))
  {
    if certs != [] {
      Pow256Values();
      var c := certs[0];
      assert AsVectors(certs)[1..] == AsVectors(certs[1..]);
      EntriesAreVectors(certs[1..]);
      assert V.EncodeAll([V.Raw(c)]) == Some(c) by { assert [V.Raw(c)][1..] == [] && c + [] == c; }
    }
  }

  lemma MessageIsVector(certs: seq<seq<byte>>)
    requires Sendable(certs)
    ensures V.Encode(V.Vector(LENGTH_BYTES, AsVectors(certs))) == Some(Message(certs))
  {
    Pow256Values();
    EntriesSize(certs);
    EntriesAreVectors(certs);
  }

  // ---------------------------------------------------------------- the list

  class CertNode {
    const raw: seq<byte>
    var next: CertNode?

    constructor (data: seq<byte>)
      ensures raw == data && next == null
    {
      raw := data;
      next := null;
    }
  }

  function After(nodes: seq<CertNode>, i: nat): CertNode? {
    if i + 1 < |nodes| then nodes[i + 1] else null
  }

  /** The nodes, from the first, are linked into a list. */
  ghost predicate Linked(head: CertNode?, nodes: seq<CertNode>)
    reads nodes
  {
    && head == (if nodes == [] then null else nodes[0])
    && (forall i, j :: 0 <= i < j < |nodes| ==> nodes[i] != nodes[j])
    && (forall i :: 0 <= i < |nodes| ==> nodes[i].next == After(nodes, i))
  }

  ghost function Raws(nodes: seq<CertNode>): (r: seq<seq<byte>>)
    ensures |r| == |nodes| && forall i :: 0 <= i < |r| ==> r[i] == nodes[i].raw
  {
    seq(|nodes|, i requires 0 <= i < |nodes| => nodes[i].raw)
  }

  class CertChain {
    var head: CertNode?
    var chainSize: nat
    ghost var nodes: seq<CertNode>

    constructor ()
      ensures Valid() && nodes == []
    {
      head, chainSize, nodes := null, 0, [];
    }

    ghost predicate Valid()
      reads this, nodes
    {
      Linked(head, nodes)
    }

    /** Appends through the insert pointer: the head when the list is empty, else the last node's link. */
    method Link(last: CertNode?, node: CertNode)
      requires Valid() && node.next == null && node !in nodes
      requires last == if nodes == [] then null else nodes[|nodes| - 1]
      modifies this`head, this`nodes, last
      ensures Valid() && nodes == old(nodes) + [node]
    {
      if last == null { head := node; } else { last.next := node; }
      nodes := nodes + [node];
    }

    method GetLength() returns (ok: bool, n: nat)
      requires Valid()
      ensures ok <==> nodes != []
      ensures ok ==> n == |nodes|
    {
      if head == null { return false, 0; }
      ok, n := true, 1;
      var next := head.next;
      while next != null
        invariant 1 <= n <= |nodes| && next == nodes[n - 1].next
        decreases |nodes| - n
      {
        n := n + 1;
        next := next.next;
      }
    }

    method GetCert(idx: nat) returns (ok: bool, raw: seq<byte>)
      requires Valid()
      ensures ok <==> idx < |nodes|
      ensures ok ==> raw == Raws(nodes)[idx]
    {
      if head == null { return false, []; }
      var cur, counter := head, 0;
      var next := cur.next;
      while next != null && counter < idx
        invariant 0 <= counter < |nodes| && counter <= idx && cur == nodes[counter] && next == cur.next
        decreases |nodes| - counter
      {
        cur := next;
        next := next.next;
        counter := counter + 1;
      }
      return counter == idx, cur.raw;
    }
  }

  // ---------------------------------------------------------------- building a chain

  /** One certificate is decoded onto `out` and taken out of it again; `room` says whether the memory for its node and
      its bytes is had. */
  method ReadCertificate(input: Stuffer, out: Stuffer, room: bool) returns (ok: bool, raw: seq<byte>)
    requires input != out && input.mem != out.mem && input.Valid() && out.Valid() && out.read == out.write
    modifies input`read, out, out.mem
    ensures input.Valid() && out.Valid() && out.Tracked()
    ensures ok ==> P.Block(input.Written(), old(input.read), P.CERTIFICATE) == Some((raw, input.read)) && raw != []
    ensures ok ==> out.read == out.write == old(out.write) + |raw|
    ensures ok ==> out.size >= old(out.size) && out.growable == old(out.growable) && out.tainted == old(out.tainted)
    ensures room && S.Ample(out.env, old(out.Value()), old(input.write - input.read)) && !ok ==>
              var b := P.Block(input.Written(), old(input.read), P.CERTIFICATE);
              b.None? || b.value.0 == []
  {
    hide S.Ample, P.Block, P.EncapsulationLine;
    ghost var was := out.Value();
    ok := R.DataFromPem(input, out, P.CERTIFICATE);
    if !ok { return false, []; }
    ghost var d := P.Block(input.Written(), old(input.read), P.CERTIFICATE).value.0;
    R.GainedIsUnread(was, out.Value(), d);
    assert |S.Written(out.Value())| == |S.Written(was)| + |d|;
    var n := out.write - out.read;
    if !room { return false, []; }
    if n == 0 { return false, []; }
    ok, raw := out.ReadBytes(n);
  }

  /** Certificates read so far, followed by those that the rest of the text holds. */
  function Prepend(done: seq<seq<byte>>, rest: Option<seq<seq<byte>>>): Option<seq<seq<byte>>> {
    if rest.Some? then Some(done + rest.value) else None
  }

  lemma PrependStep(t: seq<byte>, p: nat, raw: seq<byte>, q: nat, done: seq<seq<byte>>)
    requires p <= |t| && P.Delimiter(t, p).Some? && P.Block(t, p, P.CERTIFICATE) == Some((raw, q)) && raw != []
    ensures p + |raw| + LENGTH_BYTES <= q <= |t|
    ensures Prepend(done, P.Certificates(t, p)) == Prepend(done + [raw], P.Certificates(t, q))
  {
    hide P.Block, P.Delimiter;
    P.BlockSize(t, p, P.CERTIFICATE);
    if P.Certificates(t, q).Some? {
      var rest := P.Certificates(t, q).value;
      assert done + ([raw] + rest) == (done + [raw]) + rest;
    }
  }

  lemma PrependNothing(x: Option<seq<seq<byte>>>)
    ensures Prepend(Raws([]), x) == x
  {
    if x.Some? { assert Raws([]) + x.value == x.value; }
  }

  lemma NotACertificate(t: seq<byte>, p: nat)
    requires p <= |t|
    ensures var b := P.Block(t, p, P.CERTIFICATE);
            P.Delimiter(t, p).Some? && (b.None? || b.value.0 == []) ==> P.Certificates(t, p) == None
  {
  }

  lemma NoMoreCertificates(t: seq<byte>, p: nat, done: seq<seq<byte>>)
    requires p <= |t| && P.Delimiter(t, p).None?
    ensures Prepend(done, P.Certificates(t, p)) == Some(done)
  {
    assert done + [] == done;
  }

  lemma AmpleForText(e: S.Env, b: S.Buf, r: nat, n: nat)
    requires S.Generous(e) && b.growable && !b.tainted && b.write <= r <= n < 0x8000_0000
    ensures S.Ample(e, b, n - r)
  {
  }

  /** Reads the next certificate into a new last node. */
  method AddCertificate(chain: CertChain, last: CertNode?, input: Stuffer, out: Stuffer, room: bool)
    returns (ok: bool, node: CertNode?)
    requires chain.Valid() && last == (if chain.nodes == [] then null else chain.nodes[|chain.nodes| - 1])
    requires input != out && input.mem != out.mem && input.Valid() && out.Valid() && out.read == out.write
    modifies chain`head, chain`nodes, last, input`read, out, out.mem
    ensures chain.Valid() && input.Valid() && out.Valid() && out.Tracked()
    ensures ok ==> node != null && fresh(node) && chain.nodes == old(chain.nodes) + [node] && node.raw != []
    ensures ok ==> P.Block(input.Written(), old(input.read), P.CERTIFICATE) == Some((node.raw, input.read))
    ensures ok ==> out.read == out.write == old(out.write) + |node.raw|
    ensures ok ==> out.size >= old(out.size) && out.growable == old(out.growable) && out.tainted == old(out.tainted)
    ensures !ok ==> chain.nodes == old(chain.nodes)
    ensures room && S.Ample(out.env, old(out.Value()), old(input.write - input.read)) && !ok ==>
              var b := P.Block(input.Written(), old(input.read), P.CERTIFICATE);
              b.None? || b.value.0 == []
  {
    hide S.Ample, P.Block, Stuffer.Valid, Stuffer.Value, S.Valid;
    var raw;
    ok, raw := ReadCertificate(input, out, room);
    if !ok { return false, null; }
    node := new CertNode(raw);
    chain.Link(last, node);
  }

  /** What holds between two certificates: those read, `done`, and those to come make the whole. */
  ghost predicate Midway(t: seq<byte>, p: nat, r: nat, done: seq<seq<byte>>, size: nat, written: nat) {
    && p <= r <= |t| && written <= size <= r && size == ChainSize(done)
    && P.Certificates(t, p) == Prepend(done, P.Certificates(t, r))
  }

  lemma MidwayStarts(t: seq<byte>, p: nat)
    requires p <= |t|
    ensures Midway(t, p, p, [], 0, 0)
  {
    PrependNothing(P.Certificates(t, p));
  }

  lemma MidwaySteps(t: seq<byte>, p: nat, r: nat, done: seq<seq<byte>>, size: nat, written: nat, raw: seq<byte>, q: nat)
    requires Midway(t, p, r, done, size, written)
    requires P.Delimiter(t, r).Some? && P.Block(t, r, P.CERTIFICATE) == Some((raw, q)) && raw != []
    ensures r < q && Midway(t, p, q, done + [raw], size + |raw| + LENGTH_BYTES, written + |raw|)
  {
    hide P.Certificates, P.Block, P.Delimiter;
    PrependStep(t, r, raw, q, done);
    EntriesSnoc(done, raw);
  }

  /** The growable stuffer that receives each certificate in turn. */
  method CertificateBuffer(env: S.Env) returns (ok: bool, out: Stuffer)
    ensures fresh(out) && fresh(out.mem) && out.Valid() && out.env == env
    ensures ok ==> out.read == out.write == 0 && out.growable && !out.tainted
    ensures S.Generous(env) ==> ok
  {
    out := new Stuffer.Allocated(env, 2048, true);
    ok := out.growable;
  }

  /** Reads certificates for as long as dashes follow; `heap` says whether the memory for the next node is had. */
  method ReadCertificates(chain: CertChain, input: Stuffer, out: Stuffer, heap: nat -> bool)
    returns (ok: bool, chainSize: nat)
    requires chain.Valid() && chain.nodes == [] && input.Valid() && input.write < 0x8000_0000
    requires input != out && input.mem != out.mem && out.Valid() && out.read == out.write == 0 && out.growable && !out.tainted
    modifies chain, input`read, out, out.mem
    ensures chain.Valid() && input.Valid()
    ensures ok ==> P.Certificates(input.Written(), old(input.read)) == Some(Raws(chain.nodes))
    ensures ok ==> chainSize == ChainSize(Raws(chain.nodes)) <= input.write
    ensures S.Generous(out.env) && (forall k :: heap(k)) && !ok ==> P.Certificates(input.Written(), old(input.read)).None?
  {
    hide S.Ample, P.Certificates, P.Block, P.Delimiter, Stuffer.Valid, Stuffer.Value, S.Valid, Midway, Linked, Raws, ChainSize;
    ghost var t, p := input.Written(), input.read;
    var last: CertNode?, count := null, 0;
    chainSize := 0;
    MidwayStarts(t, p);
    ChainSizeZero(Raws(chain.nodes));
    while true
      invariant input.Valid() && out.Valid() && chain.Valid() && out.Tracked()
      invariant last != null ==> fresh(last)
      invariant out.read == out.write && out.growable && !out.tainted
      invariant last == if chain.nodes == [] then null else chain.nodes[|chain.nodes| - 1]
      invariant Midway(t, p, input.read, Raws(chain.nodes), chainSize, out.write)
      decreases input.write - input.read
    {
      var has := R.HasCertificate(input);
      if !has { break; }
      ghost var r, done, written, nodes := input.read, Raws(chain.nodes), out.write, chain.nodes;
      MidwayFacts(t, p, r, done, chainSize, written);
      if S.Generous(out.env) { AmpleForText(out.env, out.Value(), r, |t|); }
      ok, last := AddCertificate(chain, last, input, out, heap(count));
      if !ok {
        NotACertificate(t, r);
        return;
      }
      MidwaySteps(t, p, r, done, chainSize, written, last.raw, input.read);
      RawsSnoc(nodes, last);
      chainSize, count := chainSize + |last.raw| + LENGTH_BYTES, count + 1;
    }
    MidwayFacts(t, p, input.read, Raws(chain.nodes), chainSize, out.write);
    NoMoreCertificates(t, input.read, Raws(chain.nodes));
    ok := true;
  }

  /** Builds the list by appending through a pointer to the last link. */
  method CreateFromStuffer(chain: CertChain, input: Stuffer, env: S.Env, heap: nat -> bool) returns (ok: bool)
    requires chain.Valid() && chain.nodes == [] && input.Valid() && input.write < 0x8000_0000
    modifies chain, input`read
    ensures chain.Valid() && input.Valid()
    ensures ok ==> P.Certificates(input.Written(), old(input.read)) == Some(Raws(chain.nodes)) && chain.nodes != []
    ensures ok ==> chain.chainSize == ChainSize(Raws(chain.nodes)) <= input.write
    ensures S.Generous(env) && (forall k :: heap(k)) && !ok ==>
              var c := P.Certificates(input.Written(), old(input.read));
              c.None? || c.value == []
  {
    hide P.Certificates, Stuffer.Valid, Stuffer.Value, S.Valid, Linked, Raws, ChainSize, S.Generous;
    var out;
    ok, out := CertificateBuffer(env);
    if !ok { return; }
    var chainSize;
    ok, chainSize := ReadCertificates(chain, input, out, heap);
    if !ok { return; }
    ChainSizeZero(Raws(chain.nodes));
    if chainSize == 0 { return false; }
    chain.chainSize := chainSize;
    return true;
  }

  lemma RawsSnoc(nodes: seq<CertNode>, node: CertNode)
    ensures Raws(nodes + [node]) == Raws(nodes) + [node.raw]
  {
  }

  lemma ChainSizeZero(certs: seq<seq<byte>>)
    ensures ChainSize(certs) == 0 <==> certs == []
  {
  }

  lemma MidwayFacts(t: seq<byte>, p: nat, r: nat, done: seq<seq<byte>>, size: nat, written: nat)
    requires Midway(t, p, r, done, size, written)
    ensures p <= r <= |t| && written <= size <= r && size == ChainSize(done)
    ensures P.Certificates(t, p) == Prepend(done, P.Certificates(t, r))
  {
  }

  // ---------------------------------------------------------------- sending a chain

  /** One length and certificate. */
  method SendEntry(out: Stuffer, raw: seq<byte>) returns (ok: bool)
    requires out.Valid() && |raw| <= MAX_U32
    modifies out, out.mem
    ensures out.Valid() && out.Tracked()
    ensures ok ==> |raw| < MAX_VECTOR && V.Grown(old(out.Value()), out.Value(), BE(|raw|, LENGTH_BYTES) + raw)
    ensures S.Ample(out.env, old(out.Value()), LENGTH_BYTES + |raw|) && |raw| < MAX_VECTOR ==> ok
  {
    hide S.SkipWrite, S.SkipAndStore, BE, V.Grown, S.Ample, Stuffer.Valid, Stuffer.Value, S.Valid;
    ghost var e, v0 := out.env, out.Value();
    ghost var ample := S.Ample(e, v0, LENGTH_BYTES + |raw|);
    if ample { S.AmpleSkips(e, v0, LENGTH_BYTES + |raw|, LENGTH_BYTES); }
    V.StoreGrows(e, v0, BE(|raw|, LENGTH_BYTES));
    ok := out.WriteUint24(|raw|);
    if !ok { return; }
    ghost var v1 := out.Value();
    V.GrownSize(v0, v1, BE(|raw|, LENGTH_BYTES));
    if ample {
      S.AmpleAfter(e, v0, v1, LENGTH_BYTES + |raw|, LENGTH_BYTES);
      S.AmpleSkips(e, v1, |raw|, |raw|);
    }
    V.StoreGrows(e, v1, raw);
    S.WriteBytesIsSkipAndStore(e, v1, raw);
    ok := out.WriteBytes(raw);
    if ok { V.GrownTwice(v0, v1, out.Value(), BE(|raw|, LENGTH_BYTES), raw); }
  }

  /** The first `i` entries are written behind the reserved length, and room for the others is left. */
  ghost predicate Sent(e: S.Env, v0: S.Buf, v: S.Buf, raws: seq<seq<byte>>, i: nat, ample: bool) {
    && i <= |raws| && V.Grown(v0, v, Fill(S.WIPE, LENGTH_BYTES) + Entries(raws[..i]))
    && (forall j :: 0 <= j < i ==> |raws[j]| < MAX_VECTOR)
    && (ample ==> S.Ample(e, v, ChainSize(raws[i..])))
  }

  lemma SentStarts(e: S.Env, v0: S.Buf, v: S.Buf, raws: seq<seq<byte>>, ample: bool)
    requires V.Grown(v0, v, Fill(S.WIPE, LENGTH_BYTES))
    requires ample ==> S.Ample(e, v0, LENGTH_BYTES + ChainSize(raws))
    ensures Sent(e, v0, v, raws, 0, ample)
  {
    hide Fill;
    assert raws[..0] == [] && raws[0..] == raws;
    assert Fill(S.WIPE, LENGTH_BYTES) + [] == Fill(S.WIPE, LENGTH_BYTES);
    if ample { S.AmpleAfter(e, v0, v, LENGTH_BYTES + ChainSize(raws), LENGTH_BYTES); }
  }

  lemma SentSteps(e: S.Env, v0: S.Buf, v: S.Buf, v': S.Buf, raws: seq<seq<byte>>, i: nat, ample: bool)
    requires Sent(e, v0, v, raws, i, ample) && i < |raws| && |raws[i]| < MAX_VECTOR
    requires V.Grown(v, v', BE(|raws[i]|, LENGTH_BYTES) + raws[i])
    ensures Sent(e, v0, v', raws, i + 1, ample)
  {
    hide BE, Fill, V.Grown, S.Ample;
    var raw, entry, mark := raws[i], BE(|raws[i]|, LENGTH_BYTES) + raws[i], Fill(S.WIPE, LENGTH_BYTES);
    assert raws[..i + 1] == raws[..i] + [raw] && raws[i..][1..] == raws[i + 1..];
    EntriesSnoc(raws[..i], raw);
    V.GrownTwice(v0, v, v', mark + Entries(raws[..i]), entry);
    assert (mark + Entries(raws[..i])) + entry == mark + (Entries(raws[..i]) + entry);
    V.GrownSize(v, v', entry);
    if ample { S.AmpleAfter(e, v, v', ChainSize(raws[i..]), |entry|); }
  }

  lemma SentRoom(e: S.Env, v0: S.Buf, v: S.Buf, raws: seq<seq<byte>>, i: nat, ample: bool)
    requires Sent(e, v0, v, raws, i, ample) && i < |raws|
    ensures ample ==> S.Ample(e, v, LENGTH_BYTES + |raws[i]|)
  {
    if ample { S.AmpleAfter(e, v, v, ChainSize(raws[i..]), ChainSize(raws[i..][1..])); }
  }

  /** Filling in the length makes it the message. */
  lemma SentEnds(e: S.Env, v0: S.Buf, v: S.Buf, raws: seq<seq<byte>>, ample: bool)
    requires Sent(e, v0, v, raws, |raws|, ample)
    ensures S.Valid(v) && S.Valid(v0)
    ensures var r := S.WriteVectorSize(v, v0.write, LENGTH_BYTES);
            (r.ok <==> Sendable(raws)) && (r.ok ==> V.Grown(v0, r.b, Message(raws)))
  {
    hide BE, Fill, S.WriteVectorSize;
    assert raws[..|raws|] == raws;
    Pow256Values();
    EntriesSize(raws);
    V.CloseVector(v0, v, LENGTH_BYTES, Entries(raws));
  }

  /** Walks the list, writing its entries. */
  method SendEntries(chain: CertChain, out: Stuffer, ghost v0: S.Buf, ghost ample: bool) returns (ok: bool)
    requires chain.Valid() && out.Valid() && forall n :: n in chain.nodes ==> |n.raw| <= MAX_U32
    requires Sent(out.env, v0, out.Value(), Raws(chain.nodes), 0, ample)
    modifies out, out.mem
    ensures out.Valid() && out.Tracked()
    ensures ok ==> Sent(out.env, v0, out.Value(), Raws(chain.nodes), |chain.nodes|, ample)
    ensures ample && !ok ==> !Sendable(Raws(chain.nodes))
  {
    hide BE, V.Grown, S.Ample, Stuffer.Valid, Stuffer.Value, S.Valid, ChainSize, Sent, Raws;
    ghost var raws, e := Raws(chain.nodes), out.env;
    var cur := chain.head;
    ghost var i := 0;
    ok := true;
    while cur != null
      invariant out.Valid() && out.Tracked() && 0 <= i <= |raws| && ok
      invariant cur == if i < |raws| then chain.nodes[i] else null
      invariant Sent(e, v0, out.Value(), raws, i, ample)
      decreases |raws| - i
    {
      ghost var v := out.Value();
      assert chain.nodes[i].next == After(chain.nodes, i);
      SentRoom(e, v0, v, raws, i, ample);
      ok := SendEntry(out, cur.raw);
      if !ok { return; }
      SentSteps(e, v0, v, out.Value(), raws, i, ample);
      cur := cur.next;
      i := i + 1;
    }
  }

  /** The certificate message before TLS 1.3: the length is filled in when all entries are written. */
  method Send(chain: CertChain, out: Stuffer) returns (ok: bool)
    requires chain.Valid() && out.Valid() && forall n :: n in chain.nodes ==> |n.raw| <= MAX_U32
    modifies out, out.mem
    ensures out.Valid() && out.Tracked()
    ensures ok ==> chain.nodes != [] && Sendable(Raws(chain.nodes))
    ensures ok ==> V.Grown(old(out.Value()), out.Value(), Message(Raws(chain.nodes)))
    ensures !ok && chain.nodes != [] && Sendable(Raws(chain.nodes)) ==>
              !S.Ample(out.env, old(out.Value()), LENGTH_BYTES + ChainSize(Raws(chain.nodes)))
  {
    hide S.SkipWrite, S.SkipAndStore, BE, V.Grown, S.Ample, Stuffer.Valid, Stuffer.Value, S.Valid;
    hide Entries, ChainSize, S.WriteVectorSize, Fill, Sent, Message, Raws, Linked;
    if chain.head == null {
      NoNodes(chain);
      return false;
    }
    ghost var raws := Raws(chain.nodes);
    ghost var e, v0, total := out.env, out.Value(), ChainSize(raws);
    ghost var ample := S.Ample(e, v0, LENGTH_BYTES + total);
    if ample { S.AmpleSkips(e, v0, LENGTH_BYTES + total, LENGTH_BYTES); }
    V.StoreGrows(e, v0, Fill(S.WIPE, LENGTH_BYTES));
    var at;
    ok, at := out.Reserve(LENGTH_BYTES);
    if !ok { return; }
    SentStarts(e, v0, out.Value(), raws, ample);
    ok := SendEntries(chain, out, v0, ample);
    if !ok { return; }
    SentEnds(e, v0, out.Value(), raws, ample);
    ok := out.WriteVectorSize(at, LENGTH_BYTES);
    NoNodes(chain);
  }

  lemma NoNodes(chain: CertChain)
    requires chain.Valid()
    ensures chain.nodes == [] <==> chain.head == null
  {
  }
}
