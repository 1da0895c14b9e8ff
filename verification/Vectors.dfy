/** Length-prefixed vectors written through reservations, however deeply nested. */
module Vectors {
  import opened Bytes
  import opened StufferSpec

  /** The variable-length vectors of section 3.4 of RFC 8446. */
  datatype Vec = Raw(data: seq<byte>) | Vector(width: nat, body: seq<Vec>)

  /** The wire form: each vector preceded by its length in bytes; none when a length exceeds its width. */
  function Encode(v: Vec): Option<seq<byte>>
    decreases v, 1
  {
    match v
    case Raw(data) => Some(data)
    case Vector(width, body) =>
      match EncodeAll(body)
      case None => None
      case Some(inner) => if FitsWidth(|inner|, width) then Some(BE(|inner|, width) + inner) else None
  }

  function EncodeAll(vs: seq<Vec>): Option<seq<byte>>
    decreases vs, 0
  {
    if vs == [] then Some([])
    else match (Encode(vs[0]), EncodeAll(vs[1..]))
      case (Some(x), Some(y)) => Some(x + y)
      case _ => None
  }

  /** How the code writes them: reserve the length, write the contents, go back and fill the length in. */
  function Emit(e: Env, b: Buf, v: Vec): (r: Out)
    requires Valid(b)
    ensures Valid(r.b)
    decreases v, 1
  {
    match v
    case Raw(data) => WriteBytes(e, b, data)
    case Vector(width, body) =>
      var held := Reserve(e, b, width);
      if !held.ok then held
      else
        var filled := EmitAll(e, held.b, body);
        if !filled.ok then filled else WriteVectorSize(filled.b, b.write, width)
  }

  function EmitAll(e: Env, b: Buf, vs: seq<Vec>): (r: Out)
    requires Valid(b)
    ensures Valid(r.b)
    decreases vs, 0
  {
    if vs == [] then Done(b)
    else
      var first := Emit(e, b, vs[0]);
      if !first.ok then first else EmitAll(e, first.b, vs[1..])
  }

  /** `r` is `b` with `data` added at the end, wherever the memory now is. */
  ghost predicate Grown(b: Buf, r: Buf, data: seq<byte>) {
    && Valid(b) && Valid(r) && r.read == b.read && r.write == b.write + |data| && Written(r) == Written(b) + data
    && r.size >= b.size && r.growable == b.growable && r.tainted == b.tainted
  }

  lemma StoreGrows(e: Env, b: Buf, data: seq<byte>)
    requires Valid(b)
    ensures var r := SkipAndStore(e, b, data);
            (r.ok ==> Grown(b, r.b, data)) && (b.size - b.write >= |data| ==> r.ok && r.b.size == b.size)
  {
    hide Splice;
    var r := SkipAndStore(e, b, data);
    if r.ok { StoredAppends(b, r.b, data); }
  }

  /** With room for `n` bytes, as many are stored; room for the rest is left. */
  lemma StoreAmple(e: Env, b: Buf, n: nat, data: seq<byte>)
    requires Valid(b) && |data| <= n
    ensures var r := SkipAndStore(e, b, data);
            Ample(e, b, n) ==> r.ok && Ample(e, r.b, n - |data|)
  {
    if Ample(e, b, n) {
      AmpleSkips(e, b, n, |data|);
      StoreGrows(e, b, data);
      hide Ample, SkipWrite, SkipAndStore;
      var r := SkipAndStore(e, b, data);
      GrownSize(b, r.b, data);
      AmpleAfter(e, b, r.b, n, |data|);
    }
  }

  /** Filling in the length changes those bytes and no others. */
  lemma CloseVector(b: Buf, filled: Buf, width: nat, inner: seq<byte>)
    requires Grown(b, filled, Fill(WIPE, width) + inner)
    ensures var r := WriteVectorSize(filled, b.write, width);
            && (r.ok <==> FitsWidth(|inner|, width))
            && (r.ok ==> Grown(b, r.b, BE(|inner|, width) + inner) && r.b.size == filled.size)
  {
    hide BE, Fill, FitsWidth, Splice;
    if FitsWidth(|inner|, width) {
      PatchBytes(filled.mem, Written(b), Fill(WIPE, width), inner, BE(|inner|, width));
    }
  }

  lemma PatchBytes(mem: seq<byte>, front: seq<byte>, hole: seq<byte>, back: seq<byte>, patch: seq<byte>)
    requires |patch| == |hole| && front + (hole + back) <= mem
    ensures front + (patch + back) <= Splice(mem, |front|, patch)
  {
    var was, now := front + (hole + back), front + (patch + back);
    forall i | 0 <= i < |now|
      ensures Splice(mem, |front|, patch)[i] == now[i]
    {
      assert mem[i] == was[i];
    }
  }

  /** Reservations nest and outlive reallocation: what comes out is exactly the wire form, and the code
      refuses whenever there is none. */
  lemma {:induction false} EmitWritesWireForm(e: Env, b: Buf, v: Vec)
    requires Valid(b)
    ensures var r := Emit(e, b, v);
            && (r.ok ==> Encode(v).Some? && Grown(b, r.b, Encode(v).value))
            && (Encode(v).Some? && Ample(e, b, |Encode(v).value|) ==> r.ok)
            && (Encode(v).Some? && b.size - b.write >= |Encode(v).value| ==> r.b.size == b.size)
    decreases v, 1
  {
    hide SkipAndStore, WriteVectorSize, Grown, BE, Ample, SkipWrite;
    match v {
      case Raw(data) =>
        WriteBytesIsSkipAndStore(e, b, data);
        StoreGrows(e, b, data);
        StoreAmple(e, b, |data|, data);
      case Vector(width, body) =>
        StoreGrows(e, b, Fill(WIPE, width));
        var held := Reserve(e, b, width);
        if Encode(v).Some? { StoreAmple(e, b, |Encode(v).value|, Fill(WIPE, width)); }
        if held.ok {
          EmitAllWritesWireForm(e, held.b, body);
          var filled := EmitAll(e, held.b, body);
          if filled.ok {
            GrownTwice(b, held.b, filled.b, Fill(WIPE, width), EncodeAll(body).value);
            CloseVector(b, filled.b, width, EncodeAll(body).value);
          } else if EncodeAll(body).Some? {
            GrownSize(b, held.b, Fill(WIPE, width));
          }
        }
    }
  }

  lemma {:induction false} EmitAllWritesWireForm(e: Env, b: Buf, vs: seq<Vec>)
    requires Valid(b)
    ensures var r := EmitAll(e, b, vs);
            && (r.ok ==> EncodeAll(vs).Some? && Grown(b, r.b, EncodeAll(vs).value))
            && (EncodeAll(vs).Some? && Ample(e, b, |EncodeAll(vs).value|) ==> r.ok)
            && (EncodeAll(vs).Some? && b.size - b.write >= |EncodeAll(vs).value| ==> r.b.size == b.size)
    decreases vs, 0
  {
    hide SkipAndStore, WriteVectorSize, Grown, BE, Emit, Encode, Ample;
    if vs == [] {
      GrownByNothing(b);
    } else {
      EmitWritesWireForm(e, b, vs[0]);
      var first := Emit(e, b, vs[0]);
      if EncodeAll(vs).Some? { AmpleForLess(e, b, |EncodeAll(vs).value|, |Encode(vs[0]).value|); }
      if first.ok {
        var x := Encode(vs[0]).value;
        EmitAllWritesWireForm(e, first.b, vs[1..]);
        GrownSize(b, first.b, x);
        if EncodeAll(vs).Some? && Ample(e, b, |EncodeAll(vs).value|) {
          AmpleAfter(e, b, first.b, |EncodeAll(vs).value|, |x|);
        }
        var rest := EmitAll(e, first.b, vs[1..]);
        if rest.ok { GrownTwice(b, first.b, rest.b, x, EncodeAll(vs[1..]).value); }
      }
    }
  }

  lemma GrownByNothing(b: Buf)
    requires Valid(b)
    ensures Grown(b, b, [])
  {
  }

  lemma GrownSize(b: Buf, r: Buf, data: seq<byte>)
    requires Grown(b, r, data)
    ensures r.write == b.write + |data| && r.size >= b.size && r.growable == b.growable && r.tainted == b.tainted
  {
  }

  lemma GrownTwice(b: Buf, m: Buf, r: Buf, x: seq<byte>, y: seq<byte>)
    requires Grown(b, m, x) && Grown(m, r, y)
    ensures Grown(b, r, x + y)
  {
    assert Written(b) + (x + y) == (Written(b) + x) + y;
  }
}
