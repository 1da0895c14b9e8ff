/** The growable byte buffer, updated in place. */
module Stuffers {
  import opened Bytes
  import opened Memory
  import S = StufferSpec

  /** `mem` is the blob's memory; the NULL blob is the empty array. */
  class Stuffer {
    const env: S.Env
    var mem: array<byte>
    var size: nat
    var read: nat
    var write: nat
    var high: nat
    var alloced: bool
    var growable: bool
    var tainted: bool
    var asks: nat
    ghost var block: nat

    ghost function Value(): (b: S.Buf)
      reads this, mem
      ensures b.read == read && b.write == write && b.size == size
      ensures b.growable == growable && b.tainted == tainted
    {
      S.Buf(mem[..], size, read, write, high, alloced, growable, tainted, asks, block)
    }

    ghost predicate Valid()
      reads this, mem
      ensures Valid() ==> read <= write <= high <= size <= mem.Length && S.Valid(Value())
    {
      S.Valid(Value())
    }

    /** The memory is kept under its name, or is replaced by memory that did not exist before and has a
        name never used before. */
    twostate predicate Tracked()
      reads this
    {
      && asks >= old(asks)
      && ((mem == old(mem) && block == old(block)) || (fresh(mem) && block > old(asks)))
    }

    /** Everything written and not yet discarded, read or not. */
    ghost function Written(): (s: seq<byte>)
      reads this, mem
      requires write <= mem.Length
    {
      mem[..write]
    }

    ghost function Unread(): (s: seq<byte>)
      reads this, mem
      requires read <= write <= mem.Length
    {
      mem[read..write]
    }

    /** s2n_stuffer_init over memory the caller owns. */
    constructor Over(e: S.Env, data: array<byte>)
      requires data.Length <= MAX_U32
      ensures env == e && mem == data && Valid()
      ensures Value() == S.Init(S.Zeroed, data[..]).b
    {
      env, mem, size := e, data, data.Length;
      read, write, high := 0, 0, 0;
      alloced, growable, tainted := false, false, false;
      asks, block := 1, 1;
    }

    /** A copy of the structure: another set of cursors over the same memory. */
    constructor CopyOf(o: Stuffer)
      ensures env == o.env && mem == o.mem && Value() == o.Value()
    {
      env, mem, size := o.env, o.mem, o.size;
      read, write, high := o.read, o.write, o.high;
      alloced, growable, tainted := o.alloced, o.growable, o.tainted;
      asks, block := o.asks, o.block;
    }

    /** s2n_stuffer_alloc and s2n_stuffer_growable_alloc on a zeroed stuffer. */
    constructor Allocated(e: S.Env, n: nat, grows: bool)
      requires n <= MAX_U32
      ensures env == e && fresh(mem) && Valid()
      ensures Value() == S.Alloc(e, S.Zeroed, n, grows).b
    {
      env := e;
      read, write, high, tainted := 0, 0, 0, false;
      if n == 0 {
        mem := new byte[0];
        size, alloced, growable, asks, block := 0, true, grows, 1, 1;
      } else {
        match e(0, n) {
          case None =>
            mem := new byte[0];
            size, alloced, growable, asks, block := 0, false, false, 1, 1;
          case Some(m) =>
            mem := new byte[|m|](i requires 0 <= i < |m| => m[i]);
            size, alloced, growable, asks, block := n, true, grows, 1, 1;
        }
      }
      new;
      if n != 0 && e(0, n).Some? { assert mem[..] == e(0, n).value; }
    }

    method Realloc(n: nat) returns (ok: bool)
      requires Valid() && size <= n <= MAX_U32
      modifies this, mem
      ensures Valid() && Tracked()
      ensures Value() == S.Realloc(env, old(Value()), n).b && ok == S.Realloc(env, old(Value()), n).ok
    {
      if n == 0 { return true; }
      if n <= mem.Length {
        size := n;
        return true;
      }
      var answer := env(asks, n);
      asks := asks + 1;
      if answer.None? { return false; }
      var m := answer.value;
      var bigger := new byte[|m|](i requires 0 <= i < |m| => m[i]);
      forall i | 0 <= i < size { bigger[i] := mem[i]; }
      assert bigger[..] == old(mem[..])[..size] + m[size..];
      mem, size, block := bigger, n, asks;
      return true;
    }

    method Resize(n: nat) returns (ok: bool)
      requires Valid() && n <= MAX_U32
      modifies this, mem
      ensures Valid() && Tracked()
      ensures Value() == S.Resize(env, old(Value()), n).b && ok == S.Resize(env, old(Value()), n).ok
    {
      if tainted || !growable { return false; }
      if n == size { return true; }
      if n == 0 {
        Wipe();
        mem := new byte[0];
        size, asks, block := 0, asks + 1, asks + 1;
        return true;
      }
      if n < size {
        Set(mem, n, S.WIPE, size - n);
        if read > n { read := n; }
        if write > n { write := n; }
        if high > n { high := n; }
        size := n;
        return true;
      }
      ok := Realloc(n);
    }

    method ResizeIfEmpty(n: nat) returns (ok: bool)
      requires Valid() && n <= MAX_U32
      modifies this, mem
      ensures Valid() && Tracked()
      ensures Value() == S.ResizeIfEmpty(env, old(Value()), n).b && ok == S.ResizeIfEmpty(env, old(Value()), n).ok
    {
      if mem.Length == 0 {
        if tainted || !growable { return false; }
        ok := Realloc(n);
        return;
      }
      return true;
    }

    method ReserveSpace(n: nat) returns (ok: bool)
      requires Valid() && n <= MAX_U32
      modifies this, mem
      ensures Valid() && Tracked()
      ensures Value() == S.ReserveSpace(env, old(Value()), n).b && ok == S.ReserveSpace(env, old(Value()), n).ok
    {
      if size - write < n {
        if !growable { return false; }
        var growth := Max(n - (size - write), S.MIN_GROWTH);
        if size + growth > MAX_U32 { return false; }
        ok := Resize(size + growth);
        return;
      }
      return true;
    }

    method Rewrite()
      requires Valid()
      modifies `read, `write
      ensures Valid() && Value() == S.Rewrite(old(Value())).b
    {
      write := 0;
      read := 0;
    }

    method RewindRead(n: nat) returns (ok: bool)
      requires Valid()
      modifies `read
      ensures Valid() && Value() == S.RewindRead(old(Value()), n).b && ok == S.RewindRead(old(Value()), n).ok
      ensures ok == (old(read) >= n) && read == if ok then old(read) - n else old(read)
    {
      if read < n { return false; }
      read := read - n;
      return true;
    }

    method Reread()
      requires Valid()
      modifies `read
      ensures Valid() && Value() == S.Reread(old(Value())).b && read == 0
    {
      read := 0;
    }

    method WipeN(n: nat)
      requires Valid()
      modifies this, mem
      ensures Valid() && mem == old(mem) && Tracked()
      ensures Value() == S.WipeN(old(Value()), n).b
    {
      var k := Min(n, write);
      write := write - k;
      read := Min(read, write);
      Set(mem, write, S.WIPE, k);
    }

    method Wipe()
      requires Valid()
      modifies this, mem
      ensures Valid() && mem == old(mem) && Tracked()
      ensures Value() == S.Wipe(old(Value())).b
    {
      if high != 0 { Set(mem, 0, S.WIPE, high); }
      tainted, write, read, high := false, 0, 0, 0;
      assert mem[..] == Splice(old(mem[..]), 0, Fill(S.WIPE, old(high)));
    }

    method SkipRead(n: nat) returns (ok: bool)
      requires Valid()
      modifies `read
      ensures Valid() && Value() == S.SkipRead(old(Value()), n).b && ok == S.SkipRead(old(Value()), n).ok
      ensures ok == (write - old(read) >= n) && read == if ok then old(read) + n else old(read)
    {
      if write - read < n { return false; }
      read := read + n;
      return true;
    }

    /** The pointer handed out is the offset `at` of the present memory. */
    method RawRead(n: nat) returns (ok: bool, at: nat)
      requires Valid()
      modifies `read, `tainted
      ensures Valid() && Value() == S.RawRead(old(Value()), n).b && ok == S.RawRead(old(Value()), n).ok
      ensures ok ==> at == old(read)
    {
      ok := SkipRead(n);
      if !ok { return false, 0; }
      tainted := true;
      at := read - n;
    }

    method ReadBytes(n: nat) returns (ok: bool, bytes: seq<byte>)
      requires Valid()
      modifies `read
      ensures Valid()
      ensures S.Out(Value(), ok, bytes) == S.ReadBytes(old(Value()), n)
    {
      hide S.Valid, Stuffer.Valid;
      ghost var b := Value();
      ok := SkipRead(n);
      if !ok || mem.Length == 0 { return false, []; }
      bytes := mem[read - n..read];
      assert bytes == b.mem[b.read..b.read + n];
    }

    method EraseAndRead(n: nat) returns (ok: bool, bytes: seq<byte>)
      requires Valid()
      modifies this, mem
      ensures Valid() && mem == old(mem) && Tracked()
      ensures S.Out(Value(), ok, bytes) == S.EraseAndRead(old(Value()), n)
    {
      ok := SkipRead(n);
      if !ok { return false, []; }
      bytes := mem[read - n..read];
      Set(mem, read - n, 0, n);
    }

    method SkipWrite(n: nat) returns (ok: bool)
      requires Valid() && n <= MAX_U32
      modifies this, mem
      ensures Valid() && Tracked()
      ensures Value() == S.SkipWrite(env, old(Value()), n).b && ok == S.SkipWrite(env, old(Value()), n).ok
      ensures ok ==> write == old(write) + n && read == old(read)
    {
      ok := ReserveSpace(n);
      if !ok { return; }
      write := write + n;
      high := Max(write, high);
    }

    method RawWrite(n: nat) returns (ok: bool, at: nat)
      requires Valid() && n <= MAX_U32
      modifies this, mem
      ensures Valid() && Tracked()
      ensures Value() == S.RawWrite(env, old(Value()), n).b && ok == S.RawWrite(env, old(Value()), n).ok
      ensures ok ==> at == old(write) && write == at + n
    {
      hide S.ReserveSpace;
      ok := SkipWrite(n);
      if !ok { return false, 0; }
      tainted := true;
      at := write - n;
    }

    /** Makes room for the bytes and copies them in. */
    method SkipAndStore(data: seq<byte>) returns (ok: bool)
      requires Valid() && |data| <= MAX_U32
      modifies this, mem
      ensures Valid() && Tracked()
      ensures Value() == S.SkipAndStore(env, old(Value()), data).b && ok == S.SkipAndStore(env, old(Value()), data).ok
    {
      hide S.ReserveSpace;
      ok := SkipWrite(|data|);
      if !ok { return; }
      Put(mem, write - |data|, data);
    }

    method WriteBytes(data: seq<byte>) returns (ok: bool)
      requires Valid() && |data| <= MAX_U32
      modifies this, mem
      ensures Valid() && Tracked()
      ensures Value() == S.WriteBytes(env, old(Value()), data).b && ok == S.WriteBytes(env, old(Value()), data).ok
    {
      hide S.SkipAndStore;
      if |data| == 0 { return true; }
      ok := SkipAndStore(data);
    }

    /** Scatter-gather write: `iov` are the caller's buffers. */
    method WritevBytes(iov: seq<seq<byte>>, offs: nat, n: nat) returns (ok: bool)
      requires Valid() && n <= MAX_U32
      modifies this, mem
      ensures Valid() && Tracked()
      ensures Value() == S.WritevBytes(env, old(Value()), iov, offs, n).b && ok == S.WritevBytes(env, old(Value()), iov, offs, n).ok
    {
      hide S.ReserveSpace;
      var ptr;
      ok, ptr := RawWrite(n);
      if !ok { return; }
      ok := Scatter(mem, iov, offs, n, ptr);
    }

    method CopyImpl(to: Stuffer, len: nat) returns (ok: bool)
      requires this != to && mem != to.mem && Valid() && to.Valid() && len <= MAX_U32
      modifies `read, to, to.mem
      ensures to.Valid() && to.Tracked()
      ensures ok <==> old(write - read) >= len && S.SkipWrite(to.env, old(to.Value()), len).ok
      ensures ok ==> read == old(read) + len
      ensures ok ==> to.Value() == S.SkipAndStore(to.env, old(to.Value()), old(mem[read..read + len])).b
      ensures !ok ==> to.Value() == old(to.Value()).(asks := to.asks)
    {
      hide S.SkipWrite, S.SkipAndStore;
      ok := SkipRead(len);
      if !ok { return; }
      ok := to.SkipAndStore(mem[read - len..read]);
    }

    /** Moves `len` unread bytes of this stuffer to the end of another; on failure both keep what they had. */
    method CopyTo(to: Stuffer, len: nat) returns (ok: bool)
      requires this != to && mem != to.mem && Valid() && to.Valid() && len <= MAX_U32
      modifies `read, to, to.mem
      ensures Valid() && to.Valid() && to.Tracked()
      ensures ok <==> old(write - read) >= len && S.SkipWrite(to.env, old(to.Value()), len).ok
      ensures read == (if ok then old(read) + len else old(read))
      ensures ok ==> to.Value() == S.SkipAndStore(to.env, old(to.Value()), old(mem[read..read + len])).b
      ensures !ok ==> to.Value() == old(to.Value()).(asks := to.asks)
    {
      var origRead, origWrite := read, to.write;
      ok := CopyImpl(to, len);
      if !ok {
        read := origRead;
        to.write := origWrite;
      }
    }

    method Shift()
      requires Valid()
      modifies this, mem
      ensures Valid() && mem == old(mem) && Tracked()
      ensures Value() == S.Shift(old(Value())).b
    {
      var n := write - read;
      forall i | 0 <= i < n { mem[i] := mem[read + i]; }
      assert mem[..] == Splice(old(mem[..]), 0, old(mem[read..write]));
      read, write := 0, n;
      high := Max(write, high);
    }

    /** The second pass over a format stores as much of the text as there is room for, and a zero. The raw pointer
        used for it does not outlive the call, so the taint flag is put back. */
    method Format(size: nat, text: seq<byte>) returns (ok: bool)
      requires Valid() && size < S.MAX_INT && |text| <= size
      modifies this, mem
      ensures Valid() && Tracked() && ok == S.SkipWrite(env, old(Value()), size + 1).ok
      ensures !ok ==> Value() == S.SkipWrite(env, old(Value()), size + 1).b
      ensures ok ==> Value() == S.Formatted(S.SkipWrite(env, old(Value()), size + 1).b, old(write), text)
    {
      hide S.SkipWrite, Splice;
      var before, at := tainted, 0;
      ok, at := RawWrite(size + 1);
      tainted := before;
      if !ok { return; }
      ghost var room := Value();
      Put(mem, at, text + [0]);
      assert Value() == S.Formatted(room, at, text);
    }

    /** Formatted output; `size` is what the first pass over the format reports, `text` what the second produces. */
    method Printf(size: int, text: seq<byte>) returns (ok: bool)
      requires Valid()
      modifies this, mem
      ensures Valid() && Tracked()
      ensures Value() == S.Printf(env, old(Value()), size, text).b && ok == S.Printf(env, old(Value()), size, text).ok
    {
      hide S.SkipWrite, S.WipeN, S.Formatted, Stuffer.Valid, Stuffer.Value, S.Valid, S.SkipAndStore;
      if !(0 <= size < S.MAX_INT) { return false; }
      ghost var e, v := env, Value();
      var written := if |text| > size then text[..size] else text;
      ok := Format(size, written);
      if !ok {
        if |text| == size { S.FormatRefused(e, v, text); }
        return;
      }
      S.FormattedIs(e, v, size, text, written);
      if |text| != size {
        WipeN(size + 1);
        return false;
      }
      WipeN(1);
    }

    method WriteNetworkOrder(v: nat, len: nat) returns (ok: bool)
      requires Valid() && v <= MAX_U64 && len < 256
      modifies this, mem
      ensures Valid() && Tracked()
      ensures Value() == S.WriteNetworkOrder(env, old(Value()), v, len).b && ok == S.WriteNetworkOrder(env, old(Value()), v, len).ok
    {
      hide S.ReserveSpace;
      if len == 0 { return true; }
      if len > 8 { return false; }
      ok := SkipWrite(len);
      if !ok { return; }
      StoreBigEndian(mem, write - len, v, len);
    }

    method WriteUint24(u: nat) returns (ok: bool)
      requires Valid() && u <= MAX_U32
      modifies this, mem
      ensures Valid() && Tracked()
      ensures ok == (u < 0x100_0000 && S.SkipWrite(env, old(Value()), 3).ok)
      ensures ok ==> Value() == S.SkipAndStore(env, old(Value()), BE(u, 3)).b
    {
      hide S.SkipAndStore, S.SkipWrite;
      if u >= 0x100_0000 { return false; }
      ok := WriteNetworkOrder(u, 3);
    }

    /** Leaves `len` bytes for a number written later; the reservation is the offset `at`. */
    method Reserve(len: nat) returns (ok: bool, at: nat)
      requires Valid() && len < 256
      modifies this, mem
      ensures Valid() && Tracked()
      ensures Value() == S.Reserve(env, old(Value()), len).b && ok == S.Reserve(env, old(Value()), len).ok
      ensures at == old(write)
    {
      hide S.ReserveSpace;
      at := write;
      ok := SkipWrite(len);
      if !ok { return; }
      Set(mem, at, S.WIPE, len);
    }

    method WriteReservation(at: nat, len: nat, v: nat) returns (ok: bool)
      requires Valid() && len < 256 && v <= MAX_U32
      modifies this, mem
      ensures Valid() && mem == old(mem) && Tracked()
      ensures Value() == S.WriteReservation(old(Value()), at, len, v).b && ok == S.WriteReservation(old(Value()), at, len, v).ok
    {
      hide S.Resize;
      if at + len > write || at < read { return false; }
      var oldWrite := write;
      write := at;
      Pow256Values();
      assert S.ReserveSpace(env, Value(), len) == S.Done(Value());
      if len > 4 || (len < 4 && v >= Pow256(len)) {
        ok := false;
      } else {
        ok := WriteNetworkOrder(v, len);
      }
      write := oldWrite;
    }

    method WriteVectorSize(at: nat, len: nat) returns (ok: bool)
      requires Valid() && len < 256
      modifies this, mem
      ensures Valid() && mem == old(mem) && Tracked()
      ensures Value() == S.WriteVectorSize(old(Value()), at, len).b && ok == S.WriteVectorSize(old(Value()), at, len).ok
    {
      if at + len > write || at < read { return false; }
      ok := WriteReservation(at, len, write - (at + len));
    }
  }

  /** Amid a vectored write: `done` is taken, `left` bytes are still to be taken from buffer `i` on. */
  ghost predicate Amid(iov: seq<seq<byte>>, offs: nat, n: nat, i: nat, skip: nat, left: nat, done: seq<byte>): (r: bool)
    ensures r ==> i <= |iov| && |done| + left == n
  {
    && i <= |iov| && |done| + left == n
    && S.Gather(iov, offs, n) == done + S.Gather(iov[i..], skip, left)
    && S.Oversized(iov, offs, n) == S.Oversized(iov[i..], skip, left)
  }

  lemma AmidStarts(iov: seq<seq<byte>>, offs: nat, n: nat)
    ensures Amid(iov, offs, n, 0, offs, n, [])
  {
    assert iov[0..] == iov && [] + S.Gather(iov, offs, n) == S.Gather(iov, offs, n);
  }

  /** A buffer is skipped, refused, or taken from; the last of these may complete the write. */
  lemma AmidSteps(iov: seq<seq<byte>>, offs: nat, n: nat, i: nat, skip: nat, left: nat, done: seq<byte>)
    requires Amid(iov, offs, n, i, skip, left, done) && i < |iov|
    ensures skip >= |iov[i]| ==> Amid(iov, offs, n, i + 1, skip - |iov[i]|, left, done)
    ensures |iov[i]| - skip > MAX_U32 ==> S.Gather(iov, offs, n) == done && S.Oversized(iov, offs, n)
    ensures skip < |iov[i]| <= skip + MAX_U32 ==>
              var take := Min(left, |iov[i]| - skip);
              var done' := done + iov[i][skip..skip + take];
              if left == take then S.Gather(iov, offs, n) == done' && !S.Oversized(iov, offs, n)
              else Amid(iov, offs, n, i + 1, 0, left - take, done')
  {
    hide S.Gather, S.Oversized;
    GatherStep(iov, i, skip, left);
    if skip < |iov[i]| {
      var take := Min(left, |iov[i]| - skip);
      var piece, rest := iov[i][skip..skip + take], S.Gather(iov[i + 1..], 0, left - take);
      assert done + (piece + rest) == (done + piece) + rest;
    }
  }

  lemma AmidEnds(iov: seq<seq<byte>>, offs: nat, n: nat, skip: nat, left: nat, done: seq<byte>)
    requires Amid(iov, offs, n, |iov|, skip, left, done)
    ensures S.Gather(iov, offs, n) == done && !S.Oversized(iov, offs, n)
  {
  }

  /** Copies the wanted stretch of the caller's buffers to offset `ptr0`, buffer by buffer. */
  method Scatter(a: array<byte>, iov: seq<seq<byte>>, offs: nat, n: nat, ptr0: nat) returns (ok: bool)
    requires ptr0 + n <= a.Length
    modifies a
    ensures a[..] == Splice(old(a[..]), ptr0, S.Gather(iov, offs, n)) && ok == !S.Oversized(iov, offs, n)
  {
    hide Splice, S.Gather, S.Oversized, Amid;
    ghost var before, done: seq<byte> := a[..], [];
    var left: nat, skip: nat := n, offs;
    AmidStarts(iov, offs, n);
    SpliceNothing(before, ptr0);
    var i := 0;
    while i < |iov|
      invariant Amid(iov, offs, n, i, skip, left, done) && a[..] == Splice(before, ptr0, done)
    {
      AmidSteps(iov, offs, n, i, skip, left, done);
      if skip >= |iov[i]| {
        skip := skip - |iov[i]|;
        i := i + 1;
        continue;
      }
      if |iov[i]| - skip > MAX_U32 { return false; }
      var take := Min(left, |iov[i]| - skip);
      var piece := iov[i][skip..skip + take];
      SpliceTwice(before, ptr0, done, piece);
      Put(a, ptr0 + n - left, piece);
      done := done + piece;
      left := left - take;
      if left == 0 { return true; }
      skip := 0;
      i := i + 1;
    }
    AmidEnds(iov, offs, n, skip, left, done);
    return true;
  }

  lemma SpliceNothing(s: seq<byte>, at: nat)
    requires at <= |s|
    ensures Splice(s, at, []) == s
  {
  }

  /** Stores the low `len` bytes of `v` at offset `at`, most significant first. */
  method StoreBigEndian(a: array<byte>, at: nat, v: nat, len: nat)
    requires at + len <= a.Length
    modifies a
    ensures a[..] == Splice(old(a[..]), at, BE(v, len))
  {
    for i := 0 to len
      invariant a[..] == Splice(old(a[..]), at, BE(v, len)[..i])
    {
      BEAt(v, len, i);
      a[at + i] := ShiftedByte(v, len - i - 1);
    }
    assert BE(v, len)[..len] == BE(v, len);
  }

  /** One round of the gathering loop: what is still wanted comes from buffer `i`, then the later ones. */
  lemma GatherStep(iov: seq<seq<byte>>, i: nat, skip: nat, left: nat)
    requires i < |iov|
    ensures skip >= |iov[i]| ==>
              && S.Gather(iov[i..], skip, left) == S.Gather(iov[i + 1..], skip - |iov[i]|, left)
              && S.Oversized(iov[i..], skip, left) == S.Oversized(iov[i + 1..], skip - |iov[i]|, left)
    ensures |iov[i]| - skip > MAX_U32 ==> S.Gather(iov[i..], skip, left) == [] && S.Oversized(iov[i..], skip, left)
    ensures skip < |iov[i]| <= skip + MAX_U32 ==>
              var take := Min(left, |iov[i]| - skip);
              && S.Gather(iov[i..], skip, left) == iov[i][skip..skip + take] + S.Gather(iov[i + 1..], 0, left - take)
              && (left > take ==> S.Oversized(iov[i..], skip, left) == S.Oversized(iov[i + 1..], 0, left - take))
              && (left == take ==> !S.Oversized(iov[i..], skip, left))
  {
    S.GatherUnfolds(iov[i..], skip, left);
    hide S.Gather, S.Oversized;
    assert iov[i..][1..] == iov[i + 1..] && iov[i..][0] == iov[i];
  }
}
