/** The stuffer as a value: what each operation of the buffer does to its bytes, cursors and flags.
    The class in Stuffer.dfy is proved equal to these functions; the laws over whole runs are in
    StufferRuns.dfy. */
module StufferSpec {
  import opened Bytes

  const WIPE: byte := 'w' as int
  const MAX_INT: nat := 0x7FFF_FFFF
  const MIN_GROWTH: nat := 1024

  /** The allocator's answers: to its k-th request, for n bytes, it either refuses or hands out a block
      of at least n bytes with whatever contents that memory holds. */
  type Env = e: (nat, nat) -> Option<seq<byte>>
    | forall k, n :: e(k, n).Some? ==> |e(k, n).value| >= n
    witness (k: nat, n: nat) => None

  /** `mem` is the backing memory, `size` the part of it the blob admits to owning; a NULL blob has no
      memory at all. `asks` counts the times memory was asked for, given up or taken over, and `block`
      names the present memory by that count, so that replacing it is visible. */
  datatype Buf = Buf(mem: seq<byte>, size: nat, read: nat, write: nat, high: nat,
                     alloced: bool, growable: bool, tainted: bool, asks: nat, block: nat)

  ghost predicate Valid(b: Buf) {
    && b.read <= b.write <= b.high <= b.size <= |b.mem|
    && b.size <= MAX_U32
    && (b.growable ==> b.alloced)
    && b.block <= b.asks
  }

  /** New state, success, and the bytes handed to the caller. */
  datatype Out = Out(b: Buf, ok: bool, bytes: seq<byte>)

  function Done(b: Buf): Out { Out(b, true, []) }

  function Failed(b: Buf): Out { Out(b, false, []) }

  function Written(b: Buf): seq<byte>
    requires b.write <= |b.mem|
  {
    b.mem[..b.write]
  }

  function Unread(b: Buf): seq<byte>
    requires b.read <= b.write <= |b.mem|
  {
    b.mem[b.read..b.write]
  }

  // ---------------------------------------------------------------- creation

  const Zeroed: Buf := Buf([], 0, 0, 0, 0, false, false, false, 0, 0)

  function Init(b: Buf, blob: seq<byte>): (r: Out)
    requires |blob| <= MAX_U32
    ensures Valid(r.b)
  {
    Done(Buf(blob, |blob|, 0, 0, 0, false, false, false, b.asks + 1, b.asks + 1))
  }

  function Alloc(e: Env, b: Buf, n: nat, growable: bool): (r: Out)
    requires n <= MAX_U32
    ensures Valid(r.b)
  {
    var zero := Zeroed.(asks := b.asks + 1, block := b.asks + 1);
    if n == 0 then Done(zero.(alloced := true, growable := growable))
    else match e(b.asks, n)
      case None => Failed(zero)
      case Some(m) => Done(Buf(m, n, 0, 0, 0, true, growable, false, b.asks + 1, b.asks + 1))
  }

  function Free(b: Buf): (r: Out)
    ensures Valid(r.b)
  {
    Done(Zeroed.(asks := b.asks + 1, block := b.asks + 1))
  }

  // ---------------------------------------------------------------- memory

  /** Enlarging the blob: inside the block when it has room, else in a new block that keeps the old bytes. */
  function Realloc(e: Env, b: Buf, n: nat): (r: Out)
    requires Valid(b) && b.size <= n <= MAX_U32
    ensures Valid(r.b)
  {
    if n == 0 then Done(b)
    else if n <= |b.mem| then Done(b.(size := n))
    else match e(b.asks, n)
      case None => Failed(b.(asks := b.asks + 1))
      case Some(m) => Done(b.(mem := b.mem[..b.size] + m[b.size..], size := n,
                              asks := b.asks + 1, block := b.asks + 1))
  }

  function Wipe(b: Buf): (r: Out)
    requires Valid(b)
    ensures Valid(r.b)
  {
    Done(b.(mem := Splice(b.mem, 0, Fill(WIPE, b.high)), tainted := false, read := 0, write := 0, high := 0))
  }

  function Resize(e: Env, b: Buf, n: nat): (r: Out)
    requires Valid(b) && n <= MAX_U32
    ensures Valid(r.b)
    ensures !r.ok ==> r.b == b.(asks := r.b.asks)
  {
    if b.tainted || !b.growable then Failed(b)
    else if n == b.size then Done(b)
    else if n == 0 then Done(Wipe(b).b.(mem := [], size := 0, asks := b.asks + 1, block := b.asks + 1))
    else if n < b.size then
      Done(b.(mem := Splice(b.mem, n, Fill(WIPE, b.size - n)), size := n,
              read := Min(b.read, n), write := Min(b.write, n), high := Min(b.high, n)))
    else Realloc(e, b, n)
  }

  function ResizeIfEmpty(e: Env, b: Buf, n: nat): (r: Out)
    requires Valid(b) && n <= MAX_U32
    ensures Valid(r.b)
  {
    if |b.mem| != 0 then Done(b)
    else if b.tainted || !b.growable then Failed(b)
    else Realloc(e, b, n)
  }

  /** What making room may do: nothing but enlarge the blob, and not even that under a raw pointer. */
  ghost predicate Roomier(b: Buf, r: Buf) {
    && Valid(b) && Valid(r)
    && |r.mem| >= |b.mem| && r.size >= b.size && r.mem[..b.size] == b.mem[..b.size]
    && r == b.(mem := r.mem, size := r.size, asks := r.asks, block := r.block)
    && (r.block == b.block ==> r.mem == b.mem)
    && (b.tainted ==> r.mem == b.mem && r.size == b.size && r.block == b.block)
  }

  function ReserveSpace(e: Env, b: Buf, n: nat): (r: Out)
    requires Valid(b)
    ensures Roomier(b, r.b)
    ensures r.bytes == []
    ensures r.ok ==> r.b.size - r.b.write >= n
    ensures !r.ok ==> r.b == b.(asks := r.b.asks)
  {
    if b.size - b.write >= n then Done(b)
    else if !b.growable then Failed(b)
    else
      var target := b.size + Max(n - (b.size - b.write), MIN_GROWTH);
      if target > MAX_U32 then Failed(b) else Resize(e, b, target)
  }

  // ---------------------------------------------------------------- cursors

  function Rewrite(b: Buf): (r: Out)
    requires Valid(b)
    ensures Valid(r.b)
  {
    Done(b.(read := 0, write := 0))
  }

  function RewindRead(b: Buf, n: nat): (r: Out)
    requires Valid(b)
    ensures Valid(r.b)
  {
    if b.read >= n then Done(b.(read := b.read - n)) else Failed(b)
  }

  function Reread(b: Buf): (r: Out)
    requires Valid(b)
    ensures Valid(r.b)
  {
    Done(b.(read := 0))
  }

  function WipeN(b: Buf, n: nat): (r: Out)
    requires Valid(b)
    ensures Valid(r.b) && r.ok && r.bytes == []
  {
    var k := Min(n, b.write);
    Done(b.(mem := Splice(b.mem, b.write - k, Fill(WIPE, k)),
            write := b.write - k, read := Min(b.read, b.write - k)))
  }

  // ---------------------------------------------------------------- reading

  function SkipRead(b: Buf, n: nat): (r: Out)
    requires Valid(b)
    ensures Valid(r.b)
  {
    if b.write - b.read >= n then Done(b.(read := b.read + n)) else Failed(b)
  }

  function RawRead(b: Buf, n: nat): (r: Out)
    requires Valid(b)
    ensures Valid(r.b)
  {
    var s := SkipRead(b, n);
    if s.ok then Done(s.b.(tainted := true)) else s
  }

  function ReadBytes(b: Buf, n: nat): (r: Out)
    requires Valid(b)
    ensures Valid(r.b)
  {
    var s := SkipRead(b, n);
    if !s.ok || |b.mem| == 0 then Failed(b) else Out(s.b, true, b.mem[b.read..b.read + n])
  }

  function EraseAndRead(b: Buf, n: nat): (r: Out)
    requires Valid(b)
    ensures Valid(r.b)
  {
    var s := SkipRead(b, n);
    if !s.ok then s
    else Out(s.b.(mem := Splice(b.mem, b.read, Fill(0, n))), true, b.mem[b.read..b.read + n])
  }

  // ---------------------------------------------------------------- writing

  /** `r` is `b` with `data` stored at the write cursor, in memory that may have grown. */
  ghost predicate Stored(b: Buf, r: Buf, data: seq<byte>) {
    && Valid(b) && Valid(r)
    && r.write == b.write + |data| && r.read == b.read && r.high == Max(r.write, b.high)
    && (b.tainted ==> r.tainted) && r.alloced == b.alloced && r.growable == b.growable
    && r.size >= b.size && |r.mem| >= |b.mem|
    && (r.block == b.block || b.tainted ==> |r.mem| == |b.mem| && r.block == b.block)
    && (b.tainted ==> r.size == b.size)
    && r.mem[b.write..r.write] == data
    && (forall i :: 0 <= i < |b.mem| && !(b.write <= i < r.write) && (r.block == b.block || i < b.size) ==>
          r.mem[i] == b.mem[i])
  }

  /** Bytes inside the stored stretch may be overwritten. */
  lemma StoredOverwrite(b: Buf, r: Buf, data: seq<byte>, over: seq<byte>)
    requires Stored(b, r, data) && |over| <= |data|
    ensures Stored(b, r.(mem := Splice(r.mem, b.write, over)), Splice(data, 0, over))
  {
  }

  /** Stored bytes go to the back of what is unread. */
  lemma StoredAppends(b: Buf, r: Buf, data: seq<byte>)
    requires Stored(b, r, data)
    ensures Unread(r) == Unread(b) + data && Written(r) == Written(b) + data
  {
    assert r.mem[..r.write] == r.mem[..b.write] + r.mem[b.write..r.write];
    assert r.mem[..b.write] == b.mem[..b.write];
    assert r.mem[r.read..r.write] == r.mem[..r.write][r.read..];
  }

  function SkipWrite(e: Env, b: Buf, n: nat): (r: Out)
    requires Valid(b)
    ensures Valid(r.b) && r.bytes == [] && r.b.tainted == b.tainted
    ensures !r.ok ==> r.b == b.(asks := r.b.asks)
    ensures r.ok ==> r.b.write == b.write + n <= |r.b.mem| && Stored(b, r.b, r.b.mem[b.write..b.write + n])
  {
    var r := ReserveSpace(e, b, n);
    if !r.ok then r
    else Done(r.b.(write := r.b.write + n, high := Max(r.b.write + n, r.b.high)))
  }

  function RawWrite(e: Env, b: Buf, n: nat): (r: Out)
    requires Valid(b)
    ensures Valid(r.b)
    ensures !r.ok ==> r.b == b.(asks := r.b.asks)
    ensures r.bytes == []
    ensures r.ok ==> r.b.write == b.write + n && r.b.tainted && Stored(b, r.b, r.b.mem[b.write..b.write + n])
  {
    var s := SkipWrite(e, b, n);
    if s.ok then Done(s.b.(tainted := true)) else s
  }

  /** Room is made for the bytes, and they are stored there. */
  function SkipAndStore(e: Env, b: Buf, data: seq<byte>): (r: Out)
    requires Valid(b)
    ensures Valid(r.b)
    ensures r.ok == SkipWrite(e, b, |data|).ok
    ensures !r.ok ==> r.b == b.(asks := r.b.asks)
    ensures r.b.tainted == b.tainted && r.bytes == [] && (r.ok ==> Stored(b, r.b, data))
  {
    var s := SkipWrite(e, b, |data|);
    if s.ok then Done(s.b.(mem := Splice(s.b.mem, b.write, data))) else s
  }

  function WriteBytes(e: Env, b: Buf, data: seq<byte>): (r: Out)
    requires Valid(b)
    ensures Valid(r.b)
    ensures !r.ok ==> r.b == b.(asks := r.b.asks)
  {
    if data == [] then Done(b) else SkipAndStore(e, b, data)
  }

  /** Storing no bytes is no exception. */
  lemma WriteBytesIsSkipAndStore(e: Env, b: Buf, data: seq<byte>)
    requires Valid(b)
    ensures WriteBytes(e, b, data) == SkipAndStore(e, b, data)
  {
    if data == [] { assert Splice(b.mem, b.write, data) == b.mem; }
  }

  /** A write that fits is never refused and stays in the same memory. */
  lemma WriteFits(e: Env, b: Buf, data: seq<byte>)
    requires Valid(b) && b.write + |data| <= b.size
    ensures var r := WriteBytes(e, b, data);
            r.ok && Stored(b, r.b, data) && r.b.size == b.size && r.b.block == b.block && Written(r.b) == Written(b) + data
  {
    WriteBytesIsSkipAndStore(e, b, data);
    hide Splice;
    StoredAppends(b, SkipAndStore(e, b, data).b, data);
  }

  /** The bytes a vectored write takes: `n` of them after skipping `offs`, as far as they exist; it stops at a
      buffer of which more than 32 bits can count would be left. */
  function Gather(iov: seq<seq<byte>>, offs: nat, n: nat): (g: seq<byte>)
    ensures |g| <= n
  {
    if iov == [] then []
    else if offs >= |iov[0]| then Gather(iov[1..], offs - |iov[0]|, n)
    else if |iov[0]| - offs > MAX_U32 then []
    else
      var take := Min(n, |iov[0]| - offs);
      iov[0][offs..offs + take] + Gather(iov[1..], 0, n - take)
  }

  /** Whether it comes to such a buffer before it has all its bytes. */
  function Oversized(iov: seq<seq<byte>>, offs: nat, n: nat): bool {
    if iov == [] then false
    else if offs >= |iov[0]| then Oversized(iov[1..], offs - |iov[0]|, n)
    else if |iov[0]| - offs > MAX_U32 then true
    else n > |iov[0]| - offs && Oversized(iov[1..], 0, n - (|iov[0]| - offs))
  }

  lemma GatherUnfolds(iov: seq<seq<byte>>, offs: nat, n: nat)
    requires iov != []
    ensures Concat(iov) == iov[0] + Concat(iov[1..])
    ensures offs >= |iov[0]| ==>
              && Gather(iov, offs, n) == Gather(iov[1..], offs - |iov[0]|, n)
              && Oversized(iov, offs, n) == Oversized(iov[1..], offs - |iov[0]|, n)
    ensures |iov[0]| - offs > MAX_U32 ==> Gather(iov, offs, n) == [] && Oversized(iov, offs, n)
    ensures offs < |iov[0]| <= offs + MAX_U32 ==>
              var take := Min(n, |iov[0]| - offs);
              && Gather(iov, offs, n) == iov[0][offs..offs + take] + Gather(iov[1..], 0, n - take)
              && (n > take ==> Oversized(iov, offs, n) == Oversized(iov[1..], 0, n - take))
              && (n == take ==> !Oversized(iov, offs, n))
  {
  }

  /** Up to `n` bytes after the first `offs`. */
  function SliceOf(all: seq<byte>, offs: nat, n: nat): seq<byte> {
    all[Min(offs, |all|)..Min(offs + n, |all|)]
  }

  /** They are the slice of the buffers laid end to end, or where a buffer is oversized the beginning of it. */
  lemma {:induction false} GatherIsSlice(iov: seq<seq<byte>>, offs: nat, n: nat)
    ensures var slice := SliceOf(Concat(iov), offs, n);
            Gather(iov, offs, n) <= slice && (!Oversized(iov, offs, n) ==> Gather(iov, offs, n) == slice)
  {
    hide Concat, Gather, Oversized, SliceOf;
    if iov == [] {
      GatherNothing(offs, n);
    } else {
      var first, rest := iov[0], Concat(iov[1..]);
      GatherUnfolds(iov, offs, n);
      SliceAcross(first, rest, offs, n);
      if offs >= |first| {
        GatherIsSlice(iov[1..], offs - |first|, n);
      } else {
        var take := Min(n, |first| - offs);
        GatherIsSlice(iov[1..], 0, n - take);
        SameFront(first[offs..offs + take], Gather(iov[1..], 0, n - take), SliceOf(rest, 0, n - take));
        if n == take { SliceOfNothing(rest); }
      }
    }
  }

  lemma GatherNothing(offs: nat, n: nat)
    ensures Gather([], offs, n) == [] && SliceOf(Concat([]), offs, n) == []
  {
  }

  lemma SameFront(x: seq<byte>, y: seq<byte>, z: seq<byte>)
    requires y <= z
    ensures x + y <= x + z
  {
  }

  lemma SliceOfNothing(s: seq<byte>)
    ensures SliceOf(s, 0, 0) == []
  {
  }

  lemma SliceAcross(first: seq<byte>, rest: seq<byte>, offs: nat, n: nat)
    ensures SliceOf(first + rest, offs, n) ==
              if offs >= |first| then SliceOf(rest, offs - |first|, n)
              else
                var take := Min(n, |first| - offs);
                first[offs..offs + take] + SliceOf(rest, 0, n - take)
  {
  }

  /** A vectored write that comes to an oversized buffer fails with what it has taken already in place. */
  function WritevBytes(e: Env, b: Buf, iov: seq<seq<byte>>, offs: nat, n: nat): (r: Out)
    requires Valid(b)
    ensures Valid(r.b) && r.bytes == [] && r.ok == (RawWrite(e, b, n).ok && !Oversized(iov, offs, n))
    ensures !RawWrite(e, b, n).ok ==> r.b == b.(asks := r.b.asks)
    ensures RawWrite(e, b, n).ok ==> r.b.write == b.write + n && r.b.tainted && Stored(b, r.b, r.b.mem[b.write..b.write + n])
    ensures RawWrite(e, b, n).ok ==> Gather(iov, offs, n) <= r.b.mem[b.write..b.write + n]
  {
    var s, g := RawWrite(e, b, n), Gather(iov, offs, n);
    if s.ok
    then
      StoredOverwrite(b, s.b, s.b.mem[b.write..b.write + n], g);
      Out(s.b.(mem := Splice(s.b.mem, b.write, g)), !Oversized(iov, offs, n), [])
    else s
  }

  function WriteNetworkOrder(e: Env, b: Buf, v: nat, len: nat): (r: Out)
    requires Valid(b)
    ensures Valid(r.b)
    ensures !r.ok ==> r.b == b.(asks := r.b.asks)
  {
    if len == 0 then Done(b)
    else if len > 8 then Failed(b)
    else SkipAndStore(e, b, BE(v, len))
  }

  /** The bytes a decoder stores, of which the last `trim` are padding and are given back. */
  function WriteTrimmed(e: Env, b: Buf, data: seq<byte>, trim: nat): (r: Out)
    requires Valid(b) && trim <= |data|
    ensures Valid(r.b) && r.ok == SkipWrite(e, b, |data|).ok
  {
    var s := SkipAndStore(e, b, data);
    if s.ok then Done(s.b.(write := s.b.write - trim)) else s
  }

  /** Formatted text, whose size is measured first, is written with its terminator, which is then wiped; no
      pointer to it survives. When the text turns out not to have that size, all of it is wiped and given back. */
  function Printf(e: Env, b: Buf, size: int, text: seq<byte>): (r: Out)
    requires Valid(b)
    ensures Valid(r.b)
    ensures !r.ok && |text| == size ==> r.b == b.(asks := r.b.asks)
  {
    if !(0 <= size < MAX_INT) then Failed(b)
    else if |text| == size then
      var s := SkipAndStore(e, b, text + [0]);
      if s.ok then WipeN(s.b, 1) else s
    else
      var s := SkipWrite(e, b, size + 1);
      if s.ok then WipeN(s.b, size + 1).(ok := false) else s
  }

  /** A text and a terminator in room that has been made for them. */
  function Formatted(room: Buf, at: nat, text: seq<byte>): Buf {
    if at + |text| + 1 <= |room.mem| then room.(mem := Splice(room.mem, at, text + [0])) else room
  }

  lemma FormatRefused(e: Env, b: Buf, text: seq<byte>)
    requires Valid(b) && !SkipWrite(e, b, |text| + 1).ok
    ensures SkipAndStore(e, b, text + [0]) == SkipWrite(e, b, |text| + 1)
  {
    hide SkipWrite;
  }

  /** Text of the measured size is stored, and wiping the room leaves no trace of other text. */
  lemma FormattedIs(e: Env, b: Buf, size: nat, text: seq<byte>, written: seq<byte>)
    requires Valid(b) && SkipWrite(e, b, size + 1).ok && |written| <= size && (|text| == size ==> written == text)
    ensures var room := SkipWrite(e, b, size + 1).b;
            var r := Formatted(room, b.write, written);
            && Valid(r) && WipeN(r, size + 1) == WipeN(room, size + 1)
            && (|text| == size ==> SkipAndStore(e, b, text + [0]).ok && r == SkipAndStore(e, b, text + [0]).b)
  {
    hide SkipWrite;
    var room := SkipWrite(e, b, size + 1).b;
    Overwritten(room.mem, b.write, written + [0], Fill(WIPE, size + 1));
    hide Splice, Fill;
  }

  lemma Overwritten(s: seq<byte>, at: nat, x: seq<byte>, y: seq<byte>)
    requires at + |y| <= |s| && |x| <= |y|
    ensures Splice(Splice(s, at, x), at, y) == Splice(s, at, y)
  {
  }

  function Shift(b: Buf): (r: Out)
    requires Valid(b)
    ensures Valid(r.b)
  {
    Done(b.(mem := Splice(b.mem, 0, Unread(b)), read := 0, write := b.write - b.read))
  }

  // ---------------------------------------------------------------- writes that cannot be refused

  ghost predicate Generous(e: Env) {
    forall k, n :: e(k, n).Some?
  }

  /** There is room for `n` more bytes, or it can be had. */
  ghost predicate Ample(e: Env, b: Buf, n: nat) {
    || b.write + n <= b.size
    || (b.growable && !b.tainted && Generous(e) && b.write + n + MIN_GROWTH <= MAX_U32)
  }

  lemma AmpleSkips(e: Env, b: Buf, n: nat, k: nat)
    requires Valid(b) && Ample(e, b, n) && k <= n
    ensures SkipWrite(e, b, k).ok
    ensures b.growable == SkipWrite(e, b, k).b.growable
  {
  }

  lemma AmpleForLess(e: Env, b: Buf, n: nat, k: nat)
    requires k <= n
    ensures Ample(e, b, n) ==> Ample(e, b, k)
  {
  }

  /** Room that is not used up stays. */
  lemma AmpleAfter(e: Env, b: Buf, r: Buf, n: nat, k: nat)
    requires Ample(e, b, n) && k <= n && r.write <= b.write + k
    requires r.size >= b.size && r.growable == b.growable && r.tainted == b.tainted
    ensures Ample(e, r, n - k)
  {
  }

  // ---------------------------------------------------------------- reservations

  function Reserve(e: Env, b: Buf, len: nat): (r: Out)
    requires Valid(b)
    ensures Valid(r.b)
    ensures !r.ok ==> r.b == b.(asks := r.b.asks)
  {
    SkipAndStore(e, b, Fill(WIPE, len))
  }

  predicate ReservationFits(b: Buf, at: nat, len: nat) {
    b.read <= at && at + len <= b.write
  }

  predicate FitsWidth(v: nat, len: nat) {
    len <= 4 && v < Pow256(len)
  }

  /** Fills in a reserved number; a number too wide for its place is refused and changes nothing. */
  function WriteReservation(b: Buf, at: nat, len: nat, v: nat): (r: Out)
    requires Valid(b)
    ensures Valid(r.b)
    ensures !r.ok ==> r.b == b
  {
    if ReservationFits(b, at, len) && FitsWidth(v, len)
    then Done(b.(mem := Splice(b.mem, at, BE(v, len)))) else Failed(b)
  }

  function WriteVectorSize(b: Buf, at: nat, len: nat): (r: Out)
    requires Valid(b)
    ensures Valid(r.b)
    ensures !r.ok ==> r.b == b
  {
    if ReservationFits(b, at, len) then WriteReservation(b, at, len, b.write - (at + len)) else Failed(b)
  }
}
