/** Laws of the stuffer over whole runs of operations. */
module StufferRuns {
  import opened Bytes
  import opened StufferSpec

  datatype Op =
    | OpInit(blob: seq<byte>)
    | OpAlloc(n: nat, grows: bool)
    | OpFree
    | OpResize(n: nat)
    | OpResizeIfEmpty(n: nat)
    | OpReserveSpace(n: nat)
    | OpRewrite
    | OpRewindRead(n: nat)
    | OpReread
    | OpWipeN(n: nat)
    | OpWipe
    | OpSkipRead(n: nat)
    | OpRawRead(n: nat)
    | OpReadBytes(n: nat)
    | OpEraseAndRead(n: nat)
    | OpSkipWrite(n: nat)
    | OpRawWrite(n: nat)
    | OpWriteBytes(data: seq<byte>)
    | OpWritev(iov: seq<seq<byte>>, offs: nat, n: nat)
    | OpWriteInt(v: nat, len: nat)
    | OpWriteTrimmed(data: seq<byte>, trim: nat)
    | OpPrintf(size: int, text: seq<byte>)
    | OpShift
    | OpReserve(len: nat)
    | OpWriteReservation(at: nat, len: nat, v: nat)
    | OpWriteVectorSize(at: nat, len: nat)
    | OpStoreThroughPointer(at: nat, b: byte)

  /** Arguments are 32-bit numbers, as the C signatures say. */
  predicate Sized(op: Op) {
    match op
    case OpInit(blob) => |blob| <= MAX_U32
    case OpAlloc(n, _) => n <= MAX_U32
    case OpResize(n) => n <= MAX_U32
    case OpResizeIfEmpty(n) => n <= MAX_U32
    case OpWriteTrimmed(data, trim) => trim <= |data|
    case _ => true
  }

  /** One call. Storing through a pointer is what the holder of a raw pointer may do at any time. */
  function Step(e: Env, b: Buf, op: Op): (r: Out)
    requires Valid(b) && Sized(op)
    ensures Valid(r.b)
  {
    match op
    case OpInit(blob) => Init(b, blob)
    case OpAlloc(n, grows) => Alloc(e, b, n, grows)
    case OpFree => Free(b)
    case OpResize(n) => Resize(e, b, n)
    case OpResizeIfEmpty(n) => ResizeIfEmpty(e, b, n)
    case OpReserveSpace(n) => ReserveSpace(e, b, n)
    case OpRewrite => Rewrite(b)
    case OpRewindRead(n) => RewindRead(b, n)
    case OpReread => Reread(b)
    case OpWipeN(n) => WipeN(b, n)
    case OpWipe => Wipe(b)
    case OpSkipRead(n) => SkipRead(b, n)
    case OpRawRead(n) => RawRead(b, n)
    case OpReadBytes(n) => ReadBytes(b, n)
    case OpEraseAndRead(n) => EraseAndRead(b, n)
    case OpSkipWrite(n) => SkipWrite(e, b, n)
    case OpRawWrite(n) => RawWrite(e, b, n)
    case OpWriteBytes(data) => WriteBytes(e, b, data)
    case OpWritev(iov, offs, n) => WritevBytes(e, b, iov, offs, n)
    case OpWriteInt(v, len) => WriteNetworkOrder(e, b, v, len)
    case OpWriteTrimmed(data, trim) => WriteTrimmed(e, b, data, trim)
    case OpPrintf(size, text) => Printf(e, b, size, text)
    case OpShift => Shift(b)
    case OpReserve(len) => Reserve(e, b, len)
    case OpWriteReservation(at, len, v) => WriteReservation(b, at, len, v)
    case OpWriteVectorSize(at, len) => WriteVectorSize(b, at, len)
    case OpStoreThroughPointer(at, x) =>
      if at < |b.mem| then Done(b.(mem := b.mem[at := x])) else Failed(b)
  }

  ghost function Run(e: Env, b: Buf, ops: seq<Op>): (r: Buf)
    requires Valid(b) && forall i :: 0 <= i < |ops| ==> Sized(ops[i])
    ensures Valid(r)
    decreases |ops|
  {
    if ops == [] then b else Run(e, Step(e, b, ops[0]).b, ops[1..])
  }

  // ---------------------------------------------------------------- pointers stay good

  /** The calls that end the life of pointers handed out earlier. */
  predicate EndsPointers(op: Op) {
    op.OpInit? || op.OpAlloc? || op.OpFree? || op.OpWipe?
  }

  lemma TaintPinsMemory(e: Env, b: Buf, op: Op)
    requires Valid(b) && Sized(op) && b.tainted && !EndsPointers(op)
    ensures var r := Step(e, b, op).b;
            r.tainted && r.block == b.block && r.size == b.size && |r.mem| == |b.mem|
  {
    hide Step, Landed, Stores, Range;
    if !Appends(op) {
      OthersPinMemory(e, b, op);
    } else if Landed(e, b, op) {
      AppendingStores(e, b, op);
    } else {
      RefusedWriteChangesNothing(e, b, op);
    }
  }

  lemma OthersPinMemory(e: Env, b: Buf, op: Op)
    requires Valid(b) && Sized(op) && b.tainted && !EndsPointers(op) && !Appends(op)
    ensures var r := Step(e, b, op).b;
            r.tainted && r.block == b.block && r.size == b.size && |r.mem| == |b.mem|
  {
    hide SkipWrite, SkipAndStore, Splice, ReserveSpace, Fill, Unread;
  }

  /** From a raw read or raw write on, no run without a wipe, init, alloc or free replaces or resizes
      the memory. */
  lemma {:induction false} PointersStayGood(e: Env, b: Buf, ops: seq<Op>)
    requires Valid(b) && forall i :: 0 <= i < |ops| ==> Sized(ops[i]) && !EndsPointers(ops[i])
    requires b.tainted
    ensures var r := Run(e, b, ops);
            r.tainted && r.block == b.block && r.size == b.size && |r.mem| == |b.mem|
    decreases |ops|
  {
    if ops != [] {
      TaintPinsMemory(e, b, ops[0]);
      PointersStayGood(e, Step(e, b, ops[0]).b, ops[1..]);
    }
  }

  /** Raw reads and writes do set the flag, and leave the offsets handed out inside the memory. */
  lemma RawCallsTaint(e: Env, b: Buf, n: nat)
    requires Valid(b)
    ensures RawRead(b, n).ok ==> RawRead(b, n).b.tainted && b.read + n <= b.high
    ensures RawWrite(e, b, n).ok ==> RawWrite(e, b, n).b.tainted && b.write + n <= RawWrite(e, b, n).b.high
  {
  }

  // ---------------------------------------------------------------- wiping is complete

  /** A stuffer with the history of its memory: `dirty` holds every offset stored to since the last wipe,
      `ever` every offset stored to since the memory was obtained, `lent` the offsets that raw pointers
      reach. */
  datatype History = History(b: Buf, dirty: set<nat>, ever: set<nat>, lent: set<nat>)

  /** The offsets `at` up to `at + n`. */
  function Range(at: nat, n: nat): (s: set<nat>)
    ensures forall i :: i in s <==> at <= i < at + n
  {
    if n == 0 then {} else Range(at, n - 1) + {at + n - 1}
  }

  /** The offsets a successful call stores to. Skipping the write cursor counts: the caller fills the gap. */
  function Stores(b: Buf, op: Op): set<nat>
    requires Valid(b)
  {
    match op
    case OpSkipWrite(n) => Range(b.write, n)
    case OpRawWrite(n) => Range(b.write, n)
    case OpWriteBytes(data) => Range(b.write, |data|)
    case OpWritev(_, _, n) => Range(b.write, n)
    case OpWriteInt(_, len) => Range(b.write, len)
    case OpWriteTrimmed(data, _) => Range(b.write, |data|)
    case OpPrintf(_, text) => Range(b.write, |text| + 1)
    case OpReserve(len) => Range(b.write, len)
    case OpEraseAndRead(n) => Range(b.read, n)
    case OpShift => Range(0, b.write - b.read)
    case OpWriteReservation(at, len, _) => Range(at, len)
    case OpWriteVectorSize(at, len) => Range(at, len)
    case OpStoreThroughPointer(at, _) => {at}
    case _ => {}
  }

  /** Whether a call has taken effect: it succeeds, or it is a vectored write that comes to an oversized buffer. */
  predicate Landed(e: Env, b: Buf, op: Op)
    requires Valid(b) && Sized(op)
  {
    Step(e, b, op).ok || (op.OpWritev? && RawWrite(e, b, op.n).ok)
  }

  function Lends(b: Buf, op: Op): set<nat>
    requires Valid(b)
  {
    match op
    case OpRawRead(n) => Range(b.read, n)
    case OpRawWrite(n) => Range(b.write, n)
    case OpWritev(_, _, n) => Range(b.write, n)
    case _ => {}
  }

  /** Pointers are used only while they are good, and only inside what was handed out. */
  predicate Legal(h: History, op: Op) {
    Sized(op) && (op.OpStoreThroughPointer? ==> op.at in h.lent)
  }

  /** Offsets of memory that no longer exists, or that the blob has given up, leave the history. */
  ghost function Record(e: Env, h: History, op: Op): History
    requires Valid(h.b) && Sized(op)
  {
    var out := Step(e, h.b, op);
    var stored := if Landed(e, h.b, op) then Stores(h.b, op) else {};
    var kept := if out.b.block == h.b.block then |out.b.mem| else h.b.size;
    if op.OpInit? || op.OpAlloc? || op.OpFree? then History(out.b, {}, {}, {})
    else if op.OpWipe? then History(out.b, {}, h.ever, {})
    else History(out.b,
                 set i | i in h.dirty + stored && i < out.b.size,
                 (set i | i in h.ever && i < kept && i < |out.b.mem|) + stored,
                 if Landed(e, h.b, op) then h.lent + Lends(h.b, op) else h.lent)
  }

  /** What every reachable stuffer satisfies: data is below the high-water mark, memory that was used and
      is not in use holds the wipe pattern, and pointers reach only into the used part. */
  ghost predicate Sound(h: History) {
    && Valid(h.b)
    && (forall i :: i in h.dirty ==> i < h.b.high)
    && h.dirty <= h.ever
    && (forall i :: i in h.ever ==> i < |h.b.mem|)
    && (forall i :: i in h.ever && i !in h.dirty ==> h.b.mem[i] == WIPE)
    && (forall i :: i in h.lent ==> i < h.b.high)
    && (h.lent != {} ==> h.b.tainted)
  }

  /** What a call may do to the memory: it stores where it says, below the high-water mark; any other byte
      it keeps, or overwrites with the wipe pattern; and what the blob gives up is wiped. */
  ghost predicate StoresOnly(b: Buf, r: Out, stored: set<nat>) {
    && Valid(b) && Valid(r.b)
    && (forall i :: i in stored ==> i < r.b.high)
    && r.b.high >= Min(b.high, r.b.size)
    && (forall i :: 0 <= i < |b.mem| && i < |r.b.mem| && i !in stored && (r.b.block == b.block || i < b.size) ==>
          r.b.mem[i] == b.mem[i] || r.b.mem[i] == WIPE)
    && (forall i :: r.b.size <= i < b.size && i < |r.b.mem| ==> r.b.mem[i] == WIPE)
  }

  lemma StoredStoresOnly(b: Buf, r: Out, data: seq<byte>)
    requires Stored(b, r.b, data)
    ensures StoresOnly(b, r, Range(b.write, |data|))
  {
  }

  lemma ResizeStoresOnly(e: Env, b: Buf, op: Op)
    requires Valid(b) && Sized(op) && (op.OpResize? || op.OpResizeIfEmpty? || op.OpReserveSpace?)
    ensures StoresOnly(b, Step(e, b, op), {})
  {
    if op.OpReserveSpace? {
      hide ReserveSpace;
      var r := ReserveSpace(e, b, op.n).b;
      assert forall i :: 0 <= i < b.size ==> r.mem[i] == r.mem[..b.size][i] && b.mem[i] == b.mem[..b.size][i];
    }
  }

  /** The calls that only add bytes at the write cursor. */
  predicate Appends(op: Op) {
    op.OpSkipWrite? || op.OpRawWrite? || op.OpWriteBytes? || op.OpWritev? || op.OpWriteInt? || op.OpReserve?
  }

  lemma AppendingStores(e: Env, b: Buf, op: Op)
    requires Valid(b) && Sized(op) && Appends(op)
    requires Landed(e, b, op)
    ensures var r := Step(e, b, op).b;
            && r.write >= b.write && Stored(b, r, r.mem[b.write..r.write])
            && Stores(b, op) == Range(b.write, r.write - b.write)
  {
    hide Step, Landed, Stores, Stored, Range;
    if op.OpWritev? {
      WritevStores(e, b, op);
    } else {
      PlainStores(e, b, op);
    }
  }

  lemma WritevStores(e: Env, b: Buf, op: Op)
    requires Valid(b) && op.OpWritev?
    requires Landed(e, b, op)
    ensures var r := Step(e, b, op).b;
            && r.write >= b.write && Stored(b, r, r.mem[b.write..r.write])
            && Stores(b, op) == Range(b.write, r.write - b.write)
  {
    hide RawWrite, WritevBytes, Gather, Oversized, Range, Stored;
  }

  lemma PlainStores(e: Env, b: Buf, op: Op)
    requires Valid(b) && Sized(op) && Appends(op) && !op.OpWritev?
    requires Landed(e, b, op)
    ensures var r := Step(e, b, op).b;
            && r.write >= b.write && Stored(b, r, r.mem[b.write..r.write])
            && Stores(b, op) == Range(b.write, r.write - b.write)
  {
    hide SkipWrite, RawWrite, SkipAndStore, Splice, Range;
  }

  lemma TrimmingStoresOnly(e: Env, b: Buf, op: Op)
    requires Valid(b) && Sized(op) && (op.OpWriteTrimmed? || op.OpPrintf?)
    requires Step(e, b, op).ok
    ensures StoresOnly(b, Step(e, b, op), Stores(b, op))
  {
    hide SkipAndStore, WipeN, Range, StoresOnly;
    var data := if op.OpPrintf? then op.text + [0] else op.data;
    var s := SkipAndStore(e, b, data);
    StoredStoresOnly(b, s, data);
    GivingBackStoresOnly(b, s, Range(b.write, |data|), if op.OpPrintf? then 0 else op.trim);
  }

  /** Formatting that is undone stores nothing but the wipe pattern. */
  lemma UndoneStoresOnly(e: Env, b: Buf, op: Op)
    requires Valid(b) && op.OpPrintf? && |op.text| != op.size
    ensures !Step(e, b, op).ok && StoresOnly(b, Step(e, b, op), {})
  {
    hide SkipWrite, WipeN, StoresOnly, Range;
    NothingStored(b, b.asks);
    if 0 <= op.size < MAX_INT {
      var n := op.size + 1;
      var s := SkipWrite(e, b, n);
      if s.ok {
        StoredStoresOnly(b, s, s.b.mem[b.write..b.write + n]);
        WipingStoresOnly(b, s, n);
      } else {
        NothingStored(b, s.b.asks);
      }
    }
  }

  lemma NothingStored(b: Buf, asks: nat)
    requires Valid(b) && Valid(b.(asks := asks))
    ensures StoresOnly(b, Failed(b.(asks := asks)), {})
  {
  }

  lemma WipingStoresOnly(b: Buf, s: Out, n: nat)
    requires StoresOnly(b, s, Range(b.write, n)) && s.b.write == b.write + n && s.b.read == b.read
    ensures StoresOnly(b, WipeN(s.b, n).(ok := false), {})
  {
  }

  /** Moving the write cursor back over what was stored, wiped or not, stores nothing. */
  lemma GivingBackStoresOnly(b: Buf, s: Out, stored: set<nat>, trim: nat)
    requires StoresOnly(b, s, stored) && b.read <= b.write <= s.b.write - trim && s.b.read == b.read
    ensures StoresOnly(b, Done(s.b.(write := s.b.write - trim)), stored)
    ensures StoresOnly(b, WipeN(s.b, 1), stored)
  {
  }

  /** The calls that move cursors or write below the write cursor, in the memory as it is. */
  lemma InPlaceStoresOnly(e: Env, b: Buf, op: Op)
    requires Valid(b) && Sized(op) && !EndsPointers(op) && !Appends(op)
    requires !op.OpWriteTrimmed? && !op.OpPrintf? && !op.OpResize? && !op.OpResizeIfEmpty? && !op.OpReserveSpace?
    requires op.OpStoreThroughPointer? ==> op.at < b.high
    ensures var r := Step(e, b, op);
            StoresOnly(b, r, if Landed(e, b, op) then Stores(b, op) else {})
  {
  }

  lemma StepStoresOnly(e: Env, b: Buf, op: Op)
    requires Valid(b) && Sized(op) && !EndsPointers(op)
    requires op.OpStoreThroughPointer? ==> op.at < b.high
    ensures var r := Step(e, b, op);
            StoresOnly(b, r, if Landed(e, b, op) then Stores(b, op) else {})
  {
    if op.OpResize? || op.OpResizeIfEmpty? || op.OpReserveSpace? {
      ResizeStoresOnly(e, b, op);
    } else if !Appends(op) && !op.OpWriteTrimmed? && !op.OpPrintf? {
      InPlaceStoresOnly(e, b, op);
    } else if op.OpPrintf? && |op.text| != op.size {
      UndoneStoresOnly(e, b, op);
    } else if !Landed(e, b, op) {
      RefusedWriteChangesNothing(e, b, op);
    } else if Appends(op) {
      hide Step, Stores, Landed;
      AppendingStores(e, b, op);
      var r := Step(e, b, op);
      StoredStoresOnly(b, r, r.b.mem[b.write..r.b.write]);
    } else {
      TrimmingStoresOnly(e, b, op);
    }
  }

  lemma RecordKeepsSound(e: Env, h: History, op: Op)
    requires Sound(h) && Legal(h, op)
    ensures Sound(Record(e, h, op))
  {
    hide Step, Stores, Lends, Landed;
    if !EndsPointers(op) {
      StepStoresOnly(e, h.b, op);
      LendsAreUsed(e, h.b, op);
      if h.b.tainted { TaintPinsMemory(e, h.b, op); }
    } else if op.OpWipe? {
      WipedBelowHigh(e, h.b);
    }
  }

  lemma WipedBelowHigh(e: Env, b: Buf)
    requires Valid(b)
    ensures var r := Step(e, b, OpWipe).b;
            |r.mem| == |b.mem| && forall i :: 0 <= i < |b.mem| ==> r.mem[i] == if i < b.high then WIPE else b.mem[i]
  {
  }

  /** Offsets are lent only inside the used part, and only by calls that set the flag. */
  lemma LendsAreUsed(e: Env, b: Buf, op: Op)
    requires Valid(b) && Sized(op) && !EndsPointers(op)
    ensures var r := Step(e, b, op);
            && (Landed(e, b, op) && Lends(b, op) != {} ==> r.b.tainted)
            && (Landed(e, b, op) ==> forall i :: i in Lends(b, op) ==> i < r.b.high)
            && (b.tainted ==> r.b.high >= b.high)
  {
    hide SkipWrite, SkipAndStore, Splice;
  }

  ghost predicate LegalRun(e: Env, h: History, ops: seq<Op>)
    requires Valid(h.b)
    decreases |ops|
  {
    ops == [] || (Legal(h, ops[0]) && LegalRun(e, Record(e, h, ops[0]), ops[1..]))
  }

  ghost function RunHistory(e: Env, h: History, ops: seq<Op>): History
    requires Valid(h.b) && LegalRun(e, h, ops)
    decreases |ops|
  {
    if ops == [] then h else RunHistory(e, Record(e, h, ops[0]), ops[1..])
  }

  lemma {:induction false} RunKeepsSound(e: Env, h: History, ops: seq<Op>)
    requires Sound(h) && LegalRun(e, h, ops)
    ensures Sound(RunHistory(e, h, ops))
    decreases |ops|
  {
    if ops != [] {
      RecordKeepsSound(e, h, ops[0]);
      RunKeepsSound(e, Record(e, h, ops[0]), ops[1..]);
    }
  }

  /** However a stuffer was used, wiping it leaves the wipe pattern at every offset of its memory that
      was ever stored to. */
  lemma WipeIsComplete(e: Env, ops: seq<Op>)
    requires LegalRun(e, History(Zeroed, {}, {}, {}), ops)
    ensures var h := RunHistory(e, History(Zeroed, {}, {}, {}), ops);
            && Sound(h)
            && (forall i :: i in h.ever ==> i < |Wipe(h.b).b.mem| && Wipe(h.b).b.mem[i] == WIPE)
  {
    RunKeepsSound(e, History(Zeroed, {}, {}, {}), ops);
  }

  // ---------------------------------------------------------------- a queue of bytes

  /** The calls that use a stuffer as a queue. A vectored write belongs here when its buffers hold all
      the bytes it is told to take. */
  predicate QueueOp(op: Op) {
    || op.OpWriteBytes? || op.OpWriteInt? || op.OpPrintf? || op.OpWriteTrimmed?
    || (op.OpWritev? && op.offs + op.n <= |Concat(op.iov)| && !Oversized(op.iov, op.offs, op.n))
    || op.OpReadBytes? || op.OpEraseAndRead?
    || op.OpReserveSpace? || op.OpResizeIfEmpty? || op.OpShift?
  }

  /** The bytes a queue call asks to append. */
  function Payload(op: Op): seq<byte>
    requires Sized(op) && QueueOp(op)
  {
    match op
    case OpWriteBytes(data) => data
    case OpWriteInt(v, len) => BE(v, len)
    case OpPrintf(_, text) => text
    case OpWriteTrimmed(data, trim) => data[..|data| - trim]
    case OpWritev(iov, offs, n) => Concat(iov)[offs..offs + n]
    case _ => []
  }

  /** A call that is refused leaves the queue alone; otherwise what goes in goes in at the back, and what
      comes out comes from the front. */
  lemma QueueStep(e: Env, b: Buf, op: Op)
    requires Valid(b) && Sized(op) && QueueOp(op)
    ensures var out := Step(e, b, op);
            && Valid(out.b)
            && out.bytes + Unread(out.b) == Unread(b) + (if out.ok then Payload(op) else [])
            && (!out.ok ==> Unread(out.b) == Unread(b) && out.bytes == [])
  {
    hide Step, Unread, Landed, Stored;
    if op.OpPrintf? {
      QueuePrintf(e, b, op);
    } else if op.OpWriteTrimmed? {
      QueueTrimmed(e, b, op);
    } else if op.OpReserveSpace? || op.OpResizeIfEmpty? {
      QueueRoom(e, b, op);
    } else if op.OpShift? || op.OpReadBytes? || op.OpEraseAndRead? {
      QueueReads(e, b, op);
    } else if !Step(e, b, op).ok {
      QueueLands(e, b, op);
      RefusedWriteChangesNothing(e, b, op);
    } else {
      QueueLands(e, b, op);
      AppendingStores(e, b, op);
      AppendedPayload(e, b, op);
      StoredAppends(b, Step(e, b, op).b, Payload(op));
    }
  }

  lemma QueueLands(e: Env, b: Buf, op: Op)
    requires Valid(b) && Sized(op) && QueueOp(op)
    ensures Landed(e, b, op) == Step(e, b, op).ok
  {
    hide RawWrite, WritevBytes, Oversized, Concat;
  }

  lemma QueuePrintf(e: Env, b: Buf, op: Op)
    requires Valid(b) && op.OpPrintf?
    ensures var out := Step(e, b, op);
            out.bytes == [] && Unread(out.b) == Unread(b) + (if out.ok then op.text else [])
  {
    hide SkipAndStore, SkipWrite, WipeN, Unread;
    if |op.text| == op.size {
      var s := SkipAndStore(e, b, op.text + [0]);
      if s.ok {
        StoredAppends(b, s.b, op.text + [0]);
        WipeNDropsBack(s.b, 1);
        assert Unread(b) + (op.text + [0]) == (Unread(b) + op.text) + [0];
      } else {
        AsksDoNotMatter(b, s.b.asks);
      }
    } else if 0 <= op.size {
      UndoneIsUnread(e, b, op.size + 1);
    }
  }

  lemma AsksDoNotMatter(b: Buf, asks: nat)
    requires Valid(b) && Valid(b.(asks := asks))
    ensures Unread(b.(asks := asks)) == Unread(b)
  {
  }

  /** Room that is made and wiped again leaves what is unread. */
  lemma UndoneIsUnread(e: Env, b: Buf, n: nat)
    requires Valid(b)
    ensures var s := SkipWrite(e, b, n);
            s.bytes == [] && (s.ok ==> WipeN(s.b, n).bytes == [] && Unread(WipeN(s.b, n).b) == Unread(b))
            && (!s.ok ==> Unread(s.b) == Unread(b))
  {
    hide SkipWrite, WipeN;
    var s := SkipWrite(e, b, n);
    if s.ok {
      StoredAppends(b, s.b, s.b.mem[b.write..b.write + n]);
      WipeNDropsBack(s.b, n);
    }
  }

  lemma GivenBackIsUnread(b: Buf, n: nat)
    requires Valid(b) && n <= b.write - b.read
    ensures |Unread(b)| >= n && Unread(b.(write := b.write - n)) == Unread(b)[..|Unread(b)| - n]
  {
    assert b.mem[b.read..b.write - n] == b.mem[b.read..b.write][..b.write - n - b.read];
  }

  /** Bytes stored and in part given back, as for base64 with padding. */
  lemma QueueTrimmed(e: Env, b: Buf, op: Op)
    requires Valid(b) && Sized(op) && op.OpWriteTrimmed?
    ensures var out := Step(e, b, op);
            && out.bytes == []
            && Unread(out.b) == Unread(b) + (if out.ok then op.data[..|op.data| - op.trim] else [])
  {
    hide SkipAndStore, Unread;
    var s := SkipAndStore(e, b, op.data);
    if s.ok {
      StoredAppends(b, s.b, op.data);
      GivenBackIsUnread(s.b, op.trim);
      assert Unread(b) + op.data[..|op.data| - op.trim] == (Unread(b) + op.data)[..|Unread(b)| + |op.data| - op.trim];
    } else {
      AsksDoNotMatter(b, s.b.asks);
    }
  }

  lemma WipeNDropsBack(b: Buf, n: nat)
    requires Valid(b) && n <= b.write - b.read
    ensures |Unread(b)| >= n && Unread(WipeN(b, n).b) == Unread(b)[..|Unread(b)| - n]
  {
    SpliceKeepsBefore(b.mem, b.write - n, Fill(WIPE, n));
    hide Splice, Fill;
    var r := WipeN(b, n).b;
    assert Unread(r) == r.mem[..r.write][b.read..];
    assert b.mem[..r.write][b.read..] == Unread(b)[..|Unread(b)| - n];
  }

  lemma SpliceKeepsBefore(mem: seq<byte>, at: nat, data: seq<byte>)
    requires at + |data| <= |mem|
    ensures Splice(mem, at, data)[..at] == mem[..at]
  {
  }

  lemma AppendedPayload(e: Env, b: Buf, op: Op)
    requires Valid(b) && Sized(op) && QueueOp(op) && Appends(op)
    requires Step(e, b, op).ok
    ensures var r := Step(e, b, op);
            r.bytes == [] && b.write <= r.b.write && r.b.mem[b.write..r.b.write] == Payload(op)
  {
    hide SkipWrite, SkipAndStore, WritevBytes, Gather, Concat;
    if op.OpWritev? { GatherIsSlice(op.iov, op.offs, op.n); }
  }

  lemma QueueRoom(e: Env, b: Buf, op: Op)
    requires Valid(b) && Sized(op) && (op.OpReserveSpace? || op.OpResizeIfEmpty?)
    ensures Step(e, b, op).bytes == [] && Unread(Step(e, b, op).b) == Unread(b)
  {
    hide ReserveSpace, ResizeIfEmpty, Roomier, Unread;
    if op.OpReserveSpace? {
      RoomierKeepsUnread(b, ReserveSpace(e, b, op.n).b);
    } else {
      EmptyKeepsUnread(e, b, op.n);
    }
  }

  lemma EmptyKeepsUnread(e: Env, b: Buf, n: nat)
    requires Valid(b) && n <= MAX_U32
    ensures var r := ResizeIfEmpty(e, b, n);
            r.bytes == [] && Unread(r.b) == Unread(b)
  {
  }

  lemma RoomierKeepsUnread(b: Buf, r: Buf)
    requires Roomier(b, r)
    ensures Unread(r) == Unread(b)
  {
    assert r.mem[..b.size][b.read..b.write] == r.mem[b.read..b.write];
    assert b.mem[..b.size][b.read..b.write] == b.mem[b.read..b.write];
  }

  lemma ShiftKeepsUnread(b: Buf)
    requires Valid(b)
    ensures Unread(Shift(b).b) == Unread(b)
  {
    var r := Shift(b).b;
    assert forall i :: 0 <= i < r.write ==> r.mem[i] == Unread(b)[i];
  }

  /** What a read returns are the first unread bytes. */
  lemma ReadTakesFront(b: Buf, n: nat)
    requires Valid(b)
    ensures var out := ReadBytes(b, n);
            out.bytes + Unread(out.b) == Unread(b) && (!out.ok ==> out.bytes == [] && out.b == b)
  {
  }

  lemma SpliceKeepsAfter(mem: seq<byte>, at: nat, data: seq<byte>, end: nat)
    requires at + |data| <= end <= |mem|
    ensures Splice(mem, at, data)[at + |data|..end] == mem[at + |data|..end]
  {
  }

  lemma EraseTakesFront(b: Buf, n: nat)
    requires Valid(b)
    ensures var out := EraseAndRead(b, n);
            out.bytes + Unread(out.b) == Unread(b) && (!out.ok ==> out.bytes == [] && out.b == b)
  {
    hide Splice, Fill;
    if SkipRead(b, n).ok {
      SpliceKeepsAfter(b.mem, b.read, Fill(0, n), b.write);
      assert b.mem[b.read..b.read + n] + b.mem[b.read + n..b.write] == b.mem[b.read..b.write];
    }
  }

  /** And the bytes that such a read has returned are zero in the memory, which is otherwise as it was. */
  lemma EraseLeavesZeros(b: Buf, n: nat)
    requires Valid(b) && EraseAndRead(b, n).ok
    ensures var out := EraseAndRead(b, n);
            && |out.b.mem| == |b.mem| && out.bytes == b.mem[b.read..b.read + n] && out.b.read == b.read + n
            && forall i :: 0 <= i < |b.mem| ==> out.b.mem[i] == if b.read <= i < b.read + n then 0 else b.mem[i]
  {
  }

  /** Reading, and moving the unread bytes to the front. */
  lemma QueueReads(e: Env, b: Buf, op: Op)
    requires Valid(b) && (op.OpShift? || op.OpReadBytes? || op.OpEraseAndRead?)
    ensures var out := Step(e, b, op);
            && out.bytes + Unread(out.b) == Unread(b)
            && (!out.ok ==> Unread(out.b) == Unread(b) && out.bytes == [])
  {
    if op.OpShift? {
      ShiftKeepsUnread(b);
    } else if op.OpReadBytes? {
      ReadTakesFront(b, op.n);
    } else {
      EraseTakesFront(b, op.n);
    }
    hide Shift, ReadBytes, EraseAndRead, Unread;
  }

  /** Everything successfully written, and everything read, in a run of queue calls. */
  ghost function Traffic(e: Env, b: Buf, ops: seq<Op>): (t: (seq<byte>, seq<byte>))
    requires Valid(b) && forall i :: 0 <= i < |ops| ==> Sized(ops[i]) && QueueOp(ops[i])
    decreases |ops|
  {
    if ops == [] then ([], [])
    else
      var out := Step(e, b, ops[0]);
      var later := Traffic(e, out.b, ops[1..]);
      ((if out.ok then Payload(ops[0]) else []) + later.0, out.bytes + later.1)
  }

  /** Conservation: over any run, what was waiting followed by what was written is exactly what was read
      followed by what is still waiting. */
  lemma {:induction false} QueueConserves(e: Env, b: Buf, ops: seq<Op>)
    requires Valid(b) && forall i :: 0 <= i < |ops| ==> Sized(ops[i]) && QueueOp(ops[i])
    ensures var t := Traffic(e, b, ops);
            Unread(b) + t.0 == t.1 + Unread(Run(e, b, ops))
    decreases |ops|
  {
    hide Step, Payload, Unread;
    if ops != [] {
      QueueStep(e, b, ops[0]);
      var out := Step(e, b, ops[0]);
      QueueConserves(e, out.b, ops[1..]);
      var put := if out.ok then Payload(ops[0]) else [];
      var later := Traffic(e, out.b, ops[1..]);
      var end := Unread(Run(e, b, ops));
      calc {
        Unread(b) + (put + later.0);
        (Unread(b) + put) + later.0;
        (out.bytes + Unread(out.b)) + later.0;
        out.bytes + (Unread(out.b) + later.0);
        out.bytes + (later.1 + end);
        (out.bytes + later.1) + end;
      }
    }
  }

  /** Read out of an empty stuffer, the bytes are a prefix of those written. */
  lemma ReadsArePrefixOfWrites(e: Env, b: Buf, ops: seq<Op>)
    requires Valid(b) && forall i :: 0 <= i < |ops| ==> Sized(ops[i]) && QueueOp(ops[i])
    requires Unread(b) == []
    ensures var t := Traffic(e, b, ops); t.1 <= t.0
  {
    hide Traffic, Run, Unread;
    QueueConserves(e, b, ops);
    var t := Traffic(e, b, ops);
    assert [] + t.0 == t.0;
  }

  /** A refused write of bytes or of a number changes nothing at all but the allocator's request count. */
  lemma RefusedWriteChangesNothing(e: Env, b: Buf, op: Op)
    requires Valid(b) && Sized(op) && (Appends(op) || op.OpWriteTrimmed? || (op.OpPrintf? && |op.text| == op.size))
    requires !Landed(e, b, op)
    ensures var out := Step(e, b, op);
            out.b == b.(asks := out.b.asks) && out.bytes == [] && Unread(out.b) == Unread(b)
  {
  }
}
