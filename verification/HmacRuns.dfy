/** What a keyed hash returns over whole runs of calls, and when it is not a keyed hash any more. */
module HmacRuns {
  import opened Bytes
  import opened Hash
  import opened Hmac

  /** The state after a run of calls, from one that has never been given a key. */
  function Run(h: HashFn, calls: seq<Call>): Mac {
    if calls == [] then Blank
    else After(h, Run(h, calls[..|calls| - 1]), calls[|calls| - 1]).mac
  }

  // ---------------------------------------------------------------- what a run amounts to

  /** The algorithm and key last given. */
  function Keyed(calls: seq<Call>): Option<(HmacAlg, seq<byte>)> {
    if calls == [] then None
    else match calls[|calls| - 1]
      case InitCall(a, key) => Some((a, key))
      case _ => Keyed(calls[..|calls| - 1])
  }

  /** The bytes that precede the data in the inner hash. */
  function KeySize(h: HashFn, calls: seq<Call>): nat {
    match Keyed(calls)
    case None => 0
    case Some((a, key)) => |Prefix(h, a, key, 0x36)|
  }

  /** The data since the key or the last reset, without refused pieces; nothing once a digest has been taken. */
  function Pending(h: HashFn, calls: seq<Call>): Option<seq<byte>> {
    if calls == [] then None
    else
      var front := calls[..|calls| - 1];
      var before := Pending(h, front);
      match calls[|calls| - 1]
      case InitCall(_, _) => Some([])
      case ResetCall => if Keyed(front).Some? then Some([]) else None
      case UpdateCall(d) =>
        if before.Some? && |d| <= MAX_CHUNK && KeySize(h, front) + |before.value| + |d| <= MAX_U64
        then Some(before.value + d) else before
      case _ => None
  }

  /** The bytes given since the key or the last reset in pieces that are not too long. */
  function Offered(calls: seq<Call>): nat {
    if calls == [] then 0
    else
      var before := Offered(calls[..|calls| - 1]);
      match calls[|calls| - 1]
      case InitCall(_, _) => 0
      case ResetCall => 0
      case UpdateCall(d) => before + if |d| <= MAX_CHUNK then |d| else 0
      case _ => before
  }

  /** The data since a digest in two rounds that has left its block of zeros in the place of the key. */
  function Stale(h: HashFn, calls: seq<Call>): Option<seq<byte>> {
    if calls == [] then None
    else
      var front := calls[..|calls| - 1];
      var before := Stale(h, front);
      match calls[|calls| - 1]
      case UpdateCall(d) =>
        if before.Some? && |d| <= MAX_CHUNK && Keyed(front).Some?
           && HmacBlockSize(Keyed(front).value.0) + |before.value| + |d| <= MAX_U64
        then Some(before.value + d) else before
      case TwoRoundsCall(size) =>
        if Keyed(front).None? || (Pending(h, front).None? && before.None?) then None
        else
          var a := Keyed(front).value.0;
          if size == HmacDigestSize(a)
             && (KeySize(h, front) + Offered(front)) % HmacBlockSize(a) + SpaceLeft(a) <= HmacBlockSize(a)
          then Some([]) else None
      case _ => None
  }

  /** What the inner hash then is. */
  function InnerOf(h: HashFn, calls: seq<Call>): Inner {
    match Pending(h, calls)
    case Some(d) => Open(d)
    case None => match Stale(h, calls) case Some(d) => Dummy(d) case None => Closed
  }

  /** The state that a run leads to, from what it amounts to. */
  function StateOf(h: HashFn, calls: seq<Call>): Mac {
    match Keyed(calls)
    case None => Blank
    case Some((a, key)) =>
      Mac(a, key, InnerOf(h, calls), (KeySize(h, calls) + Offered(calls)) % HmacBlockSize(a))
  }

  /** Without a key nothing is held, and not both kinds of data are. */
  predicate Coherent(h: HashFn, calls: seq<Call>) {
    && (Keyed(calls).None? ==> Pending(h, calls).None? && Stale(h, calls).None?)
    && (Pending(h, calls).Some? ==> Stale(h, calls).None?)
  }

  lemma OtherStep(h: HashFn, calls: seq<Call>, c: Call)
    requires Coherent(h, calls) && (c.InitCall? || c.ResetCall? || c.DigestCall?)
    ensures Coherent(h, calls + [c]) && After(h, StateOf(h, calls), c).mac == StateOf(h, calls + [c])
  {
    hide Prefix, HmacBlockSize, HmacDigestSize, Finish;
    assert (calls + [c])[..|calls|] == calls;
  }

  lemma UpdateStep(h: HashFn, calls: seq<Call>, c: Call)
    requires Coherent(h, calls) && c.UpdateCall?
    ensures Coherent(h, calls + [c]) && After(h, StateOf(h, calls), c).mac == StateOf(h, calls + [c])
  {
    hide Prefix, HmacBlockSize;
    assert (calls + [c])[..|calls|] == calls;
    if Keyed(calls).Some? {
      RemainderAdds(Keyed(calls).value.0, KeySize(h, calls) + Offered(calls), |c.data|);
    }
  }

  lemma TwoRoundsStep(h: HashFn, calls: seq<Call>, c: Call)
    requires Coherent(h, calls) && c.TwoRoundsCall?
    ensures Coherent(h, calls + [c]) && After(h, StateOf(h, calls), c).mac == StateOf(h, calls + [c])
  {
    hide Prefix, HmacBlockSize, HmacDigestSize, SpaceLeft, Finish;
    assert (calls + [c])[..|calls|] == calls;
  }

  /** The state after any run, from the run alone. */
  lemma {:induction false} RunState(h: HashFn, calls: seq<Call>)
    ensures Run(h, calls) == StateOf(h, calls) && Coherent(h, calls)
  {
    if calls != [] {
      hide After, StateOf, Coherent;
      var front, last := calls[..|calls| - 1], calls[|calls| - 1];
      RunState(h, front);
      assert front + [last] == calls;
      if last.UpdateCall? {
        UpdateStep(h, front, last);
      } else if last.TwoRoundsCall? {
        TwoRoundsStep(h, front, last);
      } else {
        OtherStep(h, front, last);
      }
    }
  }

  /** In any run the first digest since the key or the last reset is the keyed hash of the data since then. A later
      one is refused or, after a digest in two rounds, is taken over zeros and the data since that digest. */
  lemma DigestInRun(h: HashFn, calls: seq<Call>, c: Call)
    requires c.DigestCall? || c.TwoRoundsCall?
    ensures var r := After(h, Run(h, calls), c);
            var pending, stale := Pending(h, calls), Stale(h, calls);
            match Keyed(calls)
            case None => !r.ok
            case Some((a, key)) =>
              && (r.ok <==> c.size == HmacDigestSize(a) && (pending.Some? || stale.Some?))
              && (r.ok && pending.Some? ==> r.out == MacOf(h, a, key, pending.value))
              && (r.ok && pending.Some? && !IsSslv3(a) ==> r.out == Rfc2104(h, a, key, pending.value))
              && (r.ok && pending.None? ==> r.out == Finish(h, a, key, Fill(0, HmacBlockSize(a)) + stale.value))
  {
    RunState(h, calls);
    hide Run, Pending, Stale, BlockKey, Keyed, Offered;
  }

  // ---------------------------------------------------------------- many states and copies

  /** A call on one of several states, or a copy of one to another. */
  datatype Event = On(i: nat, call: Call) | Copy(to: nat, from: nat)

  predicate Within(run: seq<Event>, n: nat) {
    forall k :: 0 <= k < |run| ==> match run[k] case On(i, _) => i < n case Copy(to, from) => to < n && from < n
  }

  /** The states after a run over `n` of them. */
  function Family(h: HashFn, n: nat, run: seq<Event>): (s: seq<Mac>)
    requires Within(run, n)
    ensures |s| == n
  {
    if run == [] then seq(n, _ => Blank)
    else
      var s := Family(h, n, run[..|run| - 1]);
      match run[|run| - 1]
      case On(i, c) => s[i := After(h, s[i], c).mac]
      case Copy(to, from) => s[to := s[from]]
  }

  /** The calls that made one of the states what it is: its own, and where it was copied to, those of the other. */
  function Trail(run: seq<Event>, i: nat): seq<Call> {
    if run == [] then []
    else
      var front := run[..|run| - 1];
      match run[|run| - 1]
      case On(j, c) => if j == i then Trail(front, i) + [c] else Trail(front, i)
      case Copy(to, from) => Trail(front, if to == i then from else i)
  }

  lemma {:induction false} FamilyFollowsTrails(h: HashFn, n: nat, run: seq<Event>, i: nat)
    requires Within(run, n) && i < n
    ensures Family(h, n, run)[i] == Run(h, Trail(run, i))
  {
    hide After;
    if run != [] {
      var front := run[..|run| - 1];
      FamilyFollowsTrails(h, n, front, i);
      match run[|run| - 1] {
        case On(j, c) =>
          var t := Trail(front, i);
          assert (t + [c])[..|t|] == t;
        case Copy(to, from) =>
          FamilyFollowsTrails(h, n, front, from);
      }
    }
  }

  /** So over any run of init, update, digest, reset and copy on any number of states, a digest taken of one of them
      is the keyed hash of the data pending along its trail. */
  lemma DigestInFamily(h: HashFn, n: nat, run: seq<Event>, i: nat, c: Call)
    requires Within(run, n) && i < n && (c.DigestCall? || c.TwoRoundsCall?)
    ensures var r := After(h, Family(h, n, run)[i], c);
            var trail := Trail(run, i);
            var pending, stale := Pending(h, trail), Stale(h, trail);
            match Keyed(trail)
            case None => !r.ok
            case Some((a, key)) =>
              && (r.ok <==> c.size == HmacDigestSize(a) && (pending.Some? || stale.Some?))
              && (r.ok && pending.Some? ==> r.out == MacOf(h, a, key, pending.value))
              && (r.ok && pending.Some? && !IsSslv3(a) ==> r.out == Rfc2104(h, a, key, pending.value))
              && (r.ok && pending.None? ==> r.out == Finish(h, a, key, Fill(0, HmacBlockSize(a)) + stale.value))
  {
    FamilyFollowsTrails(h, n, run, i);
    DigestInRun(h, Trail(run, i), c);
  }

  /** Two digests in two rounds without a reset between them: both succeed, the second over zeros. */
  lemma SecondDigest(h: HashFn)
    ensures var first := After(h, Start(h, HmacSha256, []), TwoRoundsCall(32));
            var second := After(h, first.mac, TwoRoundsCall(32));
            && first.ok && first.out == Finish(h, HmacSha256, [], XorAll(Fill(0, 64), 0x36))
            && second.ok && second.out == Finish(h, HmacSha256, [], Fill(0, 64))
  {
    hide Finish;
    assert BlockKey(h, HmacSha256, []) == Fill(0, 64);
    assert Fill(0, 64) + [] == Fill(0, 64);
    var p := XorAll(Fill(0, 64), 0x36);
    assert Prefix(h, HmacSha256, [], 0x36) == p && p + [] == p;
  }

  function Last(m: seq<byte>): byte { if m == [] then 0 else m[|m| - 1] }

  /** A hash that repeats the last byte. */
  const LAST_BYTE: HashFn := (a, m) => Fill(Last(m), DigestSize(a))

  /** With it the second digest is not the keyed hash of the same data. */
  lemma SecondDigestDiffers()
    ensures var h := LAST_BYTE;
            var first := After(h, Start(h, HmacSha256, []), TwoRoundsCall(32));
            var second := After(h, first.mac, TwoRoundsCall(32));
            first.ok && second.ok && first.out != second.out
  {
    var h := LAST_BYTE;
    SecondDigest(h);
    hide After, Start, Prefix;
    XorLaws(0, 0x36, 0);
    XorLaws(0x36, 0, 0);
    LastByteFinishes([], XorAll(Fill(0, 64), 0x36));
    LastByteFinishes([], Fill(0, 64));
  }

  lemma LastByteFinishes(key: seq<byte>, m: seq<byte>)
    ensures Finish(LAST_BYTE, HmacSha256, key, m) == Fill(Last(m), 32)
  {
    hide Prefix;
    var d := LAST_BYTE(Sha256, m);
    assert d == Fill(Last(m), 32);
    var p := Prefix(LAST_BYTE, HmacSha256, key, 0x5c);
    assert Last(p + d) == d[31];
  }

  lemma Whole64(q: nat, r: nat)
    ensures (64 * q + r) % 64 == r % 64
  {
  }

  lemma Whole128(q: nat, r: nat)
    ensures (128 * q + r) % 128 == r % 128
  {
  }

  lemma RemainderAdds(a: HmacAlg, x: nat, n: nat)
    ensures (x % HmacBlockSize(a) + n) % HmacBlockSize(a) == (x + n) % HmacBlockSize(a)
  {
    if HmacBlockSize(a) == 64 { Whole64(x / 64, x % 64 + n); } else { Whole128(x / 128, x % 128 + n); }
  }

  /** While all that was offered fits the inner hash, none of it has been refused. */
  lemma {:induction false} PendingIsAll(h: HashFn, calls: seq<Call>)
    requires KeySize(h, calls) + Offered(calls) <= MAX_U64
    ensures Pending(h, calls).Some? ==> |Pending(h, calls).value| == Offered(calls)
  {
    hide Prefix;
    if calls != [] && (calls[|calls| - 1].UpdateCall?) { PendingIsAll(h, calls[..|calls| - 1]); }
  }

  /** While the inner hash is open, the counter is how far it is into a block, as long as what was given since the
      last reset fits 64 bits; and so a digest in two rounds does two rounds wherever it stands in the run. */
  lemma CounterInRun(h: HashFn, calls: seq<Call>)
    requires KeySize(h, calls) + Offered(calls) <= MAX_U64
    ensures Pending(h, calls).Some? ==> InStep(h, Run(h, calls))
  {
    RunState(h, calls);
    PendingIsAll(h, calls);
    hide Run, Pending, Stale, Keyed, Offered, Prefix;
  }
}
