/** The PEM reader: cursors of one stuffer move over the text, decoded bytes are appended to another. */
module Pem {
  import opened Bytes
  import opened Stuffers
  import opened PemSpec
  import T = Text
  import B = Base64
  import S = StufferSpec

  method ReadDelimiterChars(pem: Stuffer) returns (ok: bool)
    requires pem.Valid()
    modifies pem`read
    ensures pem.Valid()
    ensures ok <==> Delimiter(pem.Written(), old(pem.read)).Some?
    ensures ok ==> pem.read == Delimiter(pem.Written(), old(pem.read)).value
  {
    hide S.RewindRead, T.ReadUntil, T.RunOf, Stuffer.Value, Stuffer.Valid;
    if pem.write - pem.read < MIN_DASHES { return false; }
    ok := T.SkipReadUntil(pem, DELIMITER);
    if !ok { return; }
    ok := pem.RewindRead(|DELIMITER|);
    if !ok { return; }
    ok := T.SkipExpectedChar(pem, DASH, MIN_DASHES, MAX_DASHES);
  }

  /** The closing dashes of a line and the whitespace after them. */
  method FinishLine(pem: Stuffer, marker: seq<byte>) returns (ok: bool)
    requires pem.Valid()
    modifies pem`read
    ensures pem.Valid()
    ensures ok <==> T.RunOf(pem.Written(), old(pem.read), DASH, MAX_DASHES) >= MIN_DASHES
    ensures ok ==> pem.read == LineEnd(pem.Written(), old(pem.read), marker)
  {
    hide S.RewindRead, T.RunOf, T.SkipSpace, T.At, Stuffer.Value, Stuffer.Valid;
    ok := T.SkipExpectedChar(pem, DASH, MIN_DASHES, MAX_DASHES);
    if !ok { return; }
    if marker == END {
      var joined := T.PeekCheckForStr(pem, BEGIN);
      if joined { ok := pem.RewindRead(MIN_DASHES); }
    }
    T.SkipWhitespace(pem);
  }

  method ReadEncapsulationLine(pem: Stuffer, marker: seq<byte>, keyword: seq<byte>) returns (ok: bool)
    requires pem.Valid()
    modifies pem`read
    ensures pem.Valid()
    ensures ok <==> EncapsulationLine(pem.Written(), old(pem.read), marker, keyword).Some?
    ensures ok ==> pem.read == EncapsulationLine(pem.Written(), old(pem.read), marker, keyword).value
  {
    hide T.RunOf, LineEnd, Delimiter, T.At, Stuffer.Value, Stuffer.Valid;
    ghost var t := pem.Written();
    ok := ReadDelimiterChars(pem);
    if !ok { return; }
    T.AtBoth(t, pem.read, marker, keyword);
    ok := T.ReadExpectedStr(pem, marker);
    if !ok { return; }
    ok := T.ReadExpectedStr(pem, keyword);
    if !ok { return; }
    ok := FinishLine(pem, marker);
  }

  /** A buffer of base64 characters waiting to be decoded. */
  ghost predicate Waiting(b64: Stuffer)
    reads b64, b64.mem
    ensures Waiting(b64) ==> b64.Valid() && b64.read == 0 && b64.write <= CHUNK
  {
    b64.Valid() && b64.read == 0 && b64.size == CHUNK
  }

  /** What taking the character `c` does to the characters waiting and to the output. */
  ghost predicate Taken(e: S.Env, waiting: seq<byte>, was: S.Buf, c: byte, ok: bool, waiting': seq<byte>, now: S.Buf) {
    && now.write <= was.write + CHUNK / 4 * 3
    && if |waiting| < CHUNK then ok && waiting' == waiting + [c] && now == was
       else if ok then waiting' == [c] && B.Decode(waiting).Some? && B.Gained(was, now, B.Decode(waiting).value)
       else B.Disturbed(was, now) && (B.Decode(waiting).Some? ==> !S.SkipWrite(e, was, CHUNK / 4 * 3).ok)
  }

  /** The next character goes into the buffer, which is first decoded onto `asn1` when it is full. */
  method TakeChar(b64: Stuffer, asn1: Stuffer, c: byte) returns (ok: bool)
    requires b64 != asn1 && b64.mem != asn1.mem && Waiting(b64) && asn1.Valid()
    modifies b64, b64.mem, asn1, asn1.mem
    ensures asn1.Valid() && asn1.Tracked() && b64.Valid()
    ensures ok ==> Waiting(b64) && b64.mem == old(b64.mem)
    ensures Taken(asn1.env, old(b64.Written()), old(asn1.Value()), c, ok, b64.Written(), asn1.Value())
  {
    hide S.SkipWrite, S.WriteBytes, B.Gained, B.Disturbed, B.Decode;
    if b64.size - b64.write == 0 {
      assert b64.Unread() == b64.Written();
      ok := B.ReadBase64(b64, asn1);
      if !ok { return; }
      b64.Rewrite();
    }
    S.WriteFits(b64.env, b64.Value(), [c]);
    ok := b64.WriteBytes([c]);
  }

  method EmptyBuffer(e: S.Env) returns (b64: Stuffer)
    ensures fresh(b64) && fresh(b64.mem) && Waiting(b64) && b64.Written() == []
  {
    var buffer := new byte[CHUNK](_ => 0);
    b64 := new Stuffer.Over(e, buffer);
  }

  method PeekByte(s: Stuffer) returns (c: byte)
    requires s.Valid() && s.read < s.write
    ensures c == s.Written()[s.read]
  {
    c := s.mem[s.read];
  }

  method Advance(s: Stuffer)
    requires s.Valid() && s.read < s.write
    modifies s`read
    ensures s.Valid() && s.read == old(s.read) + 1
  {
    s.read := s.read + 1;
  }

  /** How far the decoding of the body `t[p..q]` has come when the reader stands at `r`: `done` is decoded,
      `waiting` is in the buffer. */
  ghost predicate Progress(t: seq<byte>, p: nat, q: nat, done: seq<byte>, waiting: seq<byte>, r: nat) {
    && p <= r <= q <= |t|
    && ChunkDecode(Filter(t[p..q])) == Join(Some(done), ChunkDecode(waiting + Filter(t[r..q])))
  }

  lemma ProgressStarts(t: seq<byte>, p: nat, q: nat)
    requires p <= q <= |t|
    ensures Progress(t, p, q, [], [], p)
  {
    var all := Filter(t[p..q]);
    assert [] + all == all;
    if ChunkDecode(all).Some? { assert [] + ChunkDecode(all).value == ChunkDecode(all).value; }
  }

  /** A character is passed over, put into the buffer, or put into it after the full buffer was decoded. */
  lemma ProgressSteps(t: seq<byte>, p: nat, q: nat, done: seq<byte>, waiting: seq<byte>, r: nat)
    requires Progress(t, p, q, done, waiting, r) && r < q
    ensures !B.IsBase64Char(t[r]) ==> Progress(t, p, q, done, waiting, r + 1)
    ensures B.IsBase64Char(t[r]) ==> Progress(t, p, q, done, waiting + [t[r]], r + 1)
    ensures B.IsBase64Char(t[r]) && |waiting| == CHUNK && B.Decode(waiting).Some? ==>
              Progress(t, p, q, done + B.Decode(waiting).value, [t[r]], r + 1)
    ensures B.IsBase64Char(t[r]) && |waiting| == CHUNK && B.Decode(waiting).None? ==>
              ChunkDecode(Filter(t[p..q])).None?
  {
    hide B.IsBase64Char, B.Decode;
    var c, rest := t[r], Filter(t[r + 1..q]);
    assert t[r..q][0] == c && t[r..q][1..] == t[r + 1..q];
    assert (waiting + [c]) + rest == waiting + ([c] + rest);
    if B.IsBase64Char(c) && |waiting| == CHUNK {
      var all, later := waiting + ([c] + rest), ChunkDecode([c] + rest);
      assert all[..CHUNK] == waiting && all[CHUNK..] == [c] + rest;
      if B.Decode(waiting).Some? && later.Some? {
        assert done + (B.Decode(waiting).value + later.value) == (done + B.Decode(waiting).value) + later.value;
      }
    }
  }

  lemma ProgressEnds(t: seq<byte>, p: nat, q: nat, done: seq<byte>, waiting: seq<byte>)
    requires Progress(t, p, q, done, waiting, q) && |waiting| <= CHUNK
    ensures ChunkDecode(Filter(t[p..q])) == Join(Some(done), B.Decode(waiting))
  {
    assert t[q..q] == [] && waiting + [] == waiting;
  }

  /** The reader amid a body: it stands at `r`, the output has gained `done` since it was `before`, and
      `ample` says that there is room for everything still to come. */
  ghost predicate Amid(t: seq<byte>, p: nat, q: nat, r: nat, done: seq<byte>, waiting: seq<byte>,
                       before: S.Buf, now: S.Buf, e: S.Env, ample: bool)
    ensures Amid(t, p, q, r, done, waiting, before, now, e, ample) ==>
              p <= r <= q <= |t| && B.Disturbed(before, now) && now.write <= before.write + (|t| - p)
  {
    && Progress(t, p, q, done, waiting, r) && |waiting| <= CHUNK && B.Gained(before, now, done)
    && now.write + |waiting| <= before.write + (r - p)
    && (ample ==> S.Ample(e, now, |waiting| + (|t| - r)))
  }

  lemma AmidPasses(t: seq<byte>, p: nat, q: nat, r: nat, done: seq<byte>, waiting: seq<byte>,
                   before: S.Buf, now: S.Buf, e: S.Env, ample: bool)
    requires Amid(t, p, q, r, done, waiting, before, now, e, ample) && r < q && !B.IsBase64Char(t[r])
    ensures Amid(t, p, q, r + 1, done, waiting, before, now, e, ample)
  {
    hide Progress, B.Gained, S.Ample;
    ProgressSteps(t, p, q, done, waiting, r);
    if ample { S.AmpleAfter(e, now, now, |waiting| + (|t| - r), 1); }
  }

  /** Taking a character leads on, or else the body has no decoding or there was no room. */
  lemma AmidTakes(t: seq<byte>, p: nat, q: nat, r: nat, done: seq<byte>, waiting: seq<byte>,
                  before: S.Buf, was: S.Buf, e: S.Env, ample: bool, ok: bool, waiting': seq<byte>, now: S.Buf)
    returns (done': seq<byte>)
    requires Amid(t, p, q, r, done, waiting, before, was, e, ample) && r < q && B.IsBase64Char(t[r])
    requires Taken(e, waiting, was, t[r], ok, waiting', now)
    ensures ok ==> Amid(t, p, q, r + 1, done', waiting', before, now, e, ample)
    ensures B.Disturbed(before, now) && now.write <= before.write + (|t| - p)
    ensures !ok && ample ==> ChunkDecode(Filter(t[p..q])).None?
  {
    hide Progress, B.Gained, S.Ample, S.SkipWrite, ChunkDecode, Filter, B.Decode, B.IsBase64Char;
    var n := |waiting| + (|t| - r);
    done' := done;
    ProgressSteps(t, p, q, done, waiting, r);
    if |waiting| == CHUNK {
      var piece := if ok then B.Decode(waiting).value else [];
      B.GainedTwice(before, was, now, done, piece);
      B.DecodeSize(waiting);
      if ample { S.AmpleSkips(e, was, n, CHUNK / 4 * 3); }
      if ok && ample { B.GainedKeepsAmple(e, was, now, piece, n, CHUNK); }
      done' := done + piece;
    }
  }

  /** Decoding the last characters completes the body. */
  lemma AmidEnds(t: seq<byte>, p: nat, q: nat, done: seq<byte>, waiting: seq<byte>,
                 before: S.Buf, was: S.Buf, e: S.Env, ample: bool, ok: bool, now: S.Buf)
    requires Amid(t, p, q, q, done, waiting, before, was, e, ample) && B.Disturbed(was, now)
    requires ok ==> B.Decode(waiting).Some? && B.Gained(was, now, B.Decode(waiting).value)
    requires B.Decode(waiting).Some? && !ok ==> !S.SkipWrite(e, was, |waiting| / 4 * 3).ok
    requires now.write <= was.write + |waiting| / 4 * 3
    ensures B.Disturbed(before, now) && now.write <= before.write + (|t| - p)
    ensures ok ==> ChunkDecode(Filter(t[p..q])).Some?
    ensures ok ==> B.Gained(before, now, ChunkDecode(Filter(t[p..q])).value)
    ensures !ok && ample ==> ChunkDecode(Filter(t[p..q])).None?
  {
    hide Progress, B.Gained, S.Ample, S.SkipWrite, ChunkDecode, Filter, B.Decode;
    ProgressEnds(t, p, q, done, waiting);
    B.GainedTwice(before, was, now, done, if ok then B.Decode(waiting).value else []);
    if ample { S.AmpleSkips(e, was, |waiting| + (|t| - q), |waiting| / 4 * 3); }
  }

  lemma AmidStarts(t: seq<byte>, p: nat, q: nat, b: S.Buf, e: S.Env, ample: bool)
    requires p <= q <= |t| && S.Valid(b) && (ample ==> S.Ample(e, b, |t| - p))
    ensures Amid(t, p, q, p, [], [], b, b, e, ample)
  {
    ProgressStarts(t, p, q);
    B.GainedNothing(b);
  }

  /** One character of a body: passed over, or put into the buffer. */
  method ReadChar(pem: Stuffer, asn1: Stuffer, b64: Stuffer, c: byte, ghost p: nat, ghost q: nat, ghost done: seq<byte>,
                  ghost before: S.Buf, ghost ample: bool) returns (ok: bool, ghost done': seq<byte>)
    requires pem != asn1 && pem != b64 && asn1 != b64
    requires pem.mem != asn1.mem && b64.mem != asn1.mem && b64.mem != pem.mem
    requires pem.Valid() && asn1.Valid() && Waiting(b64) && pem.read < q <= pem.write && c == pem.Written()[pem.read]
    requires Amid(pem.Written(), p, q, pem.read, done, b64.Written(), before, asn1.Value(), asn1.env, ample)
    modifies pem`read, b64, b64.mem, asn1, asn1.mem
    ensures pem.Valid() && asn1.Valid() && asn1.Tracked() && pem.read == old(pem.read) + 1
    ensures B.Disturbed(before, asn1.Value()) && asn1.write <= before.write + (pem.write - p)
    ensures ok ==> Waiting(b64) && b64.mem == old(b64.mem)
    ensures ok ==> Amid(pem.Written(), p, q, pem.read, done', b64.Written(), before, asn1.Value(), asn1.env, ample)
    ensures !ok && ample ==> ChunkDecode(Filter(pem.Written()[p..q])).None?
  {
    hide S.SkipWrite, S.Ample, ChunkDecode, Filter, B.Decode, B.IsBase64Char, Amid, Taken;
    hide Stuffer.Valid, Stuffer.Value, Waiting, B.Gained, B.Disturbed;
    ghost var t, e, r, waiting, was := pem.Written(), asn1.env, pem.read, b64.Written(), asn1.Value();
    Advance(pem);
    if !B.IsBase64Char(c) {
      AmidPasses(t, p, q, r, done, waiting, before, was, e, ample);
      return true, done;
    }
    ok := TakeChar(b64, asn1, c);
    done' := AmidTakes(t, p, q, r, done, waiting, before, was, e, ample, ok, b64.Written(), asn1.Value());
  }

  /** Reads up to the dash that ends a body, leaving the last characters in the buffer. */
  method ReadBody(pem: Stuffer, asn1: Stuffer, b64: Stuffer, ghost q: nat, ghost ample: bool)
    returns (ok: bool, ghost done: seq<byte>)
    requires pem != asn1 && pem != b64 && asn1 != b64
    requires pem.mem != asn1.mem && b64.mem != asn1.mem && b64.mem != pem.mem
    requires pem.Valid() && asn1.Valid() && Waiting(b64) && b64.Written() == []
    requires q == T.FindChar(pem.Written(), pem.read, DASH)
    requires ample ==> S.Ample(asn1.env, asn1.Value(), pem.write - pem.read)
    modifies pem`read, b64, b64.mem, asn1, asn1.mem
    ensures pem.Valid() && asn1.Valid() && asn1.Tracked()
    ensures B.Disturbed(old(asn1.Value()), asn1.Value())
    ensures asn1.write <= old(asn1.write + (pem.write - pem.read))
    ensures ok ==> Waiting(b64) && b64.mem == old(b64.mem) && pem.read == q < pem.write
    ensures ok ==> Amid(pem.Written(), old(pem.read), q, q, done, b64.Written(), old(asn1.Value()), asn1.Value(), asn1.env, ample)
    ensures !ok && ample ==> q == pem.write || ChunkDecode(Filter(pem.Written()[old(pem.read)..q])).None?
  {
    hide S.Ample, T.FindChar, ChunkDecode, Filter, Amid;
    hide Stuffer.Valid, Stuffer.Value, Waiting, B.Disturbed;
    ghost var t, p, before := pem.Written(), pem.read, asn1.Value();
    done := [];
    AmidStarts(t, p, q, before, asn1.env, ample);
    while true
      invariant pem.Valid() && asn1.Valid() && asn1.Tracked() && pem.mem != asn1.mem
      invariant Waiting(b64) && b64.mem == old(b64.mem) != asn1.mem
      invariant Amid(t, p, q, pem.read, done, b64.Written(), before, asn1.Value(), asn1.env, ample)
      decreases pem.write - pem.read
    {
      if pem.write - pem.read < 1 { return false, done; }
      var c := PeekByte(pem);
      if c == DASH { return true, done; }
      ok, done := ReadChar(pem, asn1, b64, c, p, q, done, before, ample);
      if !ok { return; }
    }
  }

  method ReadContents(pem: Stuffer, asn1: Stuffer) returns (ok: bool)
    requires pem != asn1 && pem.mem != asn1.mem && pem.Valid() && asn1.Valid()
    modifies pem`read, asn1, asn1.mem
    ensures pem.Valid() && asn1.Valid() && asn1.Tracked()
    ensures B.Disturbed(old(asn1.Value()), asn1.Value())
    ensures asn1.write <= old(asn1.write + (pem.write - pem.read))
    ensures ok ==> Contents(pem.Written(), old(pem.read)).Some?
    ensures ok ==> pem.read == Contents(pem.Written(), old(pem.read)).value.1
    ensures ok ==> B.Gained(old(asn1.Value()), asn1.Value(), Contents(pem.Written(), old(pem.read)).value.0)
    ensures Contents(pem.Written(), old(pem.read)).Some? && !ok ==>
              !S.Ample(asn1.env, old(asn1.Value()), old(pem.write - pem.read))
  {
    hide S.SkipWrite, S.Ample, T.FindChar, ChunkDecode, Filter, B.Decode, Amid;
    hide Stuffer.Valid, Stuffer.Value, Waiting, B.Gained, B.Disturbed;
    ghost var t, p, e, before := pem.Written(), pem.read, asn1.env, asn1.Value();
    ghost var q, ample := T.FindChar(t, p, DASH), S.Ample(e, before, pem.write - pem.read);
    var b64 := EmptyBuffer(asn1.env);
    ghost var done;
    ok, done := ReadBody(pem, asn1, b64, q, ample);
    if !ok { return; }
    ghost var waiting, was := b64.Written(), asn1.Value();
    assert b64.Unread() == waiting;
    ok := B.ReadBase64(b64, asn1);
    AmidEnds(t, p, q, done, waiting, before, was, e, ample, ok, asn1.Value());
  }

  /** What an attempt to read one block does: on success the output gains the body; if not even the first
      line is there, the output is untouched; and a block that is there is refused only for lack of room. */
  ghost predicate Attempt(t: seq<byte>, p: nat, keyword: seq<byte>, e: S.Env, was: S.Buf, now: S.Buf, ok: bool, r: nat) {
    && p <= |t| && B.Disturbed(was, now) && now.write <= was.write + (|t| - p)
    && (ok ==> Block(t, p, keyword).Some? && r == Block(t, p, keyword).value.1)
    && (ok ==> B.Gained(was, now, Block(t, p, keyword).value.0))
    && (EncapsulationLine(t, p, BEGIN, keyword).None? ==> now == was)
    && (Block(t, p, keyword).Some? && !ok ==> !S.Ample(e, was, |t| - p))
  }

  method DataFromPem(pem: Stuffer, asn1: Stuffer, keyword: seq<byte>) returns (ok: bool)
    requires pem != asn1 && pem.mem != asn1.mem && pem.Valid() && asn1.Valid()
    modifies pem`read, asn1, asn1.mem
    ensures pem.Valid() && asn1.Valid() && asn1.Tracked()
    ensures Attempt(pem.Written(), old(pem.read), keyword, asn1.env, old(asn1.Value()), asn1.Value(), ok, pem.read)
  {
    hide S.Ample, Contents, EncapsulationLine, Stuffer.Valid, Stuffer.Value, B.Gained, B.Disturbed;
    B.DisturbedNot(asn1.Value());
    ghost var n := pem.write - pem.read;
    ok := ReadEncapsulationLine(pem, BEGIN, keyword);
    if !ok { return; }
    if S.Ample(asn1.env, asn1.Value(), n) {
      S.AmpleAfter(asn1.env, asn1.Value(), asn1.Value(), n, n - (pem.write - pem.read));
    }
    ok := ReadContents(pem, asn1);
    if !ok { return; }
    ok := ReadEncapsulationLine(pem, END, keyword);
  }

  /** A text holds a certificate when dashes follow; the question is put to a copy of the cursors. */
  method HasCertificate(pem: Stuffer) returns (has: bool)
    requires pem.Valid()
    ensures has <==> Delimiter(pem.Written(), pem.read).Some?
  {
    var copy := new Stuffer.CopyOf(pem);
    has := ReadDelimiterChars(copy);
  }

  /** The label of the block a key came from says its type. */
  predicate LabelOf(kind: KeyType, keyword: seq<byte>) {
    match kind
    case Rsa => keyword == RSA_PRIVATE_KEY || keyword == PRIVATE_KEY
    case Ec => keyword == EC_PRIVATE_KEY
  }

  /** A block that is found gets past its first line. */
  lemma BlockHasFirstLine(t: seq<byte>, p: nat, keyword: seq<byte>)
    requires p <= |t| && Block(t, p, keyword).Some?
    ensures EncapsulationLine(t, p, BEGIN, keyword).Some?
  {
  }

  /** PKCS#8 text leaves the EC attempts nothing to read: they start at the same dashes. */
  lemma Pkcs8ExcludesEc(t: seq<byte>)
    requires EncapsulationLine(t, 0, BEGIN, PRIVATE_KEY).Some?
    ensures EncapsulationLine(t, 0, BEGIN, EC_PARAMETERS).None?
    ensures EncapsulationLine(t, 0, BEGIN, EC_PRIVATE_KEY).None?
  {
    KeywordsExclude(t, 0, PRIVATE_KEY, EC_PARAMETERS);
    KeywordsExclude(t, 0, PRIVATE_KEY, EC_PRIVATE_KEY);
  }

  /** Wiping empties the output and gives all its room back. */
  lemma WipeKeepsAmple(e: S.Env, v: S.Buf, b: S.Buf, n: nat)
    requires S.Valid(b) && b.size >= v.size && b.growable == v.growable && b.tainted == v.tainted
    ensures S.Ample(e, v, n) ==> S.Ample(e, S.Wipe(b).b, n)
    ensures S.Valid(S.Wipe(b).b) && S.Wipe(b).b.write == S.Wipe(b).b.read == 0
  {
  }

  /** An output with nothing unread gains exactly what is then unread. */
  lemma GainedIsUnread(before: S.Buf, now: S.Buf, done: seq<byte>)
    requires B.Gained(before, now, done) && before.read == before.write
    ensures S.Unread(now) == done
  {
    assert S.Unread(now) == S.Written(now)[before.write..];
  }

  /** The output of a successful attempt: the body of the block that `keyword` names, found from `start`. */
  ghost predicate KeyRead(t: seq<byte>, start: nat, keyword: seq<byte>, now: S.Buf, r: nat) {
    && start <= |t| && S.Valid(now) && Block(t, start, keyword) == Some((S.Unread(now), r))
  }

  lemma AttemptReadsKey(t: seq<byte>, p: nat, keyword: seq<byte>, e: S.Env, was: S.Buf, now: S.Buf, r: nat)
    requires Attempt(t, p, keyword, e, was, now, true, r) && was.read == was.write
    ensures KeyRead(t, p, keyword, now, r)
  {
    GainedIsUnread(was, now, Block(t, p, keyword).value.0);
  }

  /** Room enough for all attempts. From the beginning of the text one pass is enough, because at most one of the
      first two blocks gets past its first line; from further on the first attempt may have written in vain. */
  ghost predicate Roomy(e: S.Env, v: S.Buf, t: seq<byte>, p: nat) {
    S.Ample(e, v, if p == 0 then |t| else 2 * |t|)
  }

  /** Up to the wipe: with room, the parameters block is skipped exactly when it is there. */
  lemma ParametersStage(t: seq<byte>, p: nat, e: S.Env, v0: S.Buf, v1: S.Buf, r1: nat, v3: S.Buf, ok: bool, r: nat)
    requires Attempt(t, p, RSA_PRIVATE_KEY, e, v0, v1, false, r1) && Roomy(e, v0, t, p)
    requires Attempt(t, 0, EC_PARAMETERS, e, S.Reread(v1).b, v3, ok, r)
    ensures Block(t, p, RSA_PRIVATE_KEY).None? && (ok <==> Block(t, 0, EC_PARAMETERS).Some?)
    ensures S.Ample(e, S.Wipe(v3).b, |t|)
  {
    hide Block, EncapsulationLine, S.Ample, B.Gained;
    var n := if p == 0 then |t| else 2 * |t|;
    S.AmpleForLess(e, v0, n, |t| - p);
    S.AmpleForLess(e, v0, n, |t|);
    if p > 0 {
      S.AmpleAfter(e, v0, S.Reread(v1).b, n, |t| - p);
      S.AmpleForLess(e, S.Reread(v1).b, n - (|t| - p), |t|);
    } else if Block(t, 0, EC_PARAMETERS).Some? {
      BlockHasFirstLine(t, 0, EC_PARAMETERS);
      KeywordsExclude(t, 0, EC_PARAMETERS, RSA_PRIVATE_KEY);
      S.AmpleAfter(e, v0, S.Reread(v1).b, |t|, 0);
    }
    WipeKeepsAmple(e, v0, v3, |t|);
  }

  /** The last attempt starts from an output that the EC attempt rewound but did not wipe. When its block
      is there, that attempt had not written anything. */
  lemma Pkcs8Stage(t: seq<byte>, e: S.Env, parameters: bool, q: nat, v4: S.Buf, v5: S.Buf, r5: nat,
                   v7: S.Buf, ok: bool, r: nat)
    requires parameters ==> Block(t, 0, EC_PARAMETERS).Some?
    requires S.Valid(v4) && v4.read == v4.write == 0 && (!parameters ==> q == 0)
    requires Attempt(t, q, EC_PRIVATE_KEY, e, v4, v5, false, r5)
    requires Attempt(t, 0, PRIVATE_KEY, e, S.Reread(v5).b, v7, ok, r)
    ensures ok ==> KeyRead(t, 0, PRIVATE_KEY, v7, r)
    ensures S.Ample(e, v4, |t|) ==> Block(t, q, EC_PRIVATE_KEY).None? && (ok <==> Block(t, 0, PRIVATE_KEY).Some?)
  {
    hide Block, EncapsulationLine, S.Ample, B.Gained;
    if Block(t, 0, PRIVATE_KEY).Some? {
      BlockHasFirstLine(t, 0, PRIVATE_KEY);
      Pkcs8ExcludesEc(t);
      if parameters { BlockHasFirstLine(t, 0, EC_PARAMETERS); }
      if ok { AttemptReadsKey(t, 0, PRIVATE_KEY, e, v4, v7, r); }
    }
    if S.Ample(e, v4, |t|) { S.AmpleAfter(e, v4, v4, |t|, q); }
  }

  /** Starts over, skips a block of EC parameters if there is one, and empties the output. */
  method SkipParameters(pem: Stuffer, asn1: Stuffer) returns (ghost found: bool, ghost v: S.Buf, ghost r: nat)
    requires pem != asn1 && pem.mem != asn1.mem && pem.Valid() && asn1.Valid()
    modifies pem`read, asn1, asn1.mem
    ensures pem.Valid() && asn1.Valid() && asn1.Tracked() && S.Valid(v)
    ensures Attempt(pem.Written(), 0, EC_PARAMETERS, asn1.env, S.Reread(old(asn1.Value())).b, v, found, r)
    ensures asn1.Value() == S.Wipe(v).b && pem.read == if found then r else 0
  {
    hide Stuffer.Valid, Stuffer.Value, S.Valid, Attempt, S.Wipe, S.Reread;
    pem.Reread();
    asn1.Reread();
    var ok := DataFromPem(pem, asn1, EC_PARAMETERS);
    found, v, r := ok, asn1.Value(), pem.read;
    if !ok { pem.Reread(); }
    asn1.Wipe();
  }

  /** Where the EC attempt begins. */
  function EcStart(t: seq<byte>): nat {
    if Block(t, 0, EC_PARAMETERS).Some? then Block(t, 0, EC_PARAMETERS).value.1 else 0
  }

  /** The last two attempts, on an empty output: the EC key, and failing that the PKCS#8 key from the beginning. */
  method EcOrPkcs8Key(pem: Stuffer, asn1: Stuffer, ghost p: nat, ghost parameters: bool, ghost exact: bool)
    returns (ok: bool, kind: KeyType, ghost keyword: seq<byte>, ghost start: nat)
    requires pem != asn1 && pem.mem != asn1.mem && pem.Valid() && asn1.Valid() && asn1.read == asn1.write == 0
    requires parameters ==> Block(pem.Written(), 0, EC_PARAMETERS).Some?
    requires !parameters ==> pem.read == 0
    requires p <= pem.write
    requires exact ==> Block(pem.Written(), p, RSA_PRIVATE_KEY).None? && pem.read == EcStart(pem.Written())
    requires exact ==> S.Ample(asn1.env, asn1.Value(), pem.write)
    modifies pem`read, asn1, asn1.mem
    ensures pem.Valid() && asn1.Valid() && asn1.Tracked()
    ensures ok ==> LabelOf(kind, keyword) && KeyRead(pem.Written(), start, keyword, asn1.Value(), pem.read)
    ensures exact ==> (ok <==> PrivateKey(pem.Written(), p).Some?)
    ensures exact && ok ==> PrivateKey(pem.Written(), p) == Some((kind, S.Unread(asn1.Value()), pem.read))
  {
    hide Stuffer.Valid, Stuffer.Value, S.Valid, S.Ample, Block, EncapsulationLine, Attempt, S.Reread;
    hide PrivateKey, KeyRead, EcStart;
    ghost var t, e, v4 := pem.Written(), asn1.env, asn1.Value();
    start, keyword, kind := pem.read, EC_PRIVATE_KEY, Ec;
    ok := DataFromPem(pem, asn1, EC_PRIVATE_KEY);
    ghost var v5, r5 := asn1.Value(), pem.read;
    if ok {
      AttemptReadsKey(t, start, keyword, e, v4, v5, r5);
      KeyIsPrivateKey(t, p, v5, r5);
      return;
    }
    pem.Reread();
    asn1.Reread();
    ok := DataFromPem(pem, asn1, PRIVATE_KEY);
    Pkcs8Stage(t, e, parameters, start, v4, v5, r5, asn1.Value(), ok, pem.read);
    KeyIsPrivateKey(t, p, asn1.Value(), pem.read);
    start, keyword, kind := 0, PRIVATE_KEY, Rsa;
  }

  /** Tries the block types in turn. However the earlier attempts ended, the output of a success is
      the body of the one block named by `keyword`, found from `start`. */
  method PrivateKeyFromPem(pem: Stuffer, asn1: Stuffer)
    returns (ok: bool, kind: KeyType, ghost keyword: seq<byte>, ghost start: nat)
    requires pem != asn1 && pem.mem != asn1.mem && pem.Valid() && asn1.Valid()
    requires asn1.read == asn1.write
    modifies pem`read, asn1, asn1.mem
    ensures pem.Valid() && asn1.Valid() && asn1.Tracked()
    ensures ok ==> LabelOf(kind, keyword) && KeyRead(pem.Written(), start, keyword, asn1.Value(), pem.read)
    ensures Roomy(asn1.env, old(asn1.Value()), pem.Written(), old(pem.read)) ==>
              && (ok <==> PrivateKey(pem.Written(), old(pem.read)).Some?)
              && (ok ==> PrivateKey(pem.Written(), old(pem.read)) == Some((kind, S.Unread(asn1.Value()), pem.read)))
  {
    hide Stuffer.Valid, Stuffer.Value, S.Valid, S.Ample, Block, EncapsulationLine, Attempt, S.Wipe, S.Reread;
    hide PrivateKey, KeyRead, Roomy;
    ghost var t, p, e, v0 := pem.Written(), pem.read, asn1.env, asn1.Value();
    ghost var exact := Roomy(e, v0, t, p);
    start, keyword, kind := pem.read, RSA_PRIVATE_KEY, Rsa;
    ok := DataFromPem(pem, asn1, RSA_PRIVATE_KEY);
    ghost var v1, r1 := asn1.Value(), pem.read;
    if ok {
      AttemptReadsKey(t, start, keyword, e, v0, v1, r1);
      KeyIsPrivateKey(t, p, v1, r1);
      return;
    }
    ghost var parameters, v3, r3 := SkipParameters(pem, asn1);
    if exact { ParametersStage(t, p, e, v0, v1, r1, v3, parameters, r3); }
    if parameters { AttemptFindsBlock(t, 0, EC_PARAMETERS, e, S.Reread(v1).b, v3, r3); }
    WipeKeepsAmple(e, v3, v3, pem.write);
    ok, kind, keyword, start := EcOrPkcs8Key(pem, asn1, p, parameters, exact);
  }

  /** The key of a text, by the attempt that finds it. */
  lemma KeyIsPrivateKey(t: seq<byte>, p: nat, now: S.Buf, r: nat)
    requires p <= |t|
    ensures KeyRead(t, p, RSA_PRIVATE_KEY, now, r) ==> PrivateKey(t, p) == Some((Rsa, S.Unread(now), r))
    ensures Block(t, p, RSA_PRIVATE_KEY).None? && EcStart(t) <= |t| ==>
              && (KeyRead(t, EcStart(t), EC_PRIVATE_KEY, now, r) ==> PrivateKey(t, p) == Some((Ec, S.Unread(now), r)))
              && (Block(t, EcStart(t), EC_PRIVATE_KEY).None? && KeyRead(t, 0, PRIVATE_KEY, now, r) ==>
                    PrivateKey(t, p) == Some((Rsa, S.Unread(now), r)))
              && (Block(t, EcStart(t), EC_PRIVATE_KEY).None? && Block(t, 0, PRIVATE_KEY).None? ==>
                    PrivateKey(t, p).None?)
  {
    hide Block;
  }

  lemma AttemptFindsBlock(t: seq<byte>, p: nat, keyword: seq<byte>, e: S.Env, was: S.Buf, now: S.Buf, r: nat)
    requires Attempt(t, p, keyword, e, was, now, true, r)
    ensures Block(t, p, keyword).Some? && Block(t, p, keyword).value.1 == r
  {
  }
}
