/** Base64 of section 4 of RFC 4648, and its use on stuffers. */
module Base64 {
  import opened Bytes
  import opened Memory
  import opened Stuffers
  import S = StufferSpec

  const PAD: byte := '=' as int

  predicate InRange(c: byte, lo: char, hi: char) { lo as int <= c <= hi as int }

  function Flag(b: bool): nat { if b then 1 else 0 }

  /** The six tests are combined by exclusive or; as no two of them hold together, one of them holding
      is what the result says. */
  predicate IsBase64Char(c: byte)
    ensures IsBase64Char(c) <==> IsAlphabet(c) || c == PAD
  {
    var out := BitXor(Flag(InRange(c, 'A', 'Z')), Flag(InRange(c, 'a', 'z')));
    var out := BitXor(out, Flag(InRange(c, '0', '9')));
    var out := BitXor(out, Flag(c == '+' as int));
    var out := BitXor(out, Flag(c == '/' as int));
    BitXor(out, Flag(c == PAD)) == 1
  }

  predicate IsAlphabet(c: byte) {
    InRange(c, 'A', 'Z') || InRange(c, 'a', 'z') || InRange(c, '0', '9') || c == '+' as int || c == '/' as int
  }

  // ---------------------------------------------------------------- the code

  type sextet = x: int | 0 <= x < 64

  function CharOf(x: sextet): (c: byte)
    ensures IsAlphabet(c)
  {
    if x < 26 then 'A' as int + x
    else if x < 52 then 'a' as int + (x - 26)
    else if x < 62 then '0' as int + (x - 52)
    else if x == 62 then '+' as int else '/' as int
  }

  function SextetOf(c: byte): (x: sextet)
    requires IsAlphabet(c)
    ensures CharOf(x) == c
  {
    if InRange(c, 'A', 'Z') then c - 'A' as int
    else if InRange(c, 'a', 'z') then c - 'a' as int + 26
    else if InRange(c, '0', '9') then c - '0' as int + 52
    else if c == '+' as int then 62 else 63
  }

  lemma SextetOfCharOf(x: sextet)
    ensures SextetOf(CharOf(x)) == x
  {
  }

  /** The character at a place of table 1 of section 4 of RFC 4648. */
  function Letter(x: sextet): byte {
    var table := "ABCDEFGHIJKLMNOPQRSTUVWXYZ" + "abcdefghijklmnopqrstuvwxyz" + "0123456789+/";
    if x < 26 then Upper(x); table[x] as int
    else if x < 52 then Lower(x - 26); table[x] as int
    else Rest(x - 52); table[x] as int
  }

  /** Each number is written as the character at its place in that table. */
  lemma CharOfIsTable(x: sextet)
    ensures CharOf(x) == Letter(x)
  {
    if x < 26 { Upper(x); } else if x < 52 { Lower(x - 26); } else { Rest(x - 52); }
  }

  lemma Upper(i: nat)
    requires i < 26
    ensures "ABCDEFGHIJKLMNOPQRSTUVWXYZ"[i] as int == 'A' as int + i
  {
  }

  lemma Lower(i: nat)
    requires i < 26
    ensures "abcdefghijklmnopqrstuvwxyz"[i] as int == 'a' as int + i
  {
  }

  lemma Rest(i: nat)
    requires i < 12
    ensures "0123456789+/"[i] as int == if i < 10 then '0' as int + i else if i == 10 then '+' as int else '/' as int
  {
  }

  function EncodeGroup(a: byte, b: byte, c: byte): (q: seq<byte>)
    ensures |q| == 4 && forall i :: 0 <= i < 4 ==> IsAlphabet(q[i])
  {
    [CharOf(a / 4), CharOf(a % 4 * 16 + b / 16), CharOf(b % 16 * 4 + c / 64), CharOf(c % 64)]
  }

  /** The standard encoding with padding. */
  function Encode(d: seq<byte>): (s: seq<byte>)
    ensures |s| % 4 == 0 && (d != [] ==> |s| >= 4)
    ensures forall i :: 0 <= i < |s| ==> IsBase64Char(s[i])
  {
    if |d| == 0 then []
    else if |d| == 1 then EncodeGroup(d[0], 0, 0)[..2] + [PAD, PAD]
    else if |d| == 2 then EncodeGroup(d[0], d[1], 0)[..3] + [PAD]
    else EncodeGroup(d[0], d[1], d[2]) + Encode(d[3..])
  }

  /** The bytes of one group of four characters, which padding shortens; none if it is malformed. */
  function DecodeQuad(q: seq<byte>): (r: Option<seq<byte>>)
    requires |q| == 4
    ensures r.Some? ==> |r.value| == 3 - Flag(q[3] == PAD) - Flag(q[2] == PAD)
    ensures r.Some? && q[2] == PAD ==> q[3] == PAD
  {
    if !IsAlphabet(q[0]) || !IsAlphabet(q[1]) then None
    else
      var a, b := SextetOf(q[0]), SextetOf(q[1]);
      if q[2] == PAD && q[3] == PAD then Some([a * 4 + b / 16])
      else if !IsAlphabet(q[2]) then None
      else
        var c := SextetOf(q[2]);
        if q[3] == PAD then Some([a * 4 + b / 16, b % 16 * 16 + c / 4])
        else if !IsAlphabet(q[3]) then None
        else Some([a * 4 + b / 16, b % 16 * 16 + c / 4, c % 4 * 64 + SextetOf(q[3])])
  }

  /** A block decodes group by group; only its last group may be padded. */
  function DecodeGroups(s: seq<byte>): (r: Option<seq<byte>>)
    requires |s| % 4 == 0
  {
    if s == [] then Some([])
    else match (DecodeQuad(s[..4]), DecodeGroups(s[4..]))
      case (Some(x), Some(y)) => if s[3] == PAD && |s| > 4 then None else Some(x + y)
      case _ => None
  }

  /** The padding characters of a block. */
  function Padding(s: seq<byte>): (n: nat)
    requires |s| >= 2
    ensures n <= 2
  {
    Flag(s[|s| - 1] == PAD) + Flag(s[|s| - 2] == PAD)
  }

  lemma {:induction false} DecodeGroupsSize(s: seq<byte>)
    requires |s| % 4 == 0 && s != [] && DecodeGroups(s).Some?
    ensures |DecodeGroups(s).value| + Padding(s) == |s| / 4 * 3
  {
    if |s| > 4 {
      DecodeGroupsSize(s[4..]);
    } else {
      assert s[..4] == s && s[4..] == [];
    }
  }

  /** The bytes of each group stand at three times its number; only the last may be short. */
  lemma {:induction false} GroupAt(s: seq<byte>, k: nat)
    requires |s| % 4 == 0 && 4 * k + 4 <= |s| && DecodeGroups(s).Some?
    ensures var d, q := DecodeGroups(s).value, DecodeQuad(s[4 * k..4 * k + 4]);
            && q.Some? && 3 * k + |q.value| <= |d| && d[3 * k..3 * k + |q.value|] == q.value
            && (if 4 * k + 4 < |s| then |q.value| == 3 else 3 * k + |q.value| == |d|)
    decreases k
  {
    hide DecodeQuad;
    var x, y := DecodeQuad(s[..4]).value, DecodeGroups(s[4..]).value;
    if k == 0 {
      assert s[0..4] == s[..4];
      if |s| == 4 { assert s[4..] == []; }
    } else {
      GroupAt(s[4..], k - 1);
      assert s[4..][4 * (k - 1)..4 * (k - 1) + 4] == s[4 * k..4 * k + 4];
      assert |x| == 3;
    }
  }

  /** EVP_DecodeBlock: three bytes for every group, zeros standing in for what padding leaves out. */
  function DecodeBlock(s: seq<byte>): (r: Option<seq<byte>>)
    requires |s| % 4 == 0 && s != []
    ensures r.Some? ==> |r.value| == |s| / 4 * 3
  {
    match DecodeGroups(s)
    case None => None
    case Some(d) => DecodeGroupsSize(s); Some(d + Fill(0, Padding(s)))
  }

  /** What reading base64 from a buffer of characters yields: whole groups only, any rest is ignored. */
  function Decode(s: seq<byte>): (r: Option<seq<byte>>) {
    DecodeGroups(s[..|s| / 4 * 4])
  }

  /** Decoding never lengthens. */
  lemma DecodeSize(s: seq<byte>)
    ensures Decode(s).Some? ==> |Decode(s).value| <= |s| / 4 * 3
  {
    var g := s[..|s| / 4 * 4];
    if g != [] && DecodeGroups(g).Some? { DecodeGroupsSize(g); }
  }

  lemma QuadOf(w: sextet, x: sextet, y: sextet, z: sextet)
    ensures DecodeQuad([CharOf(w), CharOf(x), CharOf(y), CharOf(z)]) == Some([w * 4 + x / 16, x % 16 * 16 + y / 4, y % 4 * 64 + z])
    ensures DecodeQuad([CharOf(w), CharOf(x), CharOf(y), PAD]) == Some([w * 4 + x / 16, x % 16 * 16 + y / 4])
    ensures DecodeQuad([CharOf(w), CharOf(x), PAD, PAD]) == Some([w * 4 + x / 16])
  {
    SextetOfCharOf(w);
    SextetOfCharOf(x);
    SextetOfCharOf(y);
    SextetOfCharOf(z);
    assert !IsAlphabet(PAD);
    hide CharOf, SextetOf, IsAlphabet;
  }

  lemma Regroup(a: byte, b: byte, c: byte)
    ensures a / 4 * 4 + (a % 4 * 16 + b / 16) / 16 == a
    ensures (a % 4 * 16 + b / 16) % 16 * 16 + (b % 16 * 4 + c / 64) / 4 == b
    ensures (b % 16 * 4 + c / 64) % 4 * 64 + c % 64 == c
  {
  }

  /** The number that four places form in base 64. */
  function Places(w: sextet, x: sextet, y: sextet, z: sextet): nat { ((w * 64 + x) * 64 + y) * 64 + z }

  /** Four characters of the table stand for the number that their places form, as three bytes; where padding takes
      the place of the last one or two, for the first bytes of it. */
  lemma QuadValue(w: sextet, x: sextet, y: sextet, z: sextet)
    ensures DecodeQuad([Letter(w), Letter(x), Letter(y), Letter(z)]) == Some(BE(Places(w, x, y, z), 3))
    ensures DecodeQuad([Letter(w), Letter(x), Letter(y), '=' as int]) == Some(BE(Places(w, x, y, 0), 3)[..2])
    ensures DecodeQuad([Letter(w), Letter(x), '=' as int, '=' as int]) == Some(BE(Places(w, x, 0, 0), 3)[..1])
  {
    hide DecodeQuad, CharOf, Letter, BE, Places;
    CharOfIsTable(w);
    CharOfIsTable(x);
    CharOfIsTable(y);
    CharOfIsTable(z);
    QuadOf(w, x, y, z);
    QuadBytes(w, x, y, z);
    QuadBytes(w, x, y, 0);
    QuadBytes(w, x, 0, 0);
    Leading(w * 4 + x / 16, x % 16 * 16 + y / 4, y % 4 * 64 + 0);
    Leading(w * 4 + x / 16, x % 16 * 16 + 0, 0);
  }

  lemma Leading(a: byte, b: byte, c: byte)
    ensures [a, b, c][..2] == [a, b] && [a, b, c][..1] == [a]
  {
  }

  lemma QuadBytes(w: sextet, x: sextet, y: sextet, z: sextet)
    ensures BE(Places(w, x, y, z), 3) == [w * 4 + x / 16, x % 16 * 16 + y / 4, y % 4 * 64 + z]
  {
    hide BE;
    var a, b, c := w * 4 + x / 16, x % 16 * 16 + y / 4, y % 4 * 64 + z;
    assert 4096 * x == 65536 * (x / 16) + 4096 * (x % 16) && 64 * y == 256 * (y / 4) + 64 * (y % 4);
    ThreeBytes(a, b, c);
    assert Places(w, x, y, z) == (a * 256 + b) * 256 + c;
  }

  lemma ThreeBytes(a: byte, b: byte, c: byte)
    ensures BE((a * 256 + b) * 256 + c, 3) == [a, b, c]
  {
    var v: nat := a * 256 + b;
    assert (v * 256 + c) / 256 == v && (v * 256 + c) % 256 == c;
    assert v / 256 == a && v % 256 == b;
    assert BE(a, 1) == BE(a / 256, 0) + [a];
    assert BE(v, 2) == BE(a, 1) + [b];
  }

  lemma GroupRoundTrip(a: byte, b: byte, c: byte)
    ensures var q := EncodeGroup(a, b, c);
            && DecodeQuad(q) == Some([a, b, c])
            && (c == 0 ==> DecodeQuad(q[..3] + [PAD]) == Some([a, b]))
            && (b == 0 && c == 0 ==> DecodeQuad(q[..2] + [PAD, PAD]) == Some([a]))
  {
    hide DecodeQuad, CharOf;
    Regroup(a, b, c);
    QuadOf(a / 4, a % 4 * 16 + b / 16, b % 16 * 4 + c / 64, c % 64);
    var q := EncodeGroup(a, b, c);
    assert q[..3] + [PAD] == [q[0], q[1], q[2], PAD] && q[..2] + [PAD, PAD] == [q[0], q[1], PAD, PAD];
  }

  /** Decoding inverts encoding. */
  lemma {:induction false} DecodeEncode(d: seq<byte>)
    ensures DecodeGroups(Encode(d)) == Some(d) && Decode(Encode(d)) == Some(d)
  {
    hide DecodeQuad, EncodeGroup, IsBase64Char;
    var s := Encode(d);
    assert s[..|s| / 4 * 4] == s;
    if |d| == 1 {
      GroupRoundTrip(d[0], 0, 0);
      assert s[..4] == s && s[4..] == [] && d == [d[0]] + [];
    } else if |d| == 2 {
      GroupRoundTrip(d[0], d[1], 0);
      assert s[..4] == s && s[4..] == [] && d == [d[0], d[1]] + [];
    } else if |d| > 2 {
      GroupRoundTrip(d[0], d[1], d[2]);
      assert s[..4] == EncodeGroup(d[0], d[1], d[2]) && s[4..] == Encode(d[3..]);
      DecodeEncode(d[3..]);
      assert d == [d[0], d[1], d[2]] + d[3..];
    }
  }

  // ---------------------------------------------------------------- stuffers

  /** The library call behind a base64 read. Where it fails, the destination may hold anything. */
  method EvpDecodeBlock(dst: array<byte>, at: nat, s: seq<byte>) returns (n: int)
    requires |s| % 4 == 0 && s != [] && at + |s| / 4 * 3 <= dst.Length
    modifies dst
    ensures n == if DecodeBlock(s).Some? then |s| / 4 * 3 else -1
    ensures DecodeBlock(s).Some? ==> dst[..] == Splice(old(dst[..]), at, DecodeBlock(s).value)
    ensures forall i :: 0 <= i < dst.Length && !(at <= i < at + |s| / 4 * 3) ==> dst[i] == old(dst[i])
  {
    match DecodeBlock(s) {
      case None => return -1;
      case Some(d) =>
        Put(dst, at, d);
        return |d|;
    }
  }

  /** A decode that goes wrong may leave anything behind what was there, but not disturb that. */
  ghost predicate Disturbed(b: S.Buf, r: S.Buf) {
    && S.Valid(b) && S.Valid(r) && r.read == b.read && r.write >= b.write && r.mem[..b.write] == b.mem[..b.write]
    && r.size >= b.size && r.alloced == b.alloced && r.growable == b.growable && r.tainted == b.tainted
  }

  /** The output has gained `done` and is otherwise as it was. */
  ghost predicate Gained(before: S.Buf, now: S.Buf, done: seq<byte>)
    ensures Gained(before, now, done) ==> Disturbed(before, now)
  {
    Disturbed(before, now) && S.Written(now) == S.Written(before) + done
  }

  lemma DisturbedNot(b: S.Buf)
    requires S.Valid(b)
    ensures Disturbed(b, b)
  {
  }

  lemma RefusedDisturbsNot(e: S.Env, b: S.Buf, data: seq<byte>)
    requires S.Valid(b)
    ensures !S.SkipAndStore(e, b, data).ok ==> Disturbed(b, S.SkipAndStore(e, b, data).b)
  {
  }

  lemma GainedNothing(b: S.Buf)
    requires S.Valid(b)
    ensures Gained(b, b, [])
  {
  }

  lemma GainedTwice(a: S.Buf, b: S.Buf, c: S.Buf, x: seq<byte>, y: seq<byte>)
    requires Gained(a, b, x) && Disturbed(b, c)
    ensures Disturbed(a, c) && (Gained(b, c, y) ==> Gained(a, c, x + y))
  {
    assert c.mem[..a.write] == c.mem[..b.write][..a.write];
    assert b.mem[..a.write] == b.mem[..b.write][..a.write];
    assert S.Written(a) + (x + y) == (S.Written(a) + x) + y;
  }

  lemma GainedKeepsAmple(e: S.Env, b: S.Buf, r: S.Buf, x: seq<byte>, n: nat, k: nat)
    requires S.Ample(e, b, n) && Gained(b, r, x) && |x| <= k <= n
    ensures S.Ample(e, r, n - k)
  {
    assert |S.Written(r)| == |S.Written(b)| + |x|;
    S.AmpleAfter(e, b, r, n, k);
  }

  /** Room is made for the decoded bytes, the characters are decoded into it, and the write cursor steps
      back over the bytes that stand for padding. */
  method DecodeOnto(out: Stuffer, text: seq<byte>) returns (ok: bool)
    requires out.Valid() && 4 <= |text| < 0x8000_0000 && |text| % 4 == 0
    modifies out, out.mem
    ensures out.Valid() && out.Tracked()
    ensures ok <==> DecodeBlock(text).Some? && S.SkipWrite(out.env, old(out.Value()), |text| / 4 * 3).ok
    ensures ok ==> out.Value() == S.WriteTrimmed(out.env, old(out.Value()), DecodeBlock(text).value, Padding(text)).b
    ensures !ok ==> Disturbed(old(out.Value()), out.Value())
    ensures out.write <= old(out.write) + |text| / 4 * 3
  {
    hide S.SkipWrite, DecodeBlock, Splice, S.SkipAndStore, Disturbed;
    var at := out.write;
    ghost var e, before, size := out.env, out.Value(), |text| / 4 * 3;
    ok := out.SkipWrite(|text| / 4 * 3);
    if !ok {
      RefusedRoom(e, before, size);
      return;
    }
    var n := EvpDecodeBlock(out.mem, at, text);
    ghost var full := out.Value();
    NoisyRoom(e, before, size, full);
    if n != |text| / 4 * 3 { return false; }
    StoredRoom(e, before, full, DecodeBlock(text).value);
    Trim(out, text);
  }

  /** The write cursor steps back once for each padding character. */
  method Trim(out: Stuffer, text: seq<byte>)
    requires out.Valid() && 2 <= |text| && out.read + Padding(text) <= out.write
    modifies out`write
    ensures out.Valid() && out.Value() == old(out.Value()).(write := out.write) && out.write == old(out.write) - Padding(text)
  {
    if text[|text| - 1] == PAD { out.write := out.write - 1; }
    if text[|text| - 2] == PAD { out.write := out.write - 1; }
  }

  lemma RefusedRoom(e: S.Env, b: S.Buf, n: nat)
    requires S.Valid(b) && !S.SkipWrite(e, b, n).ok
    ensures Disturbed(b, S.SkipWrite(e, b, n).b)
  {
    hide S.SkipWrite;
  }

  /** Whatever is put into the room made for it, what was there before stays. */
  lemma NoisyRoom(e: S.Env, b: S.Buf, n: nat, now: S.Buf)
    requires S.Valid(b) && S.SkipWrite(e, b, n).ok
    requires var room := S.SkipWrite(e, b, n).b;
             && now == room.(mem := now.mem) && |now.mem| == |room.mem|
             && forall i :: 0 <= i < |room.mem| && !(b.write <= i < b.write + n) ==> now.mem[i] == room.mem[i]
    ensures Disturbed(b, now)
  {
    hide S.SkipWrite;
    var room := S.SkipWrite(e, b, n).b;
    assert room.mem[..b.write] == b.mem[..b.write];
    assert now.mem[..b.write] == room.mem[..b.write];
  }

  lemma StoredRoom(e: S.Env, b: S.Buf, r: S.Buf, data: seq<byte>)
    requires S.Valid(b) && S.SkipWrite(e, b, |data|).ok
    requires r == S.SkipWrite(e, b, |data|).b.(mem := Splice(S.SkipWrite(e, b, |data|).b.mem, b.write, data))
    ensures S.SkipAndStore(e, b, data).ok && r == S.SkipAndStore(e, b, data).b
  {
    hide S.SkipWrite, Splice;
  }

  /** The unread whole groups of `s` are decoded onto the end of `out`. */
  method ReadBase64(s: Stuffer, out: Stuffer) returns (ok: bool)
    requires s != out && s.mem != out.mem && s.Valid() && out.Valid()
    requires s.write - s.read < 0x8000_0000
    modifies s`read, out, out.mem
    ensures s.Valid() && out.Valid() && out.Tracked()
    ensures ok ==> Decode(old(s.Unread())).Some?
    ensures ok ==> Gained(old(out.Value()), out.Value(), Decode(old(s.Unread())).value)
    ensures Disturbed(old(out.Value()), out.Value())
    ensures out.write <= old(out.write + (s.write - s.read) / 4 * 3)
    ensures ok ==> s.read == old(s.read + (s.write - s.read) / 4 * 4)
    ensures Decode(old(s.Unread())).Some? && !ok ==> !S.SkipWrite(out.env, old(out.Value()), old(s.write - s.read) / 4 * 3).ok
  {
    hide S.SkipWrite, S.WriteTrimmed, DecodeBlock, DecodeGroups, Gained, Disturbed, Stuffer.Value, S.Valid;
    var groups := (s.write - s.read) / 4;
    ghost var all, before := s.Unread(), out.Value();
    if groups == 0 {
      DecodeTooShort(all);
      GainedNothing(before);
      return true;
    }
    ok := s.SkipRead(groups * 4);
    var text := s.mem[s.read - groups * 4..s.read];
    assert |text| == |all| / 4 * 4 && forall i :: 0 <= i < |text| ==> text[i] == all[i];
    assert text == all[..|all| / 4 * 4];
    DecodeBlockTrims(text);
    ok := DecodeOnto(out, text);
    if ok { TrimmedAppends(out.env, before, DecodeBlock(text).value, Padding(text)); }
  }

  lemma DecodeTooShort(s: seq<byte>)
    requires |s| < 4
    ensures Decode(s) == Some([])
  {
    assert s[..|s| / 4 * 4] == [];
  }

  lemma DecodeBlockTrims(s: seq<byte>)
    requires |s| % 4 == 0 && s != []
    ensures DecodeBlock(s).Some? <==> DecodeGroups(s).Some?
    ensures DecodeBlock(s).Some? ==> DecodeBlock(s).value[..|s| / 4 * 3 - Padding(s)] == DecodeGroups(s).value
  {
    if DecodeGroups(s).Some? { DecodeGroupsSize(s); }
  }

  /** Stored bytes less the trimmed ones are what the buffer gains. */
  lemma TrimmedAppends(e: S.Env, b: S.Buf, data: seq<byte>, trim: nat)
    requires S.Valid(b) && trim <= |data| && S.WriteTrimmed(e, b, data, trim).ok
    ensures var r := S.WriteTrimmed(e, b, data, trim).b;
            Gained(b, r, data[..|data| - trim])
  {
    hide S.SkipWrite, Splice;
    var s := S.SkipAndStore(e, b, data);
    S.StoredAppends(b, s.b, data);
    assert S.Written(s.b)[..s.b.write - trim] == S.Written(b) + data[..|data| - trim];
    assert s.b.mem[..b.write] == S.Written(s.b)[..b.write];
  }

  lemma {:induction false} EncodeSize(d: seq<byte>)
    ensures |Encode(d)| == (|d| + 2) / 3 * 4
  {
    hide EncodeGroup, IsBase64Char;
    if |d| > 2 { EncodeSize(d[3..]); }
  }

  /** Taking the last stored byte back leaves the others. */
  lemma WipedTail(e: S.Env, b: S.Buf, data: seq<byte>)
    requires S.Valid(b) && S.SkipAndStore(e, b, data + [0]).ok
    ensures Gained(b, S.WipeN(S.SkipAndStore(e, b, data + [0]).b, 1).b, data)
  {
    hide S.SkipWrite, Splice;
    var s := S.SkipAndStore(e, b, data + [0]).b;
    S.StoredAppends(b, s, data + [0]);
    var r := S.WipeN(s, 1).b;
    assert S.Written(s)[..s.write - 1] == S.Written(b) + data;
    assert r.mem[..r.write] == s.mem[..r.write];
  }

  /** The library call stores the characters and a zero byte in the room made for them; the zero is wiped. */
  method EncodeOnto(out: Stuffer, data: seq<byte>) returns (ok: bool)
    requires out.Valid() && 0 < |data| < 0x3000_0000
    modifies out, out.mem
    ensures out.Valid() && out.Tracked()
    ensures ok <==> S.SkipWrite(out.env, old(out.Value()), |Encode(data)| + 1).ok
    ensures ok ==> Gained(old(out.Value()), out.Value(), Encode(data))
    ensures !ok ==> Disturbed(old(out.Value()), out.Value())
  {
    hide S.SkipWrite, Encode, S.WipeN, Gained, Disturbed, S.SkipAndStore, Stuffer.Valid, Stuffer.Value, S.Valid;
    EncodeSize(data);
    RefusedDisturbsNot(out.env, out.Value(), Encode(data) + [0]);
    ok := out.SkipAndStore(Encode(data) + [0]);
    if !ok { return; }
    WipedTail(out.env, old(out.Value()), Encode(data));
    out.WipeN(1);
  }

  /** All unread bytes of `s` go to the end of `out` as characters. */
  method WriteBase64(out: Stuffer, s: Stuffer) returns (ok: bool)
    requires s != out && s.mem != out.mem && s.Valid() && out.Valid()
    requires s.write - s.read < 0x3000_0000
    modifies s`read, out, out.mem
    ensures s.Valid() && out.Valid() && out.Tracked() && s.read == s.write
    ensures ok ==> Gained(old(out.Value()), out.Value(), Encode(old(s.Unread())))
    ensures ok <==> old(s.Unread()) == [] || S.SkipWrite(out.env, old(out.Value()), |Encode(old(s.Unread()))| + 1).ok
    ensures !ok ==> Disturbed(old(out.Value()), out.Value())
  {
    hide S.SkipWrite, Encode, Gained, Disturbed, Stuffer.Value, S.Valid;
    ghost var all := s.Unread();
    var size := s.write - s.read;
    if size == 0 {
      GainedNothing(out.Value());
      EncodeSize(all);
      assert Encode(all) == [];
      return true;
    }
    ok := s.SkipRead(size);
    var data := s.mem[s.read - size..s.read];
    assert data == all;
    ok := EncodeOnto(out, data);
  }
}
