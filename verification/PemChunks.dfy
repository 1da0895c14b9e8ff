/** Bodies are decoded 64 characters at a time: when that is the same as decoding them whole. */
module PemChunks {
  import opened Bytes
  import opened PemSpec
  import B = Base64

  /** Some chunk but the last is padded at its end, and a whole group follows it. */
  ghost predicate PaddedInside(s: seq<byte>) {
    exists k :: 0 < k && CHUNK * k + 4 <= |s| && s[CHUNK * k - 1] == B.PAD
  }

  lemma FirstQuad(x: seq<byte>)
    requires |x| % 4 == 0 && x != []
    ensures B.DecodeGroups(x) == if x[3] == B.PAD && |x| > 4 then None else Join(B.DecodeQuad(x[..4]), B.DecodeGroups(x[4..]))
    ensures B.DecodeGroups([]) == Some([])
  {
    hide B.DecodeQuad;
  }

  lemma JoinNothing(a: Option<seq<byte>>)
    ensures Join(a, Some([])) == a
  {
    if a.Some? { assert a.value + [] == a.value; }
  }

  lemma JoinAssociative(a: Option<seq<byte>>, b: Option<seq<byte>>, c: Option<seq<byte>>)
    ensures Join(a, Join(b, c)) == Join(Join(a, b), c)
  {
    if a.Some? && b.Some? && c.Some? { assert a.value + (b.value + c.value) == (a.value + b.value) + c.value; }
  }

  lemma {:induction false} GroupsConcat(x: seq<byte>, y: seq<byte>)
    requires |x| % 4 == 0 && |y| % 4 == 0
    ensures x == [] || y == [] || x[|x| - 1] != B.PAD ==>
              B.DecodeGroups(x + y) == Join(B.DecodeGroups(x), B.DecodeGroups(y))
    ensures x != [] && y != [] && x[|x| - 1] == B.PAD ==> B.DecodeGroups(x + y) == None
    ensures B.DecodeGroups(x + y).Some? ==> B.DecodeGroups(x).Some? && B.DecodeGroups(y).Some?
  {
    hide B.DecodeQuad;
    if x == [] {
      assert x + y == y;
      if B.DecodeGroups(y).Some? { assert [] + B.DecodeGroups(y).value == B.DecodeGroups(y).value; }
    } else if y == [] {
      assert x + y == x;
      if B.DecodeGroups(x).Some? { assert B.DecodeGroups(x).value + [] == B.DecodeGroups(x).value; }
    } else {
      var z := x[4..];
      GroupsConcat(z, y);
      assert (x + y)[..4] == x[..4] && (x + y)[4..] == z + y;
      if |x| > 4 { assert z[|z| - 1] == x[|x| - 1]; }
      FirstQuad(x);
      FirstQuad(x + y);
      hide B.DecodeGroups;
      if |x| == 4 {
        assert z == [] && z + y == y;
        JoinNothing(B.DecodeQuad(x[..4]));
      }
      JoinAssociative(B.DecodeQuad(x[..4]), B.DecodeGroups(z), B.DecodeGroups(y));
    }
  }

  /** A body that decodes as a whole decodes to the same bytes chunk by chunk. The chunked reader accepts
      more: a chunk of its own may end in padding. It differs from the whole exactly then. */
  lemma {:induction false} ChunkedAndWhole(s: seq<byte>)
    ensures B.Decode(s).Some? ==> ChunkDecode(s) == B.Decode(s)
    ensures ChunkDecode(s).Some? ==> (ChunkDecode(s) == B.Decode(s) <==> !PaddedInside(s))
  {
    hide B.DecodeGroups;
    if |s| > CHUNK {
      ChunkedAndWhole(s[CHUNK..]);
      DecodeSplits(s);
      PaddedInsideSplits(s);
    }
  }

  lemma DecodeSplits(s: seq<byte>)
    requires |s| > CHUNK
    ensures |s| < CHUNK + 4 || s[CHUNK - 1] != B.PAD ==> B.Decode(s) == Join(B.Decode(s[..CHUNK]), B.Decode(s[CHUNK..]))
    ensures |s| >= CHUNK + 4 && s[CHUNK - 1] == B.PAD ==> B.Decode(s) == None
    ensures |s| < CHUNK + 4 ==> B.Decode(s[CHUNK..]) == Some([])
  {
    hide B.DecodeGroups;
    var x, y := s[..CHUNK], s[CHUNK..];
    var y' := y[..|y| / 4 * 4];
    assert x[..|x| / 4 * 4] == x;
    assert s[..|s| / 4 * 4] == x + y';
    GroupsConcat(x, y');
    if |s| < CHUNK + 4 { B.DecodeTooShort(y); }
  }

  lemma PaddedInsideSplits(s: seq<byte>)
    requires |s| > CHUNK
    ensures PaddedInside(s) <==> (|s| >= CHUNK + 4 && s[CHUNK - 1] == B.PAD) || PaddedInside(s[CHUNK..])
  {
    var y := s[CHUNK..];
    if PaddedInside(s) {
      var k :| 0 < k && CHUNK * k + 4 <= |s| && s[CHUNK * k - 1] == B.PAD;
      if k > 1 { assert y[CHUNK * (k - 1) - 1] == s[CHUNK * k - 1]; }
    }
    if PaddedInside(y) {
      var k :| 0 < k && CHUNK * k + 4 <= |y| && y[CHUNK * k - 1] == B.PAD;
      assert s[CHUNK * (k + 1) - 1] == y[CHUNK * k - 1];
    }
    if |s| >= CHUNK + 4 && s[CHUNK - 1] == B.PAD { assert s[CHUNK * 1 - 1] == B.PAD; }
  }

  lemma ChunkDecodeEncode(der: seq<byte>)
    ensures ChunkDecode(B.Encode(der)) == Some(der)
  {
    B.DecodeEncode(der);
    ChunkedAndWhole(B.Encode(der));
  }

  /** Two encodings one after the other, the first filling a chunk with its padding: the chunked reader takes
      the bytes of both, and the text as a whole is no encoding. */
  lemma PaddingInside(a: seq<byte>, b: seq<byte>)
    requires |a| == 47 && 0 < |b| <= 48
    ensures var s := B.Encode(a) + B.Encode(b);
            ChunkDecode(s) == Some(a + b) && B.Decode(s) == None && PaddedInside(s)
  {
    hide B.Encode, B.DecodeGroups, B.IsBase64Char;
    var x, y := B.Encode(a), B.Encode(b);
    var s := x + y;
    B.EncodeSize(a);
    B.EncodeSize(b);
    assert s[..CHUNK] == x && s[CHUNK..] == y;
    B.DecodeEncode(a);
    B.DecodeEncode(b);
    EncodePads(a);
    DecodeSplits(s);
    assert s[CHUNK * 1 - 1] == B.PAD;
  }

  lemma {:induction false} EncodePads(d: seq<byte>)
    requires |d| % 3 == 2
    ensures var s := B.Encode(d); |s| >= 4 && s[|s| - 1] == B.PAD
  {
    if |d| > 2 { EncodePads(d[3..]); }
  }
}
