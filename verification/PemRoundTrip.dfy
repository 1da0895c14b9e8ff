/** Certificates written as PEM text are read back, and exactly which joints between blocks are readable. */
module PemRoundTrip {
  import opened Bytes
  import opened Text
  import opened PemSpec
  import opened PemChunks
  import B = Base64

  // ---------------------------------------------------------------- texts

  function Dashes(n: nat): seq<byte> { Fill(DASH, n) }

  const BEGIN_CERTIFICATE: seq<byte> := BEGIN + CERTIFICATE
  const END_CERTIFICATE: seq<byte> := END + CERTIFICATE

  /** One certificate of a text: what precedes it, the lengths of its four rows of dashes, and its body,
      which may hold anything besides the base64 characters but dashes. */
  datatype CertText = CertText(gap: seq<byte>, d1: nat, d2: nat, body: seq<byte>, d3: nat, d4: nat, der: seq<byte>)

  /** A block from its first dashes to the keyword of its last line. */
  function Labelled(word: seq<byte>, c: CertText): seq<byte> {
    Dashes(c.d1) + (BEGIN + word + (Dashes(c.d2) + (c.body + (Dashes(c.d3) + (END + word)))))
  }

  function BlockText(c: CertText): seq<byte> { Labelled(CERTIFICATE, c) }

  function Render(cs: seq<CertText>, post: seq<byte>): seq<byte> {
    if cs == [] then post
    else cs[0].gap + (BlockText(cs[0]) + (Dashes(cs[0].d4) + Render(cs[1..], post)))
  }

  function Ders(cs: seq<CertText>): seq<seq<byte>> {
    if cs == [] then [] else [cs[0].der] + Ders(cs[1..])
  }

  predicate Row(n: nat) { 2 <= n <= 64 }

  ghost predicate NoTwoDashes(s: seq<byte>) {
    forall i :: 0 <= i < |s| - 1 ==> s[i] != DASH || s[i + 1] != DASH
  }

  ghost predicate Quiet(s: seq<byte>) {
    NoTwoDashes(s) && (s != [] ==> s[|s| - 1] != DASH)
  }

  ghost predicate Written(c: CertText) {
    && Row(c.d1) && Row(c.d2) && Row(c.d3) && Row(c.d4) && Quiet(c.gap)
    && DASH !in c.body && c.body != [] && Filter(c.body) == B.Encode(c.der)
  }

  ghost predicate WellFormed(c: CertText) { Written(c) && c.der != [] }

  /** What follows the last certificate holds no row of dashes. */
  ghost predicate Ending(post: seq<byte>) {
    NoTwoDashes(post) && (post != [] ==> post[0] != DASH)
  }

  /** A row of `d` closing dashes runs on into the dashes that begin what follows, `next`; is the reader
      still able to tell the next block? It counts 64 dashes at most, and "BEGIN " right after the dashes
      makes it give two of them back. */
  predicate GoodJoint(d: nat, gap: seq<byte>, d1: nat) {
    if gap == [] then d + d1 != 65
    else !(BEGIN <= gap) && !(gap[0] == DASH && d < 64 && BEGIN <= gap[1..])
  }

  /** Every joint after a row of `d` dashes is good. */
  predicate GoodJoints(d: nat, cs: seq<CertText>, post: seq<byte>)
    decreases cs
  {
    if cs == [] then !(BEGIN <= post)
    else GoodJoint(d, cs[0].gap, cs[0].d1) && GoodJoints(cs[0].d4, cs[1..], post)
  }

  /** Certificates written out, with anything between them and behind them that holds no row of dashes. */
  ghost predicate Plain(cs: seq<CertText>, post: seq<byte>) {
    (forall i :: 0 <= i < |cs| ==> WellFormed(cs[i])) && Ending(post)
  }

  /** What "END CERTIFICATE" decodes to where it stands in the place of a body. */
  const MISREAD: seq<byte> := [16, 208, 194, 17, 20, 200, 20, 128, 128]

  /** The first dash of a gap lengthens the row before it, unless the row is full. */
  function Absorbed(d: nat, gap: seq<byte>): (x: nat)
    ensures x <= 1 && x <= |gap|
  {
    if gap != [] && gap[0] == DASH && d < 64 then 1 else 0
  }

  /** After a joint of 65 dashes the reader takes the body of the block for its first line and the last line for
      its body; for an end it then needs a gap that looks like one. */
  predicate Misread(c: CertText, rest: seq<CertText>): (r: bool)
    ensures r ==> rest != []
  {
    c.gap == [] && c.body == BEGIN_CERTIFICATE && rest != [] && rest[0].gap[Absorbed(c.d4, rest[0].gap)..] == END_CERTIFICATE
  }

  function Prefixed(der: seq<byte>, rest: Option<seq<seq<byte>>>): Option<seq<seq<byte>>> {
    if rest.Some? then Some([der] + rest.value) else None
  }

  /** What is read after a row of `d` closing dashes. */
  function Reads(d: nat, cs: seq<CertText>, post: seq<byte>): Option<seq<seq<byte>>>
    decreases |cs|
  {
    if cs == [] then if BEGIN <= post then None else Some([])
    else if GoodJoint(d, cs[0].gap, cs[0].d1) then Prefixed(cs[0].der, Reads(cs[0].d4, cs[1..], post))
    else if !Misread(cs[0], cs[1..]) then None
    else Prefixed(MISREAD, Prefixed(cs[1].der, Reads(cs[1].d4, cs[2..], post)))
  }

  // ---------------------------------------------------------------- rows of dashes

  lemma {:induction false} RunAt(t: seq<byte>, p: nat, n: nat, max: nat)
    requires At(t, p, Dashes(n)) && (n < max && p + n < |t| ==> t[p + n] != DASH)
    ensures RunOf(t, p, DASH, max) == Min(n, max)
    decreases n
  {
    if n > 0 && max > 0 {
      AtIndex(t, p, Dashes(n), 0);
      assert Dashes(n) == Dashes(1) + Dashes(n - 1);
      AtBoth(t, p, Dashes(1), Dashes(n - 1));
      RunAt(t, p + 1, n - 1, max - 1);
    }
  }

  lemma DelimiterAt(t: seq<byte>, p: nat, s: nat, n: nat)
    requires p <= s && Row(n) && At(t, s, Dashes(n)) && (s + n < |t| ==> t[s + n] != DASH)
    requires NoneBefore(t, p, s, DELIMITER)
    ensures Delimiter(t, p) == Some(s + n)
  {
    hide RunOf, ReadUntil;
    assert Dashes(n) == DELIMITER + Dashes(n - 2);
    AtBoth(t, s, DELIMITER, Dashes(n - 2));
    ReadUntilFinds(t, p, DELIMITER, s);
    RunAt(t, s, n, MAX_DASHES);
  }

  /** Text without two dashes in a row holds no delimiter; nor does its border with a row of dashes. */
  lemma QuietHides(t: seq<byte>, p: nat, gap: seq<byte>)
    requires At(t, p, gap) && Quiet(gap)
    ensures NoneBefore(t, p, p + |gap|, DELIMITER)
  {
    forall i | p <= i < p + |gap|
      ensures !At(t, i, DELIMITER)
    {
      AtIndex(t, i, DELIMITER, 0);
      AtIndex(t, i, DELIMITER, 1);
      AtIndex(t, p, gap, i - p);
      if i + 1 < p + |gap| { AtIndex(t, p, gap, i + 1 - p); }
    }
  }

  lemma KeywordFacts()
    ensures DASH !in BEGIN && DASH !in CERTIFICATE && DASH !in BEGIN_CERTIFICATE && DASH !in END_CERTIFICATE
    ensures |BEGIN| == 6 && |BEGIN_CERTIFICATE| == 17 && |END_CERTIFICATE| == 15 && BEGIN != END
    ensures BEGIN <= BEGIN_CERTIFICATE && !IsSpace(DASH)
  {
    assert |BEGIN| != |END|;
  }

  lemma WordFacts(word: seq<byte>)
    requires DASH !in word
    ensures DASH !in BEGIN && DASH !in BEGIN + word && DASH !in END + word
    ensures |BEGIN| == 6 && |BEGIN + word| == 6 + |word| && |END + word| == 4 + |word| && BEGIN != END
    ensures BEGIN <= BEGIN + word && (BEGIN + word)[0] == 'B' as int && (END + word)[0] == 'E' as int
    ensures !IsSpace(DASH) && !IsSpace('B' as int) && !IsSpace('E' as int)
  {
    assert |BEGIN| != |END|;
  }

  /** A word without dashes stands where some text stands only if that text begins with it, provided the
      text is followed by a dash or by nothing. */
  lemma OnlyAsPrefix(t: seq<byte>, p: nat, x: seq<byte>, w: seq<byte>)
    requires At(t, p, x) && DASH !in w && (p + |x| < |t| ==> t[p + |x|] == DASH)
    ensures At(t, p, w) ==> w <= x
  {
    if |x| < |w| {
      AtIndex(t, p, w, |x|);
    } else {
      assert At(t, p, w) ==> forall i :: 0 <= i < |w| ==> w[i] == t[p..p + |w|][i] == t[p..p + |x|][i];
    }
  }

  // ---------------------------------------------------------------- one block

  /** Where the parts of a block stand. */
  lemma BlockParts(t: seq<byte>, s: nat, word: seq<byte>, c: CertText)
    requires At(t, s, Labelled(word, c))
    ensures At(t, s, Dashes(c.d1)) && At(t, s + c.d1, BEGIN) && At(t, s + c.d1, BEGIN + word)
    ensures var u := s + c.d1 + |BEGIN + word|;
            && At(t, u, Dashes(c.d2)) && At(t, u + c.d2, c.body)
            && At(t, u + c.d2 + |c.body|, Dashes(c.d3)) && At(t, u + c.d2 + |c.body| + c.d3, END + word)
  {
    hide At;
    var u := s + c.d1 + |BEGIN + word|;
    var x1 := Dashes(c.d3) + (END + word);
    var x2 := c.body + x1;
    var x3 := Dashes(c.d2) + x2;
    AtBoth(t, s, Dashes(c.d1), BEGIN + word + x3);
    AtBoth(t, s + c.d1, BEGIN + word, x3);
    AtBoth(t, s + c.d1, BEGIN, word);
    AtBoth(t, u, Dashes(c.d2), x2);
    AtBoth(t, u + c.d2, c.body, x1);
    AtBoth(t, u + c.d2 + |c.body|, Dashes(c.d3), END + word);
  }

  lemma {:induction false} FilterSpaces(s: seq<byte>)
    requires forall i :: 0 <= i < |s| ==> IsSpace(s[i])
    ensures Filter(s) == []
  {
    if s != [] { FilterSpaces(s[1..]); }
  }

  /** A body followed by a dash is read whole, wherever in its leading whitespace reading starts. */
  lemma ContentsAt(t: seq<byte>, b: nat, c: CertText)
    requires Written(c) && At(t, b, c.body) && b + |c.body| < |t| && t[b + |c.body|] == DASH
    ensures Contents(t, SkipSpace(t, b)) == Some((c.der, b + |c.body|))
  {
    hide SkipSpace, FindChar, ChunkDecode, Filter, B.Encode;
    var p, q := SkipSpace(t, b), b + |c.body|;
    assert !IsSpace(DASH);
    assert p <= q;
    assert forall i :: b <= i < q ==> t[i] == t[b..q][i - b];
    assert FindChar(t, p, DASH) == q;
    assert t[b..q] == t[b..p] + t[p..q];
    FilterConcat(t[b..p], t[p..q]);
    FilterSpaces(t[b..p]);
    assert Filter(t[p..q]) == [] + Filter(t[p..q]) == B.Encode(c.der);
    ChunkDecodeEncode(c.der);
  }

  /** A line that opens with a row of dashes found from `p` on. */
  lemma LineAt(t: seq<byte>, p: nat, s: nat, n: nat, marker: seq<byte>, word: seq<byte>, m: nat)
    requires p <= s && Row(n) && At(t, s, Dashes(n)) && NoneBefore(t, p, s, DELIMITER)
    requires marker + word != [] && DASH !in marker + word && At(t, s + n, marker + word)
    requires Row(m) && At(t, s + n + |marker| + |word|, Dashes(m))
    ensures var c := s + n + |marker| + |word|;
            RunOf(t, c, DASH, MAX_DASHES) >= MIN_DASHES && Delimiter(t, p).Some?
            && EncapsulationLine(t, p, marker, word) == Some(LineEnd(t, c, marker))
  {
    hide RunOf, Delimiter, LineEnd;
    AtIndex(t, s + n, marker + word, 0);
    DelimiterAt(t, p, s, n);
    RunAtLeast(t, s + n + |marker| + |word|, m);
  }

  lemma {:induction false} RunAtLeast(t: seq<byte>, p: nat, n: nat)
    requires At(t, p, Dashes(n)) && n <= MAX_DASHES
    ensures RunOf(t, p, DASH, MAX_DASHES) >= n
  {
    DashAt(t, p, n, RunOf(t, p, DASH, MAX_DASHES));
  }

  lemma DashAt(t: seq<byte>, p: nat, n: nat, i: nat)
    requires At(t, p, Dashes(n))
    ensures i < n ==> p + i < |t| && t[p + i] == DASH
  {
    if i < n { AtIndex(t, p, Dashes(n), i); }
  }

  /** A block whose opening dashes are the first found from `p` on: `n` of them are left in front of its
      keyword at `k`. */
  lemma BlockAt(t: seq<byte>, p: nat, s: nat, n: nat, k: nat, e: nat, word: seq<byte>, c: CertText)
    requires DASH !in word && p <= s <= |t| && k == s + n && k >= c.d1 && e == k - c.d1 + |Labelled(word, c)| <= |t|
    requires Written(c) && Row(n) && At(t, s, Dashes(n)) && NoneBefore(t, p, s, DELIMITER)
    requires At(t, k - c.d1, Labelled(word, c)) && At(t, e, Dashes(c.d4))
    ensures RunOf(t, e, DASH, MAX_DASHES) >= MIN_DASHES && Delimiter(t, p).Some?
            && Block(t, p, word) == Some((c.der, LineEnd(t, e, END)))
  {
    hide RunOf, Contents, LineEnd, SkipSpace, At, Delimiter, Written, Fill, EncapsulationLine, Block, Labelled, NoneBefore;
    WordFacts(word);
    RowsOf(c);
    BlockParts(t, k - c.d1, word, c);
    var u := k + |BEGIN + word|;
    var b, q := u + c.d2, u + c.d2 + |c.body|;
    LineAt(t, p, s, n, BEGIN, word, c.d2);
    FirstLineEnd(t, u, c);
    ContentsAfter(t, b, c);
    LabelledSize(word, c);
    NoneInNothing(t, q);
    LineAt(t, q, q, c.d3, END, word, c.d4);
    BlockFrom(t, p, word, SkipSpace(t, b), c.der, q);
  }

  lemma BlockFrom(t: seq<byte>, p: nat, word: seq<byte>, a: nat, d: seq<byte>, q: nat)
    requires p <= |t| && a <= |t| && q <= |t|
    requires EncapsulationLine(t, p, BEGIN, word) == Some(a) && Contents(t, a) == Some((d, q))
    requires EncapsulationLine(t, q, END, word).Some?
    ensures Block(t, p, word) == Some((d, EncapsulationLine(t, q, END, word).value))
  {
    hide EncapsulationLine, Contents;
  }

  lemma RowsOf(c: CertText)
    requires Written(c)
    ensures Row(c.d1) && Row(c.d2) && Row(c.d3) && Row(c.d4)
  {
  }

  lemma FirstLineEnd(t: seq<byte>, u: nat, c: CertText)
    requires Written(c) && At(t, u, Dashes(c.d2)) && At(t, u + c.d2, c.body)
    ensures RunOf(t, u, DASH, MAX_DASHES) >= MIN_DASHES && LineEnd(t, u, BEGIN) == SkipSpace(t, u + c.d2)
  {
    AtIndex(t, u + c.d2, c.body, 0);
    RunAt(t, u, c.d2, MAX_DASHES);
    KeywordFacts();
  }

  lemma ContentsAfter(t: seq<byte>, b: nat, c: CertText)
    requires Written(c) && At(t, b, c.body) && At(t, b + |c.body|, Dashes(c.d3))
    ensures Contents(t, SkipSpace(t, b)) == Some((c.der, b + |c.body|))
  {
    AtIndex(t, b + |c.body|, Dashes(c.d3), 0);
    ContentsAt(t, b, c);
  }

  // ---------------------------------------------------------------- joints

  /** Where an END line with `n` closing dashes ends. */
  lemma EndLineStops(t: seq<byte>, e: nat, n: nat)
    requires e <= |t| && RunOf(t, e, DASH, MAX_DASHES) == n >= MIN_DASHES
    ensures At(t, e + n, BEGIN) ==> LineEnd(t, e, END) == e + n - 2
    ensures !At(t, e + n, BEGIN) ==> LineEnd(t, e, END) == SkipSpace(t, e + n)
    ensures e + n < |t| && t[e + n] == DASH ==> LineEnd(t, e, END) == e + n
  {
    AtIndex(t, e + n, BEGIN, 0);
  }

  /** Rows of dashes can be joined and divided. */
  lemma RowsJoin(t: seq<byte>, p: nat, m: nat, n: nat)
    ensures At(t, p, Dashes(m + n)) <==> At(t, p, Dashes(m)) && At(t, p + m, Dashes(n))
  {
    assert Dashes(m + n) == Dashes(m) + Dashes(n);
    AtBoth(t, p, Dashes(m), Dashes(n));
  }

  /** Two rows that run into each other: the reader gives back the last two dashes, or what exceeds its
      count. */
  lemma JoinedRows(t: seq<byte>, e: nat, d: nat, d1: nat) returns (s: nat)
    requires Row(d) && Row(d1) && d + d1 != 65
    requires At(t, e, Dashes(d)) && At(t, e + d, Dashes(d1)) && At(t, e + d + d1, BEGIN)
    ensures RunOf(t, e, DASH, MAX_DASHES) >= MIN_DASHES
    ensures var k := e + d + d1;
            LineEnd(t, e, END) == s && s <= k && Row(k - s) && At(t, s, Dashes(k - s))
  {
    hide RunOf, SkipSpace, LineEnd, At, Fill;
    KeywordFacts();
    var n := d + d1;
    RowsJoin(t, e, d, d1);
    AtIndex(t, e + n, BEGIN, 0);
    RunAt(t, e, n, MAX_DASHES);
    EndLineStops(t, e, Min(n, MAX_DASHES));
    if n <= MAX_DASHES {
      s := e + n - 2;
    } else {
      s := e + MAX_DASHES;
      IsDash(t, e, n, MAX_DASHES);
    }
    RowsJoin(t, e, s - e, n - (s - e));
  }

  lemma IsDash(t: seq<byte>, p: nat, n: nat, i: nat)
    requires At(t, p, Dashes(n)) && i < n
    ensures p + i < |t| && t[p + i] == DASH
  {
    AtIndex(t, p, Dashes(n), i);
  }

  /** How many dashes the reader counts before a gap, and what it then finds. */
  lemma RowBeforeGap(t: seq<byte>, e: nat, d: nat, gap: seq<byte>)
    requires Row(d) && NoTwoDashes(gap) && At(t, e, Dashes(d)) && At(t, e + d, gap)
    requires if e + d + |gap| < |t| then t[e + d + |gap|] == DASH && gap != [] && gap[|gap| - 1] != DASH else gap == [] || gap[0] != DASH
    ensures var x := Absorbed(d, gap);
            && RunOf(t, e, DASH, MAX_DASHES) == d + x
            && (At(t, e + d + x, BEGIN) <==> BEGIN <= gap[x..])
  {
    hide RunOf, At, Row, NoTwoDashes;
    KeywordFacts();
    var x := Absorbed(d, gap);
    var rest := gap[x..];
    SplitGap(t, e, d, gap);
    if rest != [] { AtIndex(t, e + d + x, rest, 0); }
    AtFits(t, e + d + x, rest);
    AfterDash(d, gap);
    RunAt(t, e, d + x, MAX_DASHES);
    OnlyAsPrefix(t, e + d + x, rest, BEGIN);
    if BEGIN <= rest {
      assert rest == BEGIN + rest[|BEGIN|..];
      AtBoth(t, e + d + x, BEGIN, rest[|BEGIN|..]);
    }
  }

  /** A word found there is the gap's own. */
  lemma WordInGap(t: seq<byte>, e: nat, d: nat, gap: seq<byte>, w: seq<byte>)
    requires DASH !in w && At(t, e, Dashes(d)) && At(t, e + d, gap)
    requires e + d + |gap| < |t| ==> t[e + d + |gap|] == DASH
    ensures var x := Absorbed(d, gap); At(t, e + d + x, w) ==> w <= gap[x..]
  {
    hide At;
    SplitGap(t, e, d, gap);
    OnlyAsPrefix(t, e + d + Absorbed(d, gap), gap[Absorbed(d, gap)..], w);
  }

  lemma SplitGap(t: seq<byte>, e: nat, d: nat, gap: seq<byte>)
    requires At(t, e, Dashes(d)) && At(t, e + d, gap)
    ensures var x := Absorbed(d, gap); At(t, e, Dashes(d + x)) && At(t, e + d + x, gap[x..])
  {
    hide At;
    var x := Absorbed(d, gap);
    assert gap == gap[..x] + gap[x..] && gap[..x] == Dashes(x);
    AtBoth(t, e + d, gap[..x], gap[x..]);
    RowsJoin(t, e, d, x);
  }

  /** The reader stops counting after an absorbed dash. */
  lemma AfterDash(d: nat, gap: seq<byte>)
    requires Row(d) && NoTwoDashes(gap)
    ensures var x := Absorbed(d, gap);
            d + x <= MAX_DASHES && (d + x < MAX_DASHES && x < |gap| ==> gap[x] != DASH)
  {
  }

  lemma AtFits(t: seq<byte>, p: nat, w: seq<byte>)
    ensures At(t, p, w) ==> p + |w| <= |t|
  {
  }

  lemma GapJoint(t: seq<byte>, e: nat, d: nat, gap: seq<byte>)
    requires Row(d) && gap != [] && Quiet(gap) && GoodJoint(d, gap, 0)
    requires At(t, e, Dashes(d)) && At(t, e + d, gap) && e + d + |gap| < |t| && t[e + d + |gap|] == DASH
    ensures RunOf(t, e, DASH, MAX_DASHES) >= MIN_DASHES
    ensures LineEnd(t, e, END) <= e + d + |gap| && NoneBefore(t, LineEnd(t, e, END), e + d + |gap|, DELIMITER)
  {
    hide RunOf, SkipSpace, LineEnd, At;
    var x := Absorbed(d, gap);
    QuietHides(t, e + d, gap);
    RowBeforeGap(t, e, d, gap);
    EndLineStops(t, e, d + x);
    assert !IsSpace(DASH);
    assert x == 0 ==> gap[0..] == gap;
  }

  /** After a good joint the next block's dashes are the first to be found: those from `s` up to the
      keyword at `k`. */
  lemma GoodJointLeadsOn(t: seq<byte>, e: nat, d: nat, gap: seq<byte>, d1: nat) returns (s: nat)
    requires Row(d) && Row(d1) && Quiet(gap) && GoodJoint(d, gap, d1)
    requires At(t, e, Dashes(d)) && At(t, e + d, gap) && At(t, e + d + |gap|, Dashes(d1))
    requires At(t, e + d + |gap| + d1, BEGIN)
    ensures RunOf(t, e, DASH, MAX_DASHES) >= MIN_DASHES
    ensures var p, k := LineEnd(t, e, END), e + d + |gap| + d1;
            p <= s <= k && Row(k - s) && At(t, s, Dashes(k - s)) && NoneBefore(t, p, s, DELIMITER)
  {
    hide RunOf, LineEnd, At, Fill;
    if gap == [] {
      s := JoinedRows(t, e, d, d1);
    } else {
      s := e + d + |gap|;
      IsDash(t, s, d1, 0);
      GapJoint(t, e, d, gap);
    }
  }

  /** Dashes at the very start are the ones found. */
  lemma DelimiterHere(t: seq<byte>, q: nat)
    requires q <= |t| && RunOf(t, q, DASH, MAX_DASHES) >= MIN_DASHES
    ensures Delimiter(t, q) == Some(q + RunOf(t, q, DASH, MAX_DASHES))
  {
    hide ReadUntil, RunOf;
    TwoDashes(t, q);
    ReadUntilFinds(t, q, DELIMITER, q);
  }

  /** Behind a word inside a gap there are no two dashes. */
  lemma NoRowInGap(t: seq<byte>, g: nat, gap: seq<byte>, i: nat)
    requires NoTwoDashes(gap) && At(t, g, gap) && i <= |gap|
    requires g + |gap| == |t| || (i < |gap| && gap[|gap| - 1] != DASH)
    ensures RunOf(t, g + i, DASH, MAX_DASHES) < MIN_DASHES
  {
    hide RunOf;
    var k := g + i;
    if k + 2 <= |t| {
      TwoDashes(t, k);
      AtIndex(t, g, gap, i);
      if i + 1 < |gap| { AtIndex(t, g, gap, i + 1); }
    }
  }

  /** The body of a block is not the rest of an END line: its characters are whole groups, and those of
      the keyword are not. */
  lemma BodyIsNoEnd(t: seq<byte>, q: nat, word: seq<byte>, c: CertText)
    requires Written(c) && At(t, q, Dashes(c.d2)) && At(t, q + c.d2, c.body) && At(t, q + c.d2 + |c.body|, Dashes(c.d3))
    requires DASH !in word && |Filter(END + word)| % 4 != 0
    ensures EncapsulationLine(t, q, END, word) == None
  {
    hide RunOf, At, Fill, Delimiter, Filter;
    WordFacts(word);
    AtIndex(t, q + c.d2, c.body, 0);
    RunAt(t, q, c.d2, MAX_DASHES);
    DelimiterHere(t, q);
    IsDash(t, q + c.d2 + |c.body|, c.d3, 0);
    OnlyAsPrefix(t, q + c.d2, c.body, END + word);
    BodySize(c);
    if END + word <= c.body {
      assert c.body != END + word;
      AtIndex(t, q + c.d2, c.body, |END + word|);
      NoRow(t, q + c.d2 + |END + word|);
    }
  }

  lemma NoRow(t: seq<byte>, k: nat)
    requires k < |t| && t[k] != DASH
    ensures RunOf(t, k, DASH, MAX_DASHES) == 0
  {
  }

  lemma BodySize(c: CertText)
    requires Written(c)
    ensures |Filter(c.body)| % 4 == 0
  {
  }

  lemma LettersStay(w: string)
    requires forall i :: 0 <= i < |w| ==> 'A' <= w[i] <= 'Z'
    ensures Filter(Ascii(w)) == Ascii(w)
  {
    FilterKeeps(Ascii(w));
  }

  /** Of a marker and the keyword all characters but the space count. */
  lemma KeywordFilter(marker: string)
    requires |marker| <= 5 && forall i :: 0 <= i < |marker| ==> 'A' <= marker[i] <= 'Z'
    ensures Filter(Ascii(marker + " ") + CERTIFICATE) == Ascii(marker) + CERTIFICATE
  {
    hide Filter;
    LettersStay(marker);
    LettersStay("CERTIFICATE");
    FilterSpaces(Ascii(" "));
    assert Ascii(marker + " ") == Ascii(marker) + Ascii(" ");
    FilterConcat(Ascii(marker), Ascii(" "));
    FilterConcat(Ascii(marker + " "), CERTIFICATE);
    assert Ascii(marker) + [] == Ascii(marker);
  }

  lemma EndSize()
    ensures Filter(END_CERTIFICATE) == Ascii("END") + CERTIFICATE
  {
    hide Filter;
    KeywordFilter("END");
    assert "END" + " " == "END ";
  }

  /** The reader went back two dashes for a "BEGIN " that opens no line. */
  lemma TwoDashesBack(t: seq<byte>, e: nat, n: nat, word: seq<byte>)
    requires e <= |t| && RunOf(t, e, DASH, MAX_DASHES) == n >= MIN_DASHES && At(t, e + n, BEGIN)
    requires At(t, e + n, BEGIN + word) ==> RunOf(t, e + n + |BEGIN + word|, DASH, MAX_DASHES) < MIN_DASHES
    ensures Refused(t, LineEnd(t, e, END), word)
  {
    hide RunOf, LineEnd;
    EndLineStops(t, e, n);
    var p := e + n - 2;
    AtIndex(t, e + n, BEGIN, 0);
    assert At(t, p, Dashes(2)) by { assert t[p..p + 2] == Dashes(2); }
    DelimiterAt(t, p, p, 2);
  }

  /** Dashes are found, but no block. */
  predicate Refused(t: seq<byte>, p: nat, word: seq<byte>)
    requires p <= |t|
  {
    Delimiter(t, p).Some? && Block(t, p, word) == None
  }

  lemma NoCertificates(t: seq<byte>, p: nat)
    requires p <= |t| && Refused(t, p, CERTIFICATE)
    ensures Certificates(t, p) == None
  {
  }

  /** A gap that is just the keyword lends itself to the next block's dashes as a first line; the block's own
      first line is then the body, and no end follows. */
  lemma KeywordGap(t: seq<byte>, p: nat, word: seq<byte>, c: CertText)
    requires Written(c) && At(t, p, DELIMITER) && At(t, p + 2, BEGIN + word)
    requires At(t, p + 2 + |BEGIN + word|, Labelled(word, c))
    requires DASH !in word && |Filter(END + word)| % 4 != 0
    ensures p <= |t| && Refused(t, p, word)
  {
    hide RunOf, At, Fill, Delimiter, Written, Labelled, EncapsulationLine, LineEnd, Filter;
    WordFacts(word);
    RowsOf(c);
    AtFits(t, p, DELIMITER);
    var k := p + 2 + |BEGIN + word|;
    BlockParts(t, k, word, c);
    var q := k + c.d1 + |BEGIN + word|;
    IsDash(t, q, c.d2, 0);
    assert DELIMITER == Dashes(2);
    NoneInNothing(t, p);
    LineAt(t, p, p, 2, BEGIN, word, c.d1);
    RowThenKeyword(t, k, c.d1, BEGIN + word);
    DashAfterKeyword(t, k + c.d1, BEGIN + word);
    BodyIsNoEnd(t, q, word, c);
  }

  /** A row of dashes that is followed by a keyword ends a first line right there. */
  lemma RowThenKeyword(t: seq<byte>, k: nat, n: nat, w: seq<byte>)
    requires Row(n) && At(t, k, Dashes(n)) && At(t, k + n, w)
    requires w != [] && w[0] != DASH && !IsSpace(w[0])
    ensures RunOf(t, k, DASH, MAX_DASHES) == n && LineEnd(t, k, BEGIN) == k + n
  {
    hide RunOf, At, Fill;
    KeywordFacts();
    AtIndex(t, k + n, w, 0);
    RunAt(t, k, n, MAX_DASHES);
  }

  lemma DashAfterKeyword(t: seq<byte>, b: nat, w: seq<byte>)
    requires DASH !in w && At(t, b, w) && b + |w| < |t| && t[b + |w|] == DASH
    ensures FindChar(t, b, DASH) == b + |w|
  {
    hide FindChar;
    assert forall i :: b <= i < b + |w| ==> t[i] == t[b..b + |w|][i - b];
  }

  /** A separator that begins with "BEGIN " right behind the dashes is refused. */
  lemma BadGapRefused(t: seq<byte>, e: nat, d: nat, word: seq<byte>, c: CertText)
    requires Row(d) && Written(c) && c.gap != [] && !GoodJoint(d, c.gap, c.d1)
    requires At(t, e, Dashes(d)) && At(t, e + d, c.gap) && At(t, e + d + |c.gap|, Labelled(word, c))
    requires DASH !in word && |Filter(END + word)| % 4 != 0
    ensures RunOf(t, e, DASH, MAX_DASHES) >= MIN_DASHES
    ensures Refused(t, LineEnd(t, e, END), word)
  {
    hide RunOf, LineEnd, At, Fill, Refused, Labelled, Absorbed, GoodJoint, Written, Filter;
    var x := Absorbed(d, c.gap);
    WordFacts(word);
    RowsOf(c);
    QuietGap(c);
    BlockParts(t, e + d + |c.gap|, word, c);
    IsDash(t, e + d + |c.gap|, c.d1, 0);
    RowBeforeGap(t, e, d, c.gap);
    BadGapBegins(d, c.gap, c.d1);
    if c.gap[x..] == BEGIN + word {
      SplitGap(t, e, d, c.gap);
      EndLineStops(t, e, d + x);
      LastTwo(t, e, d + x);
      KeywordGap(t, e + d + x - 2, word, c);
    } else {
      WordInGap(t, e, d, c.gap, BEGIN + word);
      NoWordInGap(t, e, d, c.gap, BEGIN + word);
      TwoDashesBack(t, e, d + x, word);
    }
  }

  lemma BadGapStops(t: seq<byte>, e: nat, d: nat, c: CertText)
    requires Row(d) && Written(c) && c.gap != [] && !GoodJoint(d, c.gap, c.d1)
    requires At(t, e, Dashes(d)) && At(t, e + d, c.gap) && At(t, e + d + |c.gap|, BlockText(c))
    ensures RunOf(t, e, DASH, MAX_DASHES) >= MIN_DASHES
    ensures Certificates(t, LineEnd(t, e, END)) == None
  {
    hide RunOf, LineEnd, At, Fill, Refused, Labelled, GoodJoint, Written, Filter, Certificates;
    KeywordFacts();
    EndSize();
    BadGapRefused(t, e, d, CERTIFICATE, c);
    NoCertificates(t, LineEnd(t, e, END));
  }

  lemma BadGapBegins(d: nat, gap: seq<byte>, d1: nat)
    requires gap != [] && !GoodJoint(d, gap, d1)
    ensures BEGIN <= gap[Absorbed(d, gap)..]
  {
    KeywordFacts();
    assert gap[0..] == gap;
  }

  lemma NoWordInGap(t: seq<byte>, q: nat, d: nat, gap: seq<byte>, w: seq<byte>)
    requires Quiet(gap) && gap != [] && At(t, q + d, gap)
    ensures var x := Absorbed(d, gap);
            w <= gap[x..] && gap[x..] != w ==> RunOf(t, q + d + x + |w|, DASH, MAX_DASHES) < MIN_DASHES
  {
    hide RunOf, At;
    var x := Absorbed(d, gap);
    if w <= gap[x..] && gap[x..] != w {
      NoRowInGap(t, q + d, gap, x + |w|);
    }
  }

  lemma LastTwo(t: seq<byte>, e: nat, n: nat)
    requires e <= |t| && RunOf(t, e, DASH, MAX_DASHES) == n >= MIN_DASHES
    ensures At(t, e + n - 2, DELIMITER)
  {
    hide RunOf;
    TwoDashes(t, e + n - 2);
  }

  /** Of 65 dashes the reader takes 64, and the one left is no row: the next row is past the keyword, and the
      body would have to be a first line. */
  lemma OneDashLeft(t: seq<byte>, e: nat, d: nat, word: seq<byte>, c: CertText)
    requires Row(d) && Written(c) && d + c.d1 == 65 && DASH !in word
    requires At(t, e, Dashes(d)) && At(t, e + d, Labelled(word, c))
    ensures RunOf(t, e, DASH, MAX_DASHES) >= MIN_DASHES && LineEnd(t, e, END) == e + MAX_DASHES
    ensures var p := e + MAX_DASHES;
            NoneBefore(t, p, p + 1 + |BEGIN + word|, DELIMITER) && (c.body != BEGIN + word ==> Refused(t, p, word))
  {
    hide RunOf, LineEnd, At, Fill, Delimiter, Labelled, Refused, NoneBefore;
    WordFacts(word);
    BlockParts(t, e + d, word, c);
    AtIndex(t, e + d + c.d1, BEGIN + word, 0);
    RowsJoin(t, e, d, c.d1);
    RunAt(t, e, d + c.d1, MAX_DASHES);
    EndLineStops(t, e, MAX_DASHES);
    IsDash(t, e, d + c.d1, MAX_DASHES);
    NoneInKeyword(t, e + MAX_DASHES, BEGIN + word);
    if c.body != BEGIN + word { BodyIsNoBegin(t, e + MAX_DASHES, word, c); }
  }

  lemma BodyIsNoBegin(t: seq<byte>, p: nat, word: seq<byte>, c: CertText)
    requires Written(c) && c.body != BEGIN + word && NoneBefore(t, p, p + 1 + |BEGIN + word|, DELIMITER) && DASH !in word
    requires var u := p + 1 + |BEGIN + word|;
             At(t, u, Dashes(c.d2)) && At(t, u + c.d2, c.body) && At(t, u + c.d2 + |c.body|, Dashes(c.d3))
    ensures p <= |t| && Refused(t, p, word)
  {
    hide RunOf, At, Fill, Delimiter, Filter;
    WordFacts(word);
    var u := p + 1 + |BEGIN + word|;
    AtIndex(t, u + c.d2, c.body, 0);
    DelimiterAt(t, p, u, c.d2);
    IsDash(t, u + c.d2 + |c.body|, c.d3, 0);
    OnlyAsPrefix(t, u + c.d2, c.body, BEGIN + word);
    if BEGIN + word <= c.body {
      AtIndex(t, u + c.d2, c.body, |BEGIN + word|);
      NoRow(t, u + c.d2 + |BEGIN + word|);
    }
  }

  lemma MisreadGroups()
    ensures B.EncodeGroup(16, 208, 194) == [69, 78, 68, 67]
    ensures B.EncodeGroup(17, 20, 200) == [69, 82, 84, 73]
    ensures B.EncodeGroup(20, 128, 128) == [70, 73, 67, 65]
  {
  }

  lemma MisreadEncodes()
    ensures B.Encode(MISREAD) == [69, 78, 68, 67, 69, 82, 84, 73, 70, 73, 67, 65]
  {
    MisreadGroups();
    hide B.EncodeGroup, B.IsBase64Char;
    var x, y := MISREAD[3..], MISREAD[3..][3..];
    assert x == [17, 20, 200, 20, 128, 128] && y == [20, 128, 128] && y[3..] == [];
    assert B.Encode(y) == [70, 73, 67, 65] + B.Encode([]);
    assert B.Encode(x) == [69, 82, 84, 73] + B.Encode(y);
    assert B.Encode(MISREAD) == [69, 78, 68, 67] + B.Encode(x);
  }

  lemma MisreadDecodes()
    ensures ChunkDecode(Filter(END_CERTIFICATE)) == Some(MISREAD)
  {
    EndSize();
    MisreadEncodes();
    B.DecodeEncode(MISREAD);
    hide B.Encode, B.DecodeGroups, Filter;
    var s := Ascii("END") + CERTIFICATE;
    assert s[..12] == [69, 78, 68, 67, 69, 82, 84, 73, 70, 73, 67, 65];
  }

  /** A body that is just the keyword is taken for a first line, and the last line for a body. */
  lemma MisreadBody(t: seq<byte>, p: nat, c: CertText)
    requires WellFormed(c) && c.body == BEGIN_CERTIFICATE && NoneBefore(t, p, p + 1 + |BEGIN_CERTIFICATE|, DELIMITER)
    requires var u := p + 1 + |BEGIN_CERTIFICATE|;
             && At(t, u, Dashes(c.d2)) && At(t, u + c.d2, c.body) && At(t, u + c.d2 + |c.body|, Dashes(c.d3))
             && At(t, u + c.d2 + |c.body| + c.d3, END_CERTIFICATE)
             && At(t, u + c.d2 + |c.body| + c.d3 + |END_CERTIFICATE|, Dashes(c.d4))
    ensures var q := p + 1 + |BEGIN_CERTIFICATE| + c.d2 + |c.body| + c.d3 + |END_CERTIFICATE|;
            Certificates(t, p) == match EncapsulationLine(t, q, END, CERTIFICATE)
                                  case None => None
                                  case Some(r) => Prefixed(MISREAD, Certificates(t, r))
  {
    hide RunOf, At, Fill, Delimiter, Written, EncapsulationLine, LineEnd;
    KeywordFacts();
    RowsOf(c);
    var u := p + 1 + |BEGIN_CERTIFICATE|;
    var k := u + c.d2 + |BEGIN_CERTIFICATE|;
    var b := k + c.d3;
    LineAt(t, p, u, c.d2, BEGIN, CERTIFICATE, c.d3);
    RowThenKeyword(t, k, c.d3, END_CERTIFICATE);
    IsDash(t, b + |END_CERTIFICATE|, c.d4, 0);
    MisreadContents(t, b);
  }

  lemma MisreadContents(t: seq<byte>, b: nat)
    requires At(t, b, END_CERTIFICATE) && b + |END_CERTIFICATE| < |t| && t[b + |END_CERTIFICATE|] == DASH
    ensures Contents(t, b) == Some((MISREAD, b + |END_CERTIFICATE|))
  {
    hide FindChar, ChunkDecode, Filter;
    KeywordFacts();
    MisreadDecodes();
    var q := b + |END_CERTIFICATE|;
    assert forall i :: b <= i < q ==> t[i] == t[b..q][i - b];
    assert FindChar(t, b, DASH) == q;
  }

  /** Whether an END line follows a row of closing dashes: never when the text ends. */
  lemma NoEndInEnding(t: seq<byte>, q: nat, d: nat, post: seq<byte>)
    requires Row(d) && Ending(post) && At(t, q, Dashes(d)) && At(t, q + d, post) && q + d + |post| == |t|
    ensures EncapsulationLine(t, q, END, CERTIFICATE) == None
  {
    hide RunOf, At, Delimiter, LineEnd;
    RowBeforeGap(t, q, d, post);
    assert post[0..] == post;
    DelimiterHere(t, q);
    KeywordFacts();
    WordInGap(t, q, d, post, END_CERTIFICATE);
    if At(t, q + d, END_CERTIFICATE) { NoRowInGap(t, q + d, post, |END_CERTIFICATE|); }
  }

  /** Never when the next block follows directly. */
  lemma NoEndInJoint(t: seq<byte>, q: nat, d: nat, d1: nat)
    requires Row(d) && Row(d1) && At(t, q, Dashes(d)) && At(t, q + d, Dashes(d1)) && At(t, q + d + d1, BEGIN_CERTIFICATE)
    ensures EncapsulationLine(t, q, END, CERTIFICATE) == None
  {
    hide RunOf, At, Fill, Delimiter, LineEnd;
    KeywordFacts();
    var n := Min(d + d1, MAX_DASHES);
    RowsJoin(t, q, d, d1);
    AtIndex(t, q + d + d1, BEGIN_CERTIFICATE, 0);
    RunAt(t, q, d + d1, MAX_DASHES);
    DelimiterHere(t, q);
    if n < d + d1 { IsDash(t, q, d + d1, n); }
    AtIndex(t, q + n, END_CERTIFICATE, 0);
    assert END_CERTIFICATE[0] != BEGIN_CERTIFICATE[0];
  }

  /** And before a gap exactly when the gap is its keyword; the dashes of the next block then close it. */
  lemma EndInGap(t: seq<byte>, q: nat, d: nat, gap: seq<byte>, d1: nat)
    requires Row(d) && Row(d1) && Quiet(gap) && gap != [] && At(t, q, Dashes(d)) && At(t, q + d, gap)
    requires At(t, q + d + |gap|, Dashes(d1)) && At(t, q + d + |gap| + d1, BEGIN_CERTIFICATE)
    ensures EncapsulationLine(t, q, END, CERTIFICATE) ==
              if gap[Absorbed(d, gap)..] == END_CERTIFICATE then Some(q + d + |gap| + d1 - 2) else None
  {
    hide RunOf, At, Fill, Delimiter, LineEnd, EncapsulationLine, Absorbed;
    var x := Absorbed(d, gap);
    IsDash(t, q + d + |gap|, d1, 0);
    RowBeforeGap(t, q, d, gap);
    DelimiterHere(t, q);
    if gap[x..] == END_CERTIFICATE {
      SplitGap(t, q, d, gap);
      RowThenBegin(t, q + d + |gap|, d1);
      EndLineBefore(t, q, d + x, d1);
    } else {
      KeywordFacts();
      WordInGap(t, q, d, gap, END_CERTIFICATE);
      NoWordInGap(t, q, d, gap, END_CERTIFICATE);
      NoEndLine(t, q, d + x);
    }
  }

  lemma NoEndLine(t: seq<byte>, q: nat, n: nat)
    requires q + n <= |t| && Delimiter(t, q) == Some(q + n)
    requires At(t, q + n, END_CERTIFICATE) ==> RunOf(t, q + n + |END_CERTIFICATE|, DASH, MAX_DASHES) < MIN_DASHES
    ensures EncapsulationLine(t, q, END, CERTIFICATE) == None
  {
    hide Delimiter, LineEnd, RunOf;
  }

  lemma EndLineBefore(t: seq<byte>, q: nat, n: nat, d1: nat)
    requires q + n <= |t| && Delimiter(t, q) == Some(q + n) && At(t, q + n, END_CERTIFICATE) && d1 >= MIN_DASHES
    requires var k := q + n + |END_CERTIFICATE|;
             RunOf(t, k, DASH, MAX_DASHES) == d1 && LineEnd(t, k, END) == k + d1 - 2
    ensures EncapsulationLine(t, q, END, CERTIFICATE) == Some(q + n + |END_CERTIFICATE| + d1 - 2)
  {
    hide Delimiter, LineEnd, RunOf;
  }

  lemma RowThenBegin(t: seq<byte>, k: nat, n: nat)
    requires Row(n) && At(t, k, Dashes(n)) && At(t, k + n, BEGIN_CERTIFICATE)
    ensures RunOf(t, k, DASH, MAX_DASHES) == n && LineEnd(t, k, END) == k + n - 2
  {
    hide RunOf, At, Fill, LineEnd;
    KeywordFacts();
    AtIndex(t, k + n, BEGIN_CERTIFICATE, 0);
    AtBoth(t, k + n, BEGIN, CERTIFICATE);
    RunAt(t, k, n, MAX_DASHES);
    EndLineStops(t, k, n);
  }

  lemma NoneInKeyword(t: seq<byte>, p: nat, w: seq<byte>)
    requires p < |t| && w != [] && DASH !in w && At(t, p + 1, w)
    ensures NoneBefore(t, p, p + 1 + |w|, DELIMITER)
  {
    forall i | p <= i < p + 1 + |w|
      ensures !At(t, i, DELIMITER)
    {
      AtIndex(t, i, DELIMITER, 0);
      AtIndex(t, i, DELIMITER, 1);
      AtIndex(t, p + 1, w, if i == p then 0 else i - p - 1);
    }
  }

  // ---------------------------------------------------------------- whole texts

  /** No dashes are found in what follows the last certificate. */
  lemma NoDelimiterInEnding(t: seq<byte>, f: nat, post: seq<byte>)
    requires Ending(post) && At(t, f, post) && f + |post| == |t|
    ensures Delimiter(t, SkipSpace(t, f)) == None
  {
    hide ReadUntil, RunOf, SkipSpace;
    var p := SkipSpace(t, f);
    assert forall i :: f <= i < |t| ==> t[i] == t[f..f + |post|][i - f] == post[i - f];
    assert !IsSpace(DASH);
    if |t| - p >= MIN_DASHES && ReadUntil(t, p, DELIMITER).Some? {
      var c := ReadUntil(t, p, DELIMITER).value;
      ReadUntilMeans(t, p, DELIMITER);
      NoneInEnding(t, p, f, post);
      assert c >= 2 ==> t[c - 2] != DASH || t[c - 1] != DASH;
    }
  }

  lemma NoneInEnding(t: seq<byte>, p: nat, f: nat, post: seq<byte>)
    requires NoTwoDashes(post) && At(t, f, post) && f + |post| == |t| && f <= p
    ensures NoneBefore(t, p, |t|, DELIMITER)
  {
    forall i | p <= i < |t|
      ensures !At(t, i, DELIMITER)
    {
      AtIndex(t, i, DELIMITER, 0);
      AtIndex(t, i, DELIMITER, 1);
      AtIndex(t, f, post, i - f);
      if i + 1 < |t| { AtIndex(t, f, post, i + 1 - f); }
    }
  }

  lemma EndingStops(t: seq<byte>, e: nat, d: nat, post: seq<byte>)
    requires Row(d) && Ending(post)
    requires At(t, e, Dashes(d)) && At(t, e + d, post) && e + d + |post| == |t|
    ensures RunOf(t, e, DASH, MAX_DASHES) >= MIN_DASHES
    ensures Certificates(t, LineEnd(t, e, END)) == if BEGIN <= post then None else Some([])
  {
    hide RunOf, LineEnd, At, Delimiter, SkipSpace, Block;
    RowBeforeGap(t, e, d, post);
    assert post[0..] == post;
    EndLineStops(t, e, d);
    if BEGIN <= post {
      KeywordFacts();
      WordInGap(t, e, d, post, BEGIN_CERTIFICATE);
      if At(t, e + d, BEGIN_CERTIFICATE) { NoRowInGap(t, e + d, post, |BEGIN_CERTIFICATE|); }
      TwoDashesBack(t, e, d, CERTIFICATE);
      NoCertificates(t, LineEnd(t, e, END));
    } else {
      NoDelimiterInEnding(t, e + d, post);
    }
  }

  /** The rest of a text, read on after an END keyword. */
  lemma {:induction false} RestParses(t: seq<byte>, e: nat, d: nat, cs: seq<CertText>, post: seq<byte>)
    requires Row(d) && Plain(cs, post) && At(t, e, Dashes(d)) && At(t, e + d, Render(cs, post))
    requires e + d + |Render(cs, post)| == |t|
    ensures RunOf(t, e, DASH, MAX_DASHES) >= MIN_DASHES
    ensures Certificates(t, LineEnd(t, e, END)) == Reads(d, cs, post)
    decreases |cs|, 1
  {
    hide RunOf, LineEnd, At, Fill, GoodJoint, Written, Quiet, Labelled, Certificates, Misread;
    if cs == [] {
      EndingStops(t, e, d, post);
    } else {
      var c := cs[0];
      RowsOf(c);
      var s0 := e + d + |c.gap|;
      var after := Dashes(c.d4) + Render(cs[1..], post);
      AtBoth(t, e + d, c.gap, BlockText(c) + after);
      AtBoth(t, s0, BlockText(c), after);
      if GoodJoint(d, c.gap, c.d1) {
        BlockOpens(t, s0, c);
        QuietGap(c);
        var s := GoodJointLeadsOn(t, e, d, c.gap, c.d1);
        BlockThenRest(t, LineEnd(t, e, END), s, s0, cs, post);
      } else if c.gap != [] {
        BadGapStops(t, e, d, c);
        NotMisread(c, cs[1..]);
      } else {
        SixtyFiveJoint(t, e, d, cs, post);
      }
    }
  }

  lemma NotMisread(c: CertText, rest: seq<CertText>)
    requires c.gap != [] || c.body != BEGIN_CERTIFICATE
    ensures !Misread(c, rest)
  {
  }

  lemma BadJoint(d: nat, d1: nat)
    ensures GoodJoint(d, [], d1) <==> d + d1 != 65
  {
  }

  /** What comes of a joint of 65 dashes. */
  lemma {:induction false} SixtyFiveJoint(t: seq<byte>, e: nat, d: nat, cs: seq<CertText>, post: seq<byte>)
    requires cs != [] && Row(d) && Plain(cs, post) && WellFormed(cs[0]) && cs[0].gap == [] && !GoodJoint(d, [], cs[0].d1)
    requires At(t, e, Dashes(d)) && At(t, e + d, BlockText(cs[0]) + (Dashes(cs[0].d4) + Render(cs[1..], post)))
    requires e + d + |BlockText(cs[0])| + cs[0].d4 + |Render(cs[1..], post)| == |t|
    ensures RunOf(t, e, DASH, MAX_DASHES) >= MIN_DASHES
    ensures Certificates(t, LineEnd(t, e, END)) == Reads(d, cs, post)
    decreases |cs|, 0
  {
    hide RunOf, LineEnd, At, Fill, GoodJoint, Written, Quiet, Labelled, Certificates, Misread, EncapsulationLine, NoneBefore;
    var c, rest := cs[0], cs[1..];
    var p, q := e + MAX_DASHES, e + d + |BlockText(c)|;
    BadJoint(d, c.d1);
    RowsOf(c);
    AtBoth(t, e + d, BlockText(c), Dashes(c.d4) + Render(rest, post));
    AtBoth(t, q, Dashes(c.d4), Render(rest, post));
    KeywordFacts();
    OneDashLeft(t, e, d, CERTIFICATE, c);
    if c.body != BEGIN_CERTIFICATE {
      NoCertificates(t, p);
      NotMisread(c, rest);
    } else {
      BlockParts(t, e + d, CERTIFICATE, c);
      LabelledSize(CERTIFICATE, c);
      MisreadBody(t, p, c);
      PlainRest(cs, post);
      MisreadEnd(t, q, c, rest, post);
      if Misread(c, rest) {
        var s0 := q + c.d4 + |rest[0].gap|;
        var k := s0 + rest[0].d1;
        assert rest[1..] == cs[2..];
        RenderAt(t, q + c.d4, rest, post);
        BlockOpens(t, s0, rest[0]);
        RowsOf(rest[0]);
        RowsJoin(t, s0, rest[0].d1 - 2, 2);
        NoneInNothing(t, k - 2);
        BlockThenRest(t, k - 2, k - 2, s0, rest, post);
      }
    }
  }

  lemma NoneInNothing(t: seq<byte>, p: nat)
    ensures NoneBefore(t, p, p, DELIMITER)
  {
  }

  lemma LabelledSize(word: seq<byte>, c: CertText)
    ensures |Labelled(word, c)| == c.d1 + |BEGIN + word| + c.d2 + |c.body| + c.d3 + |END + word|
  {
  }

  /** Where the parts of a rendering stand. */
  lemma RenderAt(t: seq<byte>, s: nat, cs: seq<CertText>, post: seq<byte>)
    requires cs != [] && At(t, s, Render(cs, post))
    ensures var c := cs[0];
            && At(t, s, c.gap) && At(t, s + |c.gap|, BlockText(c) + (Dashes(c.d4) + Render(cs[1..], post)))
            && At(t, s + |c.gap|, BlockText(c))
            && |Render(cs, post)| == |c.gap| + |BlockText(c)| + c.d4 + |Render(cs[1..], post)|
  {
    hide At, Labelled, Fill;
    var c := cs[0];
    AtBoth(t, s, c.gap, BlockText(c) + (Dashes(c.d4) + Render(cs[1..], post)));
    AtBoth(t, s + |c.gap|, BlockText(c), Dashes(c.d4) + Render(cs[1..], post));
  }

  /** The end of a misread block, if it has one. */
  lemma MisreadEnd(t: seq<byte>, q: nat, c: CertText, rest: seq<CertText>, post: seq<byte>)
    requires Row(c.d4) && c.gap == [] && c.body == BEGIN_CERTIFICATE && Plain(rest, post)
    requires At(t, q, Dashes(c.d4)) && At(t, q + c.d4, Render(rest, post)) && q + c.d4 + |Render(rest, post)| == |t|
    ensures EncapsulationLine(t, q, END, CERTIFICATE) ==
              if Misread(c, rest) then Some(q + c.d4 + |rest[0].gap| + rest[0].d1 - 2) else None
  {
    hide RunOf, LineEnd, At, Fill, Written, Quiet, Labelled, EncapsulationLine;
    if rest == [] {
      NoEndInEnding(t, q, c.d4, post);
    } else {
      var n := rest[0];
      RowsOf(n);
      RenderAt(t, q + c.d4, rest, post);
      if n.gap == [] {
        BlockOpens(t, q + c.d4, n);
        NoEndInJoint(t, q, c.d4, n.d1);
        KeywordFacts();
      } else {
        BlockOpens(t, q + c.d4 + |n.gap|, n);
        QuietGap(n);
        EndInGap(t, q, c.d4, n.gap, n.d1);
      }
    }
  }

  lemma QuietGap(c: CertText)
    requires Written(c)
    ensures Quiet(c.gap)
  {
  }

  lemma BlockOpens(t: seq<byte>, s0: nat, c: CertText)
    requires At(t, s0, BlockText(c))
    ensures At(t, s0, Dashes(c.d1)) && At(t, s0 + c.d1, BEGIN) && At(t, s0 + c.d1, BEGIN_CERTIFICATE)
  {
    BlockParts(t, s0, CERTIFICATE, c);
  }

  /** A block found from `p` on, at its dashes from `s`, and then the rest. */
  lemma {:induction false} BlockThenRest(t: seq<byte>, p: nat, s: nat, s0: nat, cs: seq<CertText>, post: seq<byte>)
    requires cs != [] && Plain(cs, post) && WellFormed(cs[0])
    requires At(t, s0, BlockText(cs[0]) + (Dashes(cs[0].d4) + Render(cs[1..], post)))
    requires s0 + |BlockText(cs[0])| + cs[0].d4 + |Render(cs[1..], post)| == |t|
    requires p <= s <= s0 + cs[0].d1 && Row(s0 + cs[0].d1 - s) && At(t, s, Dashes(s0 + cs[0].d1 - s))
    requires NoneBefore(t, p, s, DELIMITER)
    ensures Certificates(t, p) == Prefixed(cs[0].der, Reads(cs[0].d4, cs[1..], post))
    decreases |cs|, 0
  {
    hide RunOf, LineEnd, At, Delimiter, Fill, NoneBefore, Written, Block, Labelled, Reads;
    var c := cs[0];
    RowsOf(c);
    NotEmpty(c);
    var e := s0 + |BlockText(c)|;
    var tail := Render(cs[1..], post);
    AtBoth(t, s0, BlockText(c), Dashes(c.d4) + tail);
    AtBoth(t, e, Dashes(c.d4), tail);
    AtFits(t, e, Dashes(c.d4));
    AtFits(t, s, Dashes(s0 + c.d1 - s));
    KeywordFacts();
    BlockAt(t, p, s, s0 + c.d1 - s, s0 + c.d1, e, CERTIFICATE, c);
    PlainRest(cs, post);
    RestParses(t, e, c.d4, cs[1..], post);
  }

  lemma NotEmpty(c: CertText)
    requires WellFormed(c)
    ensures c.der != []
  {
  }

  lemma PlainRest(cs: seq<CertText>, post: seq<byte>)
    requires cs != [] && Plain(cs, post)
    ensures Plain(cs[1..], post)
  {
  }

  /** What any such text is read as. */
  lemma RenderingReads(cs: seq<CertText>, post: seq<byte>)
    requires cs != [] && Plain(cs, post)
    ensures Certificates(Render(cs, post), 0) == Prefixed(cs[0].der, Reads(cs[0].d4, cs[1..], post))
  {
    hide Reads, Certificates, Quiet, Labelled, Fill;
    var t, c := Render(cs, post), cs[0];
    var rest := BlockText(c) + (Dashes(c.d4) + Render(cs[1..], post));
    assert t[0..0 + |t|] == t;
    AtBoth(t, 0, c.gap, rest);
    AtBoth(t, |c.gap|, BlockText(c), Dashes(c.d4) + Render(cs[1..], post));
    BlockOpens(t, |c.gap|, c);
    QuietHides(t, 0, c.gap);
    BlockThenRest(t, 0, |c.gap|, |c.gap|, cs, post);
  }

  /** A joint of 65 dashes before a body that is just "BEGIN CERTIFICATE". */
  predicate Misleading(d: nat, cs: seq<CertText>)
    decreases |cs|
  {
    cs != [] && ((cs[0].gap == [] && d + cs[0].d1 == 65 && cs[0].body == BEGIN_CERTIFICATE)
                 || Misleading(cs[0].d4, cs[1..]))
  }

  lemma {:induction false} ReadsMeans(d: nat, cs: seq<CertText>, post: seq<byte>)
    requires forall i :: 0 <= i < |cs| ==> WellFormed(cs[i])
    ensures Reads(d, cs, post) == Some(Ders(cs)) <==> GoodJoints(d, cs, post)
    ensures !GoodJoints(d, cs, post) && !Misleading(d, cs) ==> Reads(d, cs, post) == None
    decreases |cs|
  {
    hide Written, GoodJoint;
    if cs != [] {
      var c := cs[0];
      BadJoint(d, c.d1);
      ReadsMeans(c.d4, cs[1..], post);
      PrefixedDers(cs, Reads(c.d4, cs[1..], post));
      if c.body == BEGIN_CERTIFICATE { KeywordBody(c); }
      assert Ders(cs)[0] == c.der;
    }
  }

  /** The keyword as a body stands for more bytes than are misread. */
  lemma KeywordBody(c: CertText)
    requires WellFormed(c) && c.body == BEGIN_CERTIFICATE
    ensures |c.der| > |MISREAD|
  {
    hide B.Encode, Filter;
    KeywordFilter("BEGIN");
    assert "BEGIN" + " " == "BEGIN ";
    B.EncodeSize(c.der);
  }

  /** The round trip: certificates written out as text, with any preamble, anything between and behind them that
      holds no row of dashes, and any further characters in the bodies, are read back as exactly those
      certificates, in order, if and only if every joint is good. Otherwise the text is refused, unless a joint of
      65 dashes stands before a body that is just the keyword. */
  lemma RoundTrip(cs: seq<CertText>, post: seq<byte>)
    requires cs != [] && Plain(cs, post)
    ensures Certificates(Render(cs, post), 0) == Some(Ders(cs)) <==> GoodJoints(cs[0].d4, cs[1..], post)
    ensures !GoodJoints(cs[0].d4, cs[1..], post) && !Misleading(cs[0].d4, cs[1..]) ==>
              Certificates(Render(cs, post), 0) == None
  {
    hide Reads, Certificates, Written, GoodJoints;
    RenderingReads(cs, post);
    ReadsMeans(cs[0].d4, cs[1..], post);
    PrefixedDers(cs, Reads(cs[0].d4, cs[1..], post));
  }

  lemma PrefixedDers(cs: seq<CertText>, rest: Option<seq<seq<byte>>>)
    requires cs != []
    ensures Prefixed(cs[0].der, rest) == Some(Ders(cs)) <==> rest == Some(Ders(cs[1..]))
  {
    if rest.Some? {
      assert ([cs[0].der] + rest.value)[1..] == rest.value;
      assert Ders(cs)[1..] == Ders(cs[1..]);
    }
  }

  lemma {:induction false} FilterKeeps(s: seq<byte>)
    requires forall i :: 0 <= i < |s| ==> B.IsBase64Char(s[i])
    ensures Filter(s) == s
  {
    if s != [] { FilterKeeps(s[1..]); }
  }

  // ---------------------------------------------------------------- examples

  /** A one-byte certificate behind some text. */
  function Tiny(gap: seq<byte>, x: byte, d1: nat, d4: nat): CertText {
    CertText(gap, d1, 5, B.Encode([x]), 5, d4, [x])
  }

  lemma TinyIsPlain(gap: seq<byte>, x: byte, d1: nat, d4: nat)
    requires Row(d1) && Row(d4) && Quiet(gap)
    ensures var c := Tiny(gap, x, d1, d4);
            WellFormed(c) && c.gap == gap && c.d1 == d1 && c.d4 == d4 && c.der == [x] && c.body != BEGIN_CERTIFICATE
  {
    hide B.EncodeGroup;
    FilterKeeps(B.Encode([x]));
    B.EncodeSize([x]);
    assert |BEGIN_CERTIFICATE| == 17;
  }

  /** What a second certificate after a first one comes to. */
  lemma TwoTiny(x: byte, y: byte, d: nat, gap: seq<byte>, d1: nat)
    requires Row(d) && Row(d1) && Quiet(gap)
    ensures Certificates(Render([Tiny([], x, 5, d), Tiny(gap, y, d1, 5)], []), 0) ==
              if GoodJoint(d, gap, d1) then Some([[x], [y]]) else None
  {
    hide Certificates, Render, Tiny, Written, Quiet, GoodJoint;
    var a, b := Tiny([], x, 5, d), Tiny(gap, y, d1, 5);
    assert Quiet([]) by { EmptyIsQuiet(); }
    KeywordFacts();
    TinyIsPlain([], x, 5, d);
    TinyIsPlain(gap, y, d1, 5);
    RenderingReads([a, b], []);
    assert [a, b][1..] == [b] && [b][1..] == [];
    assert Reads(5, [], []) == Some([]);
    assert [[y]] + [] == [[y]] && [[x]] + [[y]] == [[x], [y]];
  }

  lemma EmptyIsQuiet()
    ensures Quiet([])
  {
  }

  /** Two certificates joined by 33 and 32 dashes are refused; with one dash less or more they are read. */
  lemma SixtyFiveDashes(x: byte, y: byte, d1: nat)
    requires 31 <= d1 <= 33
    ensures Certificates(Render([Tiny([], x, 5, 33), Tiny([], y, d1, 5)], []), 0) == if d1 == 32 then None else Some([[x], [y]])
  {
    TwoTiny(x, y, 33, [], d1);
  }

  const COMMENT: seq<byte> := Ascii("BEGIN two")
  const COMMENT_LINE: seq<byte> := [10] + BEGIN_CERTIFICATE + [10]

  /** A separator that begins with "BEGIN " right behind the dashes is refused; on a line of its own even the whole
      keyword is read over. */
  lemma SeparatorBegins(x: byte, y: byte)
    ensures Certificates(Render([Tiny([], x, 5, 5), Tiny(COMMENT, y, 5, 5)], []), 0) == None
    ensures Certificates(Render([Tiny([], x, 5, 5), Tiny(COMMENT_LINE, y, 5, 5)], []), 0) == Some([[x], [y]])
  {
    hide Certificates, Render, Tiny;
    KeywordFacts();
    assert DASH !in COMMENT && DASH !in COMMENT_LINE;
    assert COMMENT[..6] == BEGIN;
    assert COMMENT_LINE[0] == 10 != BEGIN[0];
    TwoTiny(x, y, 5, COMMENT, 5);
    TwoTiny(x, y, 5, COMMENT_LINE, 5);
  }

  /** The bytes that "BEGIN CERTIFICATE" encodes where it is a body. */
  const KEYWORD_DER: seq<byte> := [4, 65, 136, 52, 33, 17, 76, 129, 72, 8, 4, 196]

  lemma KeywordGroups()
    ensures B.EncodeGroup(4, 65, 136) == [66, 69, 71, 73] && B.EncodeGroup(52, 33, 17) == [78, 67, 69, 82]
    ensures B.EncodeGroup(76, 129, 72) == [84, 73, 70, 73] && B.EncodeGroup(8, 4, 196) == [67, 65, 84, 69]
  {
  }

  lemma KeywordEncodes()
    ensures B.Encode(KEYWORD_DER) == Filter(BEGIN_CERTIFICATE)
  {
    KeywordGroups();
    hide B.EncodeGroup, B.IsBase64Char, Filter;
    var d := KEYWORD_DER;
    var x, y, z := d[3..], d[6..], d[9..];
    assert d[3..] == x && x[3..] == y && y[3..] == z && z[3..] == [];
    assert B.Encode(z) == [67, 65, 84, 69] + B.Encode([]);
    assert B.Encode(y) == [84, 73, 70, 73] + B.Encode(z);
    assert B.Encode(x) == [78, 67, 69, 82] + B.Encode(y);
    assert B.Encode(d) == [66, 69, 71, 73] + B.Encode(x);
    KeywordSpelled();
  }

  lemma KeywordSpelled()
    ensures Filter(BEGIN_CERTIFICATE) == [66, 69, 71, 73, 78, 67, 69, 82, 84, 73, 70, 73, 67, 65, 84, 69]
  {
    hide Filter;
    KeywordFilter("BEGIN");
    assert "BEGIN" + " " == "BEGIN ";
  }

  lemma MisreadThree(a: CertText, c: CertText, b: CertText)
    requires WellFormed(a) && WellFormed(c) && WellFormed(b) && a.d4 == 33
    requires c.gap == [] && c.d1 == 32 && c.body == BEGIN_CERTIFICATE && b.gap == END_CERTIFICATE
    ensures Certificates(Render([a, c, b], []), 0) == Some([a.der, MISREAD, b.der])
  {
    hide Certificates, Render, Written, Reads;
    MisreadReads(c, b);
    RenderingReads([a, c, b], []);
    assert [a, c, b][1..] == [c, b];
    assert [a.der] + [MISREAD, b.der] == [a.der, MISREAD, b.der];
  }

  /** The one kind of text that is read as other certificates: after 65 dashes the last line of a block whose body
      is the keyword is taken for a body. */
  lemma MisreadHappens(x: byte, y: byte)
    ensures var c := CertText([], 32, 5, BEGIN_CERTIFICATE, 5, 5, KEYWORD_DER);
            var cs := [Tiny([], x, 5, 33), c, Tiny(END_CERTIFICATE, y, 5, 5)];
            && Ders(cs) == [[x], KEYWORD_DER, [y]]
            && Certificates(Render(cs, []), 0) == Some([[x], MISREAD, [y]])
  {
    hide Certificates, Render, Tiny, Written, Ders;
    var a, b := Tiny([], x, 5, 33), Tiny(END_CERTIFICATE, y, 5, 5);
    var c := CertText([], 32, 5, BEGIN_CERTIFICATE, 5, 5, KEYWORD_DER);
    KeywordIsPlain(c);
    EmptyIsQuiet();
    EndIsQuiet();
    hide Quiet;
    TinyIsPlain([], x, 5, 33);
    TinyIsPlain(END_CERTIFICATE, y, 5, 5);
    MisreadThree(a, c, b);
    ThreeDers(a, c, b);
  }

  lemma EndIsQuiet()
    ensures Quiet(END_CERTIFICATE)
  {
    KeywordFacts();
  }

  lemma KeywordIsPlain(c: CertText)
    requires c == CertText([], 32, 5, BEGIN_CERTIFICATE, 5, 5, KEYWORD_DER)
    ensures WellFormed(c)
  {
    hide Filter, B.Encode;
    KeywordFacts();
    KeywordEncodes();
  }

  lemma MisreadReads(c: CertText, b: CertText)
    requires c.gap == [] && c.d1 == 32 && c.body == BEGIN_CERTIFICATE && b.gap == END_CERTIFICATE
    ensures Reads(33, [c, b], []) == Some([MISREAD, b.der])
  {
    KeywordFacts();
    assert [c, b][1..] == [b] && [c, b][2..] == [];
    assert b.gap[0..] == END_CERTIFICATE && b.gap[0] != DASH;
    assert Reads(b.d4, [], []) == Some([]);
    assert [b.der] + [] == [b.der] && [MISREAD] + [b.der] == [MISREAD, b.der];
  }

  lemma ThreeDers(a: CertText, b: CertText, c: CertText)
    ensures Ders([a, b, c]) == [a.der, b.der, c.der]
  {
    assert [a, b, c][1..] == [b, c] && [b, c][1..] == [c] && [c][1..] == [];
    assert Ders([c]) == [c.der];
    assert Ders([b, c]) == [b.der, c.der];
  }
}
