/** Private keys written as PEM text are read back as what their labels say. */
module PemKeys {
  import opened Bytes
  import opened Text
  import opened PemSpec
  import opened PemRoundTrip

  predicate Label(l: string) {
    forall i :: 0 <= i < |l| ==> l[i] as int < 128 && l[i] != '-'
  }

  /** A block under a label, from its first dash to its last. */
  function Armor(l: string, c: CertText): seq<byte>
    requires Label(l)
  {
    Fill('-' as int, c.d1) + Ascii("BEGIN ") + Ascii(l) + Fill('-' as int, c.d2) + c.body
    + Fill('-' as int, c.d3) + Ascii("END ") + Ascii(l) + Fill('-' as int, c.d4)
  }

  /** The kind and the bytes of a text's private key. */
  function Key(t: seq<byte>): Option<(KeyType, seq<byte>)> {
    match PrivateKey(t, 0)
    case None => None
    case Some((kind, der, _)) => Some((kind, der))
  }

  // ---------------------------------------------------------------- one block

  lemma ArmorIsLabelled(l: string, c: CertText)
    requires Label(l)
    ensures Armor(l, c) == Labelled(Ascii(l), c) + Dashes(c.d4) && DASH !in Ascii(l)
  {
    hide Fill;
  }

  /** Where a block stands in a text. */
  lemma ArmorAt(pre: seq<byte>, l: string, c: CertText, post: seq<byte>) returns (s: nat, e: nat)
    requires Label(l)
    ensures var t, word := pre + c.gap + Armor(l, c) + post, Ascii(l);
            && s == |pre| + |c.gap| && e == s + |Labelled(word, c)| && DASH !in word && e + c.d4 <= |t|
            && At(t, 0, pre) && At(t, |pre|, c.gap) && At(t, s, Labelled(word, c)) && At(t, e, Dashes(c.d4))
            && At(t, e + c.d4, post)
  {
    hide At, Armor, Fill, Labelled;
    ArmorIsLabelled(l, c);
    var word := Ascii(l);
    var t := pre + c.gap + Armor(l, c) + post;
    var b := Labelled(word, c) + Dashes(c.d4);
    s := |pre| + |c.gap|;
    e := s + |Labelled(word, c)|;
    Whole(t);
    AtBoth(t, 0, pre + c.gap + b, post);
    AtBoth(t, 0, pre + c.gap, b);
    AtBoth(t, 0, pre, c.gap);
    AtBoth(t, s, Labelled(word, c), Dashes(c.d4));
  }

  lemma Whole(t: seq<byte>)
    ensures At(t, 0, t)
  {
    assert t[0..|t|] == t;
  }

  /** A line under one label is no line under another. */
  lemma OtherLabel(t: seq<byte>, p: nat, s: nat, n: nat, word: seq<byte>, m: nat, other: seq<byte>)
    requires p <= s && Row(n) && At(t, s, Dashes(n)) && NoneBefore(t, p, s, DELIMITER)
    requires At(t, s + n, BEGIN + word) && m > 0 && At(t, s + n + |BEGIN + word|, Dashes(m))
    requires DASH !in word && DASH !in other && other != word
    ensures Block(t, p, other) == None
  {
    hide RunOf, Delimiter, LineEnd, At, Fill, Contents, NoneBefore;
    WordFacts(word);
    WordFacts(other);
    AtIndex(t, s + n, BEGIN + word, 0);
    DelimiterAt(t, p, s, n);
    IsDash(t, s + n + |BEGIN + word|, m, 0);
    OnlyAsPrefix(t, s + n, BEGIN + word, BEGIN + other);
    if At(t, s + n, BEGIN + other) {
      ProperPrefix(word, other);
      AtIndex(t, s + n, BEGIN + word, |BEGIN + other|);
      NoRow(t, s + n + |BEGIN + other|);
    }
  }

  lemma ProperPrefix(word: seq<byte>, other: seq<byte>)
    requires BEGIN + other <= BEGIN + word && other != word
    ensures |other| < |word|
  {
    assert (BEGIN + other)[|BEGIN|..] == other && (BEGIN + word)[|BEGIN|..] == word;
  }

  /** What the first block of a text is: the one its label names, and no other. */
  lemma FirstBlock(l: string, c: CertText, post: seq<byte>, other: string)
    requires Label(l) && Written(c) && Label(other)
    ensures var b := Block(c.gap + Armor(l, c) + post, 0, Ascii(other));
            if other == l then b.Some? && b.value.0 == c.der else b == None
  {
    hide Armor, At, Fill, Labelled, Written, Block, NoneBefore, RunOf, LineEnd, Delimiter;
    var t, word := c.gap + Armor(l, c) + post, Ascii(l);
    assert [] + c.gap == c.gap;
    var s, e := ArmorAt([], l, c, post);
    RowsOf(c);
    QuietGap(c);
    QuietHides(t, 0, c.gap);
    BlockParts(t, s, word, c);
    if other == l {
      BlockAt(t, 0, s, c.d1, s + c.d1, e, word, c);
    } else {
      Spelled(l, other);
      OtherLabel(t, 0, s, c.d1, word, c.d2, Ascii(other));
    }
  }

  lemma Spelled(l: string, m: string)
    requires Label(l) && Label(m)
    ensures DASH !in Ascii(l) && DASH !in Ascii(m) && (Ascii(l) == Ascii(m) ==> l == m)
  {
    if Ascii(l) == Ascii(m) {
      assert forall i :: 0 <= i < |l| ==> l[i] as int == Ascii(l)[i] == m[i] as int;
    }
  }

  // ---------------------------------------------------------------- keys

  /** A key is read as what its label says, whatever precedes and follows it: an RSA key under either of two
      labels, an EC key under one. No other label makes a key, but that of curve parameters leads on to the
      next block. */
  lemma KeyByLabel(l: string, c: CertText, post: seq<byte>)
    requires Label(l) && Written(c) && l != "EC PARAMETERS"
    ensures Key(c.gap + Armor(l, c) + post) ==
              if l == "RSA PRIVATE KEY" || l == "PRIVATE KEY" then Some((Rsa, c.der))
              else if l == "EC PRIVATE KEY" then Some((Ec, c.der))
              else None
  {
    hide Armor, Written, Block, Ascii;
    FirstBlock(l, c, post, "RSA PRIVATE KEY");
    FirstBlock(l, c, post, "EC PARAMETERS");
    FirstBlock(l, c, post, "EC PRIVATE KEY");
    FirstBlock(l, c, post, "PRIVATE KEY");
  }

  // ---------------------------------------------------------------- curve parameters

  /** A space does not count, letters do. */
  lemma TwoWords(v: string, w: string)
    requires forall i :: 0 <= i < |w| ==> 'A' <= w[i] <= 'Z'
    requires forall i :: 0 <= i < |v| ==> v[i] as int < 128
    ensures |Filter(Ascii(v + " " + w))| == |Filter(Ascii(v))| + |w|
  {
    hide Filter;
    LettersStay(w);
    FilterSpaces(Ascii(" "));
    assert Ascii(v + " " + w) == Ascii(v) + (Ascii(" ") + Ascii(w));
    FilterConcat(Ascii(" "), Ascii(w));
    FilterConcat(Ascii(v), Ascii(" ") + Ascii(w));
  }

  /** The characters of neither line of an EC key are whole groups. */
  lemma NoWholeGroups()
    ensures |Filter(BEGIN + EC_PRIVATE_KEY)| == 17 && |Filter(END + EC_PRIVATE_KEY)| == 15 && DASH !in EC_PRIVATE_KEY
  {
    hide Filter;
    Lines("BEGIN");
    Lines("END");
    assert "BEGIN" + " " == "BEGIN " && "END" + " " == "END ";
  }

  lemma Lines(marker: string)
    requires forall i :: 0 <= i < |marker| ==> 'A' <= marker[i] <= 'Z'
    ensures |Filter(Ascii(marker + " ") + EC_PRIVATE_KEY)| == |marker| + 12
  {
    hide Filter;
    LettersStay(marker);
    TwoWords(marker, "EC");
    TwoWords(marker + " " + "EC", "PRIVATE");
    TwoWords(marker + " " + "EC" + " " + "PRIVATE", "KEY");
    assert Ascii(marker + " " + "EC" + " " + "PRIVATE" + " " + "KEY") == Ascii(marker + " ") + EC_PRIVATE_KEY;
  }

  /** A block behind a row of closing dashes is found exactly across a good joint, if its label cannot be
      mistaken for a body. */
  lemma AcrossJoint(t: seq<byte>, e: nat, d: nat, word: seq<byte>, c: CertText)
    requires DASH !in word && |Filter(BEGIN + word)| % 4 != 0 && |Filter(END + word)| % 4 != 0
    requires Row(d) && Written(c) && At(t, e, Dashes(d)) && At(t, e + d, c.gap)
    requires var s := e + d + |c.gap|; At(t, s, Labelled(word, c)) && At(t, s + |Labelled(word, c)|, Dashes(c.d4))
    ensures RunOf(t, e, DASH, MAX_DASHES) >= MIN_DASHES
    ensures var b := Block(t, LineEnd(t, e, END), word);
            if GoodJoint(d, c.gap, c.d1) then b.Some? && b.value.0 == c.der else b == None
  {
    hide RunOf, LineEnd, At, Fill, Labelled, Written, Filter, Block, NoneBefore, Delimiter, GoodJoint;
    var s0 := e + d + |c.gap|;
    RowsOf(c);
    QuietGap(c);
    BlockParts(t, s0, word, c);
    if GoodJoint(d, c.gap, c.d1) {
      var s := GoodJointLeadsOn(t, e, d, c.gap, c.d1);
      AtFits(t, s0 + |Labelled(word, c)|, Dashes(c.d4));
      AtFits(t, s, Dashes(s0 + c.d1 - s));
      BlockAt(t, LineEnd(t, e, END), s, s0 + c.d1 - s, s0 + c.d1, s0 + |Labelled(word, c)|, word, c);
    } else if c.gap != [] {
      BadGapRefused(t, e, d, word, c);
    } else {
      BadJoint(d, c.d1);
      BodySize(c);
      OneDashLeft(t, e, d, word, c);
    }
  }

  /** An EC key behind its curve parameters is read if and only if the joint between the two blocks is good; if it
      is not, there is no key in the text. */
  lemma KeyBehindParameters(a: CertText, c: CertText, post: seq<byte>)
    requires Written(a) && Written(c)
    ensures var key := c.gap + Armor("EC PRIVATE KEY", c) + post;
            Key(a.gap + Armor("EC PARAMETERS", a) + key) ==
              if GoodJoint(a.d4, c.gap, c.d1) then Some((Ec, c.der)) else None
  {
    hide Armor, Written, Block, Ascii, GoodJoint;
    var key := c.gap + Armor("EC PRIVATE KEY", c) + post;
    FirstBlock("EC PARAMETERS", a, key, "RSA PRIVATE KEY");
    FirstBlock("EC PARAMETERS", a, key, "PRIVATE KEY");
    BehindParameters(a, c, post);
  }

  lemma BehindParameters(a: CertText, c: CertText, post: seq<byte>)
    requires Written(a) && Written(c)
    ensures var t := a.gap + Armor("EC PARAMETERS", a) + (c.gap + Armor("EC PRIVATE KEY", c) + post);
            var b := Block(t, 0, EC_PARAMETERS);
            && b.Some?
            && var k := Block(t, b.value.1, EC_PRIVATE_KEY);
               if GoodJoint(a.d4, c.gap, c.d1) then k.Some? && k.value.0 == c.der else k == None
  {
    hide Armor, At, Fill, Labelled, Written, Block, NoneBefore, RunOf, LineEnd, Delimiter, GoodJoint, Filter;
    var t := a.gap + Armor("EC PARAMETERS", a) + (c.gap + Armor("EC PRIVATE KEY", c) + post);
    var front := a.gap + Armor("EC PARAMETERS", a);
    assert [] + a.gap == a.gap && front + c.gap + Armor("EC PRIVATE KEY", c) + post == t;
    var s, e := ArmorAt([], "EC PARAMETERS", a, c.gap + Armor("EC PRIVATE KEY", c) + post);
    var s1, e1 := ArmorAt(front, "EC PRIVATE KEY", c, post);
    ArmorIsLabelled("EC PARAMETERS", a);
    RowsOf(a);
    QuietGap(a);
    QuietHides(t, 0, a.gap);
    BlockParts(t, s, EC_PARAMETERS, a);
    BlockAt(t, 0, s, a.d1, s + a.d1, e, EC_PARAMETERS, a);
    NoWholeGroups();
    AcrossJoint(t, e, a.d4, EC_PRIVATE_KEY, c);
  }

  // ---------------------------------------------------------------- rows too long, certificates

  /** A block that opens with more than 64 dashes is neither a key nor a certificate. */
  lemma LongRow(l: string, c: CertText, post: seq<byte>)
    requires Label(l) && Quiet(c.gap) && c.d1 > 64
    ensures var t := c.gap + Armor(l, c) + post; Key(t) == None && Certificates(t, 0) == None
  {
    hide Armor, At, Fill, Labelled, NoneBefore, RunOf, Delimiter, Quiet, Block, ReadUntil;
    var t := c.gap + Armor(l, c) + post;
    assert [] + c.gap == c.gap;
    var s, e := ArmorAt([], l, c, post);
    QuietHides(t, 0, c.gap);
    BlockParts(t, s, Ascii(l), c);
    RowsJoin(t, s, 2, c.d1 - 2);
    assert Dashes(2) == DELIMITER;
    ReadUntilFinds(t, 0, DELIMITER, s);
    RunAt(t, s, c.d1, MAX_DASHES);
    IsDash(t, s, c.d1, 64);
    assert Delimiter(t, 0) == Some(s + 64) by { LongDelimiter(t, s); }
    NoBlock(t, s + 64, RSA_PRIVATE_KEY);
    NoBlock(t, s + 64, EC_PARAMETERS);
    NoBlock(t, s + 64, EC_PRIVATE_KEY);
    NoBlock(t, s + 64, PRIVATE_KEY);
    NoBlock(t, s + 64, CERTIFICATE);
  }

  lemma LongDelimiter(t: seq<byte>, s: nat)
    requires s + 64 < |t| && ReadUntil(t, 0, DELIMITER) == Some(s + 2) && RunOf(t, s, DASH, MAX_DASHES) == 64
    ensures Delimiter(t, 0) == Some(s + 64)
  {
    hide RunOf, ReadUntil;
  }

  lemma NoBlock(t: seq<byte>, a: nat, word: seq<byte>)
    requires a < |t| && t[a] == DASH && Delimiter(t, 0) == Some(a)
    ensures Block(t, 0, word) == None
  {
    hide RunOf, At, Delimiter, Contents, LineEnd;
    AtIndex(t, a, BEGIN + word, 0);
  }

  /** The text of one certificate, in the same spelling. */
  lemma CertificateText(c: CertText, post: seq<byte>)
    ensures Render([c], post) == c.gap + Armor("CERTIFICATE", c) + post
  {
    hide Armor, Labelled, Fill;
    ArmorIsLabelled("CERTIFICATE", c);
    assert Render([], post) == post;
    assert [c][1..] == [];
  }
}
