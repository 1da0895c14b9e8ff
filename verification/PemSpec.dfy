/** What the PEM reader makes of a text: the accepted language, position by position. */
module PemSpec {
  import opened Bytes
  import opened Text
  import B = Base64

  const DASH: byte := '-' as int
  const DELIMITER: seq<byte> := [DASH, DASH]
  const MIN_DASHES: nat := 2
  const MAX_DASHES: nat := 64
  const BEGIN: seq<byte> := Ascii("BEGIN ")
  const END: seq<byte> := Ascii("END ")
  const RSA_PRIVATE_KEY: seq<byte> := Ascii("RSA PRIVATE KEY")
  const EC_PRIVATE_KEY: seq<byte> := Ascii("EC PRIVATE KEY")
  const PRIVATE_KEY: seq<byte> := Ascii("PRIVATE KEY")
  const EC_PARAMETERS: seq<byte> := Ascii("EC PARAMETERS")
  const CERTIFICATE: seq<byte> := Ascii("CERTIFICATE")
  const CHUNK: nat := 64

  /** The position after the next run of dashes. */
  function Delimiter(t: seq<byte>, p: nat): (r: Option<nat>)
    requires p <= |t|
    ensures r.Some? ==> p < r.value <= |t|
  {
    if |t| - p < MIN_DASHES then None
    else match ReadUntil(t, p, DELIMITER)
      case None => None
      case Some(c) =>
        if c < |DELIMITER| then None
        else
          ReadUntilMeans(t, p, DELIMITER);
          var n := RunOf(t, c - |DELIMITER|, DASH, MAX_DASHES);
          if n < MIN_DASHES then None else Some(c - |DELIMITER| + n)
  }

  /** The position after the dashes, keyword and dashes of a BEGIN or END line. Dashes of an END line that
      directly precede "BEGIN " are given back to the line they open. */
  function EncapsulationLine(t: seq<byte>, p: nat, marker: seq<byte>, keyword: seq<byte>): (r: Option<nat>)
    requires p <= |t|
    ensures r.Some? ==> p + |marker| + |keyword| < r.value <= |t|
  {
    match Delimiter(t, p)
    case None => None
    case Some(a) =>
      if !At(t, a, marker + keyword) then None
      else
        var c := a + |marker| + |keyword|;
        if RunOf(t, c, DASH, MAX_DASHES) < MIN_DASHES then None else Some(LineEnd(t, c, marker))
  }

  /** Where a line whose closing dashes start at `c` ends. */
  function LineEnd(t: seq<byte>, c: nat, marker: seq<byte>): (r: nat)
    requires c <= |t| && RunOf(t, c, DASH, MAX_DASHES) >= MIN_DASHES
    ensures c <= r <= |t|
  {
    var d := c + RunOf(t, c, DASH, MAX_DASHES);
    SkipSpace(t, if marker == END && At(t, d, BEGIN) then d - MIN_DASHES else d)
  }

  /** When dashes are found: two of them stand together somewhere, or a pair that begins before the start is
      the last but one character, which the step back after a search in vain reaches. */
  lemma DelimiterExists(t: seq<byte>, p: nat)
    requires p <= |t|
    ensures Delimiter(t, p).Some? <==>
              || (exists i :: p <= i && At(t, i, DELIMITER))
              || (1 <= p == |t| - 2 && t[p - 1] == DASH && t[p] == DASH)
  {
    hide ReadUntil, RunOf;
    if i :| p <= i && At(t, i, DELIMITER) {
      var q := FirstAt(t, p, i, DELIMITER);
      ReadUntilFinds(t, p, DELIMITER, q);
      TwoDashes(t, q);
    } else if |t| - p >= MIN_DASHES {
      ReadUntilWithout(t, p, DELIMITER);
      assert !At(t, p, DELIMITER) && !At(t, |t| - 2, DELIMITER);
      if |t| >= 3 {
        assert p <= |t| - 3 ==> !At(t, |t| - 3, DELIMITER);
        TwoDashes(t, |t| - 3);
      }
    } else {
      NoneTooLate(t, p, DELIMITER);
    }
  }

  lemma TwoDashes(t: seq<byte>, q: nat)
    requires q + 2 <= |t|
    ensures At(t, q, DELIMITER) <==> t[q] == DASH && t[q + 1] == DASH
    ensures RunOf(t, q, DASH, MAX_DASHES) >= MIN_DASHES <==> At(t, q, DELIMITER)
  {
    assert t[q..q + 2] == [t[q], t[q + 1]];
  }

  /** The first occurrence, given one. */
  lemma {:induction false} FirstAt(t: seq<byte>, p: nat, i: nat, w: seq<byte>) returns (q: nat)
    requires p <= i && At(t, i, w)
    ensures p <= q <= i && At(t, q, w) && NoneBefore(t, p, q, w)
    decreases i - p
  {
    if At(t, p, w) { q := p; } else { q := FirstAt(t, p + 1, i, w); }
  }

  /** A row of three dashes read on from its third, with one more character behind: found. */
  lemma DelimiterStepsBack()
    ensures Delimiter([45, 45, 45, 97], 2) == Some(3)
  {
    var t: seq<byte> := [45, 45, 45, 97];
    assert forall i :: 2 <= i < 4 ==> !At(t, i, DELIMITER) by {
      assert !At(t, 2, DELIMITER) by { AtIndex(t, 2, DELIMITER, 1); }
    }
    ReadUntilWithout(t, 2, DELIMITER);
    hide ReadUntil;
    assert RunOf(t, 3, DASH, 62) == 0;
    assert RunOf(t, 2, DASH, 63) == 1;
    assert RunOf(t, 1, DASH, 64) == 2;
  }

  /** The characters of a body that count. */
  function Filter(s: seq<byte>): seq<byte> {
    if s == [] then []
    else if B.IsBase64Char(s[0]) then [s[0]] + Filter(s[1..]) else Filter(s[1..])
  }

  function Join(x: Option<seq<byte>>, y: Option<seq<byte>>): Option<seq<byte>> {
    if x.Some? && y.Some? then Some(x.value + y.value) else None
  }

  /** Characters are decoded 64 at a time, each chunk by itself. */
  function ChunkDecode(s: seq<byte>): Option<seq<byte>> {
    if |s| <= CHUNK then B.Decode(s) else Join(B.Decode(s[..CHUNK]), ChunkDecode(s[CHUNK..]))
  }

  /** The decoded body that starts at `p`, and the dash that ends it. */
  function Contents(t: seq<byte>, p: nat): (r: Option<(seq<byte>, nat)>)
    requires p <= |t|
    ensures r.Some? ==> p <= r.value.1 < |t|
  {
    var q := FindChar(t, p, DASH);
    if q == |t| then None
    else match ChunkDecode(Filter(t[p..q]))
      case None => None
      case Some(d) => Some((d, q))
  }

  /** One PEM block with the given keyword: its decoded body, and the position after it. */
  function Block(t: seq<byte>, p: nat, keyword: seq<byte>): (r: Option<(seq<byte>, nat)>)
    requires p <= |t|
    ensures r.Some? ==> p < r.value.1 <= |t|
  {
    match EncapsulationLine(t, p, BEGIN, keyword)
    case None => None
    case Some(a) =>
      match Contents(t, a)
      case None => None
      case Some((d, q)) =>
        match EncapsulationLine(t, q, END, keyword)
        case None => None
        case Some(e) => Some((d, e))
  }

  datatype KeyType = Rsa | Ec

  /** The private key of a text: PKCS#1 first, then EC with any parameters block skipped, then PKCS#8.
      All attempts after the first read the text from its beginning. */
  function PrivateKey(t: seq<byte>, p: nat): Option<(KeyType, seq<byte>, nat)>
    requires p <= |t|
  {
    match Block(t, p, RSA_PRIVATE_KEY)
    case Some((d, q)) => Some((Rsa, d, q))
    case None =>
      var start := if Block(t, 0, EC_PARAMETERS).Some? then Block(t, 0, EC_PARAMETERS).value.1 else 0;
      match Block(t, start, EC_PRIVATE_KEY)
      case Some((d, q)) => Some((Ec, d, q))
      case None =>
        match Block(t, 0, PRIVATE_KEY)
        case Some((d, q)) => Some((Rsa, d, q))
        case None => None
  }

  /** The certificates of a text, one block after the other for as long as dashes follow. An empty
      certificate is an error, as is a block that is not a certificate. */
  function Certificates(t: seq<byte>, p: nat): Option<seq<seq<byte>>>
    requires p <= |t|
    decreases |t| - p
  {
    if Delimiter(t, p).None? then Some([])
    else match Block(t, p, CERTIFICATE)
      case None => None
      case Some((d, q)) =>
        if d == [] then None
        else match Certificates(t, q)
          case None => None
          case Some(rest) => Some([d] + rest)
  }

  // ---------------------------------------------------------------- laws

  /** Two keywords that differ at some position both have cannot both follow the same dashes: at most one
      of the blocks gets past its first line. */
  lemma KeywordsExclude(t: seq<byte>, p: nat, k: seq<byte>, l: seq<byte>)
    requires p <= |t| && k != [] && l != [] && k[0] != l[0]
    requires EncapsulationLine(t, p, BEGIN, k).Some?
    ensures EncapsulationLine(t, p, BEGIN, l).None?
  {
    var a := Delimiter(t, p).value;
    AtIndex(t, a, BEGIN + k, |BEGIN|);
    AtIndex(t, a, BEGIN + l, |BEGIN|);
  }

  lemma {:induction false} FilterConcat(x: seq<byte>, y: seq<byte>)
    ensures Filter(x + y) == Filter(x) + Filter(y)
  {
    if x == [] {
      assert x + y == y;
    } else {
      assert (x + y)[1..] == x[1..] + y;
      FilterConcat(x[1..], y);
    }
  }

  lemma {:induction false} FilterShortens(s: seq<byte>)
    ensures |Filter(s)| <= |s|
  {
    if s != [] { FilterShortens(s[1..]); }
  }

  lemma {:induction false} ChunkDecodeSize(s: seq<byte>)
    ensures ChunkDecode(s).Some? ==> |ChunkDecode(s).value| <= |s|
  {
    if |s| <= CHUNK {
      B.DecodeSize(s);
    } else {
      B.DecodeSize(s[..CHUNK]);
      ChunkDecodeSize(s[CHUNK..]);
    }
  }

  /** A block takes up more text than it holds bytes, by more than the three bytes of a length field:
      reading it is progress, and a chain's wire size is smaller than its text. */
  lemma BlockSize(t: seq<byte>, p: nat, keyword: seq<byte>)
    requires p <= |t| && Block(t, p, keyword).Some?
    ensures p + |Block(t, p, keyword).value.0| + 3 <= Block(t, p, keyword).value.1
  {
    hide EncapsulationLine, ChunkDecode;
    var a := EncapsulationLine(t, p, BEGIN, keyword).value;
    var q := FindChar(t, a, DASH);
    FilterShortens(t[a..q]);
    ChunkDecodeSize(Filter(t[a..q]));
  }
}
