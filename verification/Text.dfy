/** Scanning text in a stuffer: only the read cursor moves. */
module Text {
  import opened Bytes
  import opened Stuffers
  import S = StufferSpec

  /** The string `w` stands at position `p` of `t`. */
  predicate At(t: seq<byte>, p: nat, w: seq<byte>) {
    p + |w| <= |t| && t[p..p + |w|] == w
  }

  lemma AtIndex(t: seq<byte>, p: nat, w: seq<byte>, i: nat)
    requires i < |w|
    ensures At(t, p, w) ==> t[p + i] == w[i]
  {
    assert At(t, p, w) ==> t[p..p + |w|][i] == t[p + i];
  }

  lemma AtBoth(t: seq<byte>, p: nat, v: seq<byte>, w: seq<byte>)
    ensures At(t, p, v + w) <==> At(t, p, v) && At(t, p + |v|, w)
  {
    if p + |v| + |w| <= |t| {
      assert t[p..p + |v + w|] == t[p..p + |v|] + t[p + |v|..p + |v| + |w|];
      assert At(t, p, v + w) ==> t[p..p + |v + w|][..|v|] == v && t[p..p + |v + w|][|v|..] == w;
    }
  }

  /** Where the character next occurs, or the end. */
  function FindChar(t: seq<byte>, p: nat, c: byte): (r: nat)
    requires p <= |t|
    ensures p <= r <= |t| && (r < |t| ==> t[r] == c)
    ensures forall i :: p <= i < r ==> t[i] != c
    decreases |t| - p
  {
    if p == |t| || t[p] == c then p else FindChar(t, p + 1, c)
  }

  predicate IsSpace(c: byte) {
    c == ' ' as int || c == '\t' as int || c == '\n' as int || c == '\r' as int
  }

  /** Past the whitespace that starts at `p`. */
  function SkipSpace(t: seq<byte>, p: nat): (r: nat)
    requires p <= |t|
    ensures p <= r <= |t| && (r < |t| ==> !IsSpace(t[r]))
    ensures forall i :: p <= i < r ==> IsSpace(t[i])
    decreases |t| - p
  {
    if p < |t| && IsSpace(t[p]) then SkipSpace(t, p + 1) else p
  }

  /** How many times in a row the character stands at `p`, counting no further than `max`. */
  function RunOf(t: seq<byte>, p: nat, c: byte, max: nat): (n: nat)
    requires p <= |t|
    ensures n <= max && p + n <= |t| && (n < max && p + n < |t| ==> t[p + n] != c)
    ensures forall i :: p <= i < p + n ==> t[i] == c
    decreases |t| - p
  {
    if p < |t| && max > 0 && t[p] == c then 1 + RunOf(t, p + 1, c, max - 1) else 0
  }

  lemma {:induction false} RunIs(t: seq<byte>, p: nat, c: byte, max: nat, n: nat)
    requires p + n <= |t| && n <= max && (forall i :: p <= i < p + n ==> t[i] == c)
    requires n == max || p + n == |t| || t[p + n] != c
    ensures RunOf(t, p, c, max) == n
    decreases n
  {
    if n > 0 { RunIs(t, p + 1, c, max - 1, n - 1); }
  }

  /** Where reading up to a string leaves the cursor; none when it runs out of text on the way. */
  function ReadUntil(t: seq<byte>, p: nat, w: seq<byte>): (r: Option<nat>)
    requires p <= |t|
    ensures r.Some? ==> p <= r.value <= |t|
    decreases |t| - p
  {
    if w == [] || |t| - p < |w| then Some(p)
    else
      var q := FindChar(t, p, w[0]);
      if |t| - q < |w| then None
      else if At(t, q, w) then Some(q + |w|)
      else ReadUntil(t, q + 1, w)
  }

  /** No occurrence of `w` starts in `t` from `p` up to `q`. */
  ghost predicate NoneBefore(t: seq<byte>, p: nat, q: nat, w: seq<byte>) {
    forall i :: p <= i < q ==> !At(t, i, w)
  }

  lemma ReadUntilStep(t: seq<byte>, p: nat, w: seq<byte>, q: nat)
    requires p <= |t| && w != [] && q == FindChar(t, p, w[0])
    ensures |t| - p < |w| ==> ReadUntil(t, p, w) == Some(p)
    ensures |t| - p >= |w| > |t| - q ==> ReadUntil(t, p, w) == None
    ensures At(t, q, w) ==> ReadUntil(t, p, w) == Some(q + |w|)
    ensures |t| - q >= |w| && !At(t, q, w) ==> ReadUntil(t, p, w) == ReadUntil(t, q + 1, w)
  {
  }

  lemma ReadUntilNothing(t: seq<byte>, p: nat)
    requires p <= |t|
    ensures ReadUntil(t, p, []) == Some(p)
  {
  }

  /** The cursor stops right after the first occurrence when there is one. */
  lemma {:induction false} ReadUntilFinds(t: seq<byte>, p: nat, w: seq<byte>, q: nat)
    requires p <= |t| && w != []
    requires p <= q && At(t, q, w) && NoneBefore(t, p, q, w)
    ensures ReadUntil(t, p, w) == Some(q + |w|)
    decreases |t| - p
  {
    hide FindChar, ReadUntil;
    var r := FindChar(t, p, w[0]);
    NoneBeforeFirstChar(t, p, w);
    ReadUntilStep(t, p, w, r);
    if r != q { ReadUntilFinds(t, r + 1, w, q); }
  }

  /** When there is none, the call either runs out of text or reports success with too little text left
      to hold the string. */
  lemma {:induction false} ReadUntilMeans(t: seq<byte>, p: nat, w: seq<byte>)
    requires p <= |t| && w != [] && ReadUntil(t, p, w).Some?
    ensures var c := ReadUntil(t, p, w).value;
            || (p + |w| <= c && At(t, c - |w|, w) && NoneBefore(t, p, c - |w|, w))
            || (|t| - c < |w| && NoneBefore(t, p, |t|, w))
    decreases |t| - p
  {
    hide FindChar, ReadUntil, At;
    var r := FindChar(t, p, w[0]);
    NoneBeforeFirstChar(t, p, w);
    ReadUntilStep(t, p, w, r);
    if |t| - p < |w| {
      NoneTooLate(t, p, w);
    } else if !At(t, r, w) {
      ReadUntilMeans(t, r + 1, w);
    }
  }

  /** Of the texts without the string, those are reported as success in which too little text is left from
      the start, or the last place where the string could stand has its first character. The cursor is then
      just past that place. */
  lemma {:induction false} ReadUntilWithout(t: seq<byte>, p: nat, w: seq<byte>)
    requires p <= |t| && w != [] && NoneBefore(t, p, |t|, w)
    ensures ReadUntil(t, p, w).Some? <==> |t| - p < |w| || t[|t| - |w|] == w[0]
    ensures ReadUntil(t, p, w).Some? ==> ReadUntil(t, p, w).value == if |t| - p < |w| then p else |t| - |w| + 1
    decreases |t| - p
  {
    hide FindChar, ReadUntil, At;
    var r := FindChar(t, p, w[0]);
    ReadUntilStep(t, p, w, r);
    if |t| - p >= |w| && |t| - r >= |w| {
      ReadUntilWithout(t, r + 1, w);
    }
  }

  /** Two dashes looked for in a dash and a letter: success, with the cursor behind the dash. */
  lemma SuccessWithoutFinding()
    ensures var t, w := [45, 97], [45, 45];
            NoneBefore(t, 0, |t|, w) && ReadUntil(t, 0, w) == Some(1)
  {
    var t, w := [45, 97], [45, 45];
    assert FindChar(t, 0, 45) == 0;
    assert !At(t, 0, w) by { AtIndex(t, 0, w, 1); }
    assert ReadUntil(t, 0, w) == ReadUntil(t, 1, w);
  }

  lemma NoneBeforeFirstChar(t: seq<byte>, p: nat, w: seq<byte>)
    requires p <= |t| && w != []
    ensures NoneBefore(t, p, FindChar(t, p, w[0]), w)
  {
    forall i | p <= i < FindChar(t, p, w[0])
      ensures !At(t, i, w)
    {
      assert i + |w| <= |t| ==> t[i..i + |w|][0] == t[i];
    }
  }

  lemma NoneTooLate(t: seq<byte>, p: nat, w: seq<byte>)
    requires p <= |t| && |t| - p < |w|
    ensures forall i :: p <= i ==> !At(t, i, w)
  {
  }

  // ---------------------------------------------------------------- methods

  method SkipToChar(s: Stuffer, c: byte)
    requires s.Valid()
    modifies s`read
    ensures s.Valid() && s.read == FindChar(s.Written(), old(s.read), c)
  {
    ghost var t, p := s.Written(), s.read;
    while s.read < s.write
      invariant p <= s.read <= s.write && FindChar(t, p, c) == FindChar(t, s.read, c)
    {
      if s.mem[s.read] == c { break; }
      s.read := s.read + 1;
    }
  }

  method SkipWhitespace(s: Stuffer)
    requires s.Valid()
    modifies s`read
    ensures s.Valid() && s.read == SkipSpace(s.Written(), old(s.read))
  {
    ghost var t, p := s.Written(), s.read;
    while s.read < s.write
      invariant p <= s.read <= s.write && SkipSpace(t, p) == SkipSpace(t, s.read)
    {
      if !IsSpace(s.mem[s.read]) { break; }
      s.read := s.read + 1;
    }
  }

  /** Moves past a run of a character and counts it. */
  method SkipRun(s: Stuffer, c: byte, max: nat) returns (skip: nat)
    requires s.Valid()
    modifies s`read
    ensures s.Valid() && skip == RunOf(s.Written(), old(s.read), c, max) && s.read == old(s.read) + skip
  {
    hide RunOf;
    ghost var t, p := s.Written(), s.read;
    skip := 0;
    while s.read < s.write && skip < max
      invariant s.read == p + skip <= s.write && skip <= max
      invariant forall i :: p <= i < p + skip ==> t[i] == c
    {
      if s.mem[s.read] != c { break; }
      s.read := s.read + 1;
      skip := skip + 1;
    }
    RunIs(t, p, c, max, skip);
  }

  method SkipExpectedChar(s: Stuffer, c: byte, min: nat, max: nat) returns (ok: bool)
    requires s.Valid()
    modifies s`read
    ensures s.Valid()
    ensures ok <==> min <= max && RunOf(s.Written(), old(s.read), c, max) >= min
    ensures ok ==> s.read == old(s.read) + RunOf(s.Written(), old(s.read), c, max)
  {
    if min > max { return false; }
    var skip := SkipRun(s, c, max);
    return skip >= min;
  }

  /** The bytes a pointer into the written part sees. */
  method Peek(s: Stuffer, at: nat, n: nat) returns (actual: seq<byte>)
    requires s.Valid() && at + n <= s.write
    ensures actual == s.Written()[at..at + n]
  {
    actual := s.mem[at..at + n];
    assert forall i :: 0 <= i < n ==> actual[i] == s.Written()[at + i];
  }

  method ReadExpectedStr(s: Stuffer, w: seq<byte>) returns (ok: bool)
    requires s.Valid()
    modifies s`read
    ensures s.Valid()
    ensures ok <==> At(s.Written(), old(s.read), w)
    ensures s.read == if ok then old(s.read) + |w| else old(s.read)
  {
    if |w| == 0 { return true; }
    if s.write - s.read < |w| { return false; }
    var actual := Peek(s, s.read, |w|);
    if actual != w { return false; }
    s.read := s.read + |w|;
    return true;
  }

  method PeekCheckForStr(s: Stuffer, w: seq<byte>) returns (ok: bool)
    requires s.Valid()
    modifies s`read
    ensures s.Valid() && s.read == old(s.read)
    ensures ok <==> At(s.Written(), s.read, w)
  {
    var pos := s.read;
    ok := ReadExpectedStr(s, w);
    s.read := pos;
  }

  method SkipReadUntil(s: Stuffer, w: seq<byte>) returns (ok: bool)
    requires s.Valid()
    modifies s`read
    ensures s.Valid()
    ensures ok <==> ReadUntil(s.Written(), old(s.read), w).Some?
    ensures ok ==> s.read == ReadUntil(s.Written(), old(s.read), w).value
  {
    hide FindChar, ReadUntil, S.SkipRead, S.RewindRead, Stuffer.Value, Stuffer.Valid;
    ghost var t, p := s.Written(), s.read;
    if |w| == 0 {
      ReadUntilNothing(t, p);
      return true;
    }
    while s.write - s.read >= |w|
      invariant s.Valid()
      invariant p <= s.read <= s.write && ReadUntil(t, p, w) == ReadUntil(t, s.read, w)
      decreases s.write - s.read
    {
      ghost var r := s.read;
      SkipToChar(s, w[0]);
      ReadUntilStep(t, r, w, s.read);
      ok := s.SkipRead(|w|);
      if !ok { return; }
      var actual := Peek(s, s.read - |w|, |w|);
      if actual == w { return true; }
      ok := s.RewindRead(|w| - 1);
    }
    ReadUntilStep(t, s.read, w, FindChar(t, s.read, w[0]));
    return true;
  }
}
