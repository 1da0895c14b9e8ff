/** The direct-mapped session cache: the first byte of the key chooses one of 256 entries. */
module SessionCache {
  import opened Bytes

  const MAX_KEY_LEN: nat := 32
  const MAX_VAL_LEN: nat := 255

  /** Fixed buffers of which the first bytes are in use. */
  datatype Entry = Entry(key: seq<byte>, keyLen: nat, value: seq<byte>, valueLen: nat)

  predicate Proper(e: Entry) {
    |e.key| == MAX_KEY_LEN && e.keyLen <= MAX_KEY_LEN && |e.value| == MAX_VAL_LEN && e.valueLen <= MAX_VAL_LEN
  }

  datatype Call = Store(key: seq<byte>, value: seq<byte>) | Delete(key: seq<byte>)

  predicate KeyFits(key: seq<byte>) { 1 <= |key| <= MAX_KEY_LEN }

  predicate ValueFits(value: seq<byte>) { 1 <= |value| <= MAX_VAL_LEN }

  /** What a run has left under a key: the value last stored under exactly this key, unless the key was deleted
      or another key with the same first byte was stored since. */
  function Latest(run: seq<Call>, key: seq<byte>): (r: Option<seq<byte>>)
    requires KeyFits(key)
    ensures r.Some? ==> ValueFits(r.value)
  {
    if run == [] then None
    else
      var before := Latest(run[..|run| - 1], key);
      match run[|run| - 1]
      case Store(k, value) =>
        if !KeyFits(k) || !ValueFits(value) || k[0] != key[0] then before
        else if k == key then Some(value) else None
      case Delete(k) => if k == key then None else before
  }

  /** Whether a call takes what is held under a key away. */
  predicate Displaces(c: Call, key: seq<byte>)
    requires KeyFits(key)
  {
    match c
    case Store(k, value) => KeyFits(k) && ValueFits(value) && k[0] == key[0]
    case Delete(k) => k == key
  }

  ghost predicate HeldSince(run: seq<Call>, i: int, key: seq<byte>, value: seq<byte>)
    requires KeyFits(key)
  {
    && 0 <= i < |run| && run[i] == Store(key, value) && ValueFits(value)
    && forall j :: i < j < |run| ==> !Displaces(run[j], key)
  }

  /** A value is left exactly when some call stored it and no later one took it away. */
  lemma {:induction false} LatestMeans(run: seq<Call>, key: seq<byte>, value: seq<byte>)
    requires KeyFits(key)
    ensures Latest(run, key) == Some(value) <==> exists i :: HeldSince(run, i, key, value)
  {
    if run != [] {
      var n := |run| - 1;
      var before, c := run[..n], run[n];
      LatestMeans(before, key, value);
      if HeldSince(run, n, key, value) {
        assert Latest(run, key) == Some(value);
      } else if !Displaces(c, key) {
        forall i ensures HeldSince(run, i, key, value) <==> HeldSince(before, i, key, value) {
          assert 0 <= i < n ==> before[i] == run[i];
        }
      }
    }
  }

  /** What an entry answers for a key. */
  function Answer(e: Entry, key: seq<byte>): Option<seq<byte>>
    requires Proper(e) && KeyFits(key)
  {
    if e.keyLen == |key| && e.key[..|key|] == key then Some(e.value[..e.valueLen]) else None
  }

  class Cache {
    const slots: array<Entry>
    ghost var run: seq<Call>

    /** Every entry answers as the run of calls so far says. */
    ghost predicate Valid()
      reads this, slots
    {
      && slots.Length == 256
      && (forall i :: 0 <= i < 256 ==> Proper(slots[i]) && (slots[i].keyLen > 0 ==> slots[i].key[0] == i))
      && (forall key :: KeyFits(key) ==> Answer(slots[key[0]], key) == Latest(run, key))
    }

    constructor ()
      ensures Valid() && run == []
    {
      slots := new Entry[256](_ => Entry(Fill(0, MAX_KEY_LEN), 0, Fill(0, MAX_VAL_LEN), 0));
      run := [];
    }

    method StoreCallback(key: seq<byte>, value: seq<byte>) returns (ok: bool)
      requires Valid()
      modifies this, slots
      ensures Valid() && run == old(run) + [Store(key, value)]
      ensures ok <==> KeyFits(key) && ValueFits(value)
    {
      ghost var before := run;
      run := run + [Store(key, value)];
      assert run[..|before|] == before;
      if !(1 <= |key| <= MAX_KEY_LEN) { return false; }
      if !(1 <= |value| <= MAX_VAL_LEN) { return false; }
      var idx := key[0];
      var e := slots[idx];
      slots[idx] := Entry(Splice(e.key, 0, key), |key|, Splice(e.value, 0, value), |value|);
      StoredAnswers(e, key, value);
      return true;
    }

    /** A hit is the latest value under this key, and every such value that fits the caller's buffer is a hit. */
    method RetrieveCallback(key: seq<byte>, capacity: nat) returns (ok: bool, value: seq<byte>)
      requires Valid()
      ensures ok <==> KeyFits(key) && Latest(run, key).Some? && |Latest(run, key).value| <= capacity
      ensures ok ==> value == Latest(run, key).value
    {
      if !(1 <= |key| <= MAX_KEY_LEN) { return false, []; }
      var e := slots[key[0]];
      assert Answer(e, key) == Latest(run, key);
      if e.keyLen != |key| { return false, []; }
      if e.key[..|key|] != key { return false, []; }
      if capacity < e.valueLen { return false, []; }
      return true, e.value[..e.valueLen];
    }

    /** Deleting succeeds exactly when no other key is in the entry; refused, it changes nothing. */
    method DeleteCallback(key: seq<byte>) returns (ok: bool)
      requires Valid()
      modifies this, slots
      ensures Valid() && run == old(run) + [Delete(key)]
      ensures ok <==> KeyFits(key) && forall k :: KeyFits(k) && k[0] == key[0] && k != key ==> Latest(old(run), k) == None
      ensures ok ==> forall k :: KeyFits(k) && k[0] == key[0] ==> Latest(run, k) == None
      ensures !ok ==> slots[..] == old(slots[..])
    {
      ghost var before := run;
      run := run + [Delete(key)];
      assert run[..|before|] == before;
      if !(1 <= |key| <= MAX_KEY_LEN) { return false; }
      var idx := key[0];
      var e := slots[idx];
      ghost var held := e.key[..e.keyLen];
      assert e.keyLen > 0 ==> KeyFits(held) && Answer(e, held).Some?;
      if e.keyLen != 0 {
        if e.keyLen != |key| { return false; }
        if e.key[..|key|] != key { return false; }
      }
      slots[idx] := e.(keyLen := 0, valueLen := 0);
      return true;
    }
  }

  lemma StoredAnswers(e: Entry, key: seq<byte>, value: seq<byte>)
    requires Proper(e) && KeyFits(key) && ValueFits(value)
    ensures var r := Entry(Splice(e.key, 0, key), |key|, Splice(e.value, 0, value), |value|);
            Proper(r) && forall k :: KeyFits(k) ==> Answer(r, k) == if k == key then Some(value) else None
  {
    assert Splice(e.key, 0, key)[..|key|] == key;
    assert Splice(e.value, 0, value)[..|value|] == value;
  }
}
