/** 64-bit words in memory, least significant byte first. */
module MemoryWords {
  import opened Wrappers
  import opened Words
  import opened AddressSpaces

  // v as n bytes, least significant first.
  function Encode(v: nat, n: nat): (bs: seq<byte>)
    ensures |bs| == n
  {
    if n == 0 then [] else [v % 256] + Encode(v / 256, n - 1)
  }

  function Decode(bs: seq<byte>): nat {
    if bs == [] then 0 else bs[0] + 256 * Decode(bs[1..])
  }

  function Limit(n: nat): nat {
    if n == 0 then 1 else 256 * Limit(n - 1)
  }

  lemma {:induction false} DecodeEncode(v: nat, n: nat)
    requires v < Limit(n)
    ensures Decode(Encode(v, n)) == v
  {
    if n > 0 {
      DecodeEncode(v / 256, n - 1);
      assert Encode(v, n)[1..] == Encode(v / 256, n - 1);
    }
  }

  lemma WordLimit()
    ensures Limit(8) == TWO64
  {
    assert Limit(2) == 0x1_0000;
    assert Limit(4) == 0x1_0000_0000;
    assert Limit(6) == 0x1_0000_0000_0000;
  }

  predicate ByteIs(m: Memory, a: nat, b: byte) {
    a in m && m[a].value == b
  }

  predicate BytesAt(m: Memory, a: nat, bs: seq<byte>) {
    forall i :: 0 <= i < |bs| ==> ByteIs(m, a + i, bs[i])
  }

  lemma BytesTail(m: Memory, a: nat, bs: seq<byte>)
    requires BytesAt(m, a, bs) && bs != []
    ensures ByteIs(m, a, bs[0]) && BytesAt(m, a + 1, bs[1..])
  {
    assert ByteIs(m, a + 0, bs[0]);
    forall i | 0 <= i < |bs| - 1
      ensures ByteIs(m, a + 1 + i, bs[1..][i])
    {
      assert ByteIs(m, a + (i + 1), bs[i + 1]);
    }
  }

  predicate WordsAt(m: Memory, a: nat, ws: seq<nat>) {
    forall i :: 0 <= i < |ws| ==> ReadWord(m, a + 8 * i) == Some(ws[i])
  }

  predicate Readable(m: Memory, a: nat, n: nat) {
    forall i :: a <= i < a + n ==> i in m
  }

  function Slice(m: Memory, a: nat, n: nat): seq<byte>
    requires Readable(m, a, n)
  {
    seq<byte>(n, i requires 0 <= i < n => m[a + i].value)
  }

  function ReadWord(m: Memory, a: nat): Option<nat> {
    if Readable(m, a, 8) then Some(Decode(Slice(m, a, 8))) else None
  }

  // Storing a word's bytes makes it readable.
  lemma ReadWordAt(m: Memory, a: nat, v: u64)
    requires BytesAt(m, a, Encode(v, 8))
    ensures ReadWord(m, a) == Some(v)
  {
    var bs := Encode(v, 8);
    forall i | a <= i < a + 8
      ensures i in m
    {
      assert ByteIs(m, a + (i - a), bs[i - a]);
    }
    assert Slice(m, a, 8) == bs;
    WordLimit();
    DecodeEncode(v, 8);
  }

  lemma StoredBytes(m: Memory, a: nat, data: seq<byte>)
    requires Writable(m, a, |data|)
    ensures BytesAt(Stored(m, a, data), a, data)
    ensures SameOutside(m, Stored(m, a, data), a, a + |data|)
  {
  }

  lemma ReadWordKept(m: Memory, m': Memory, lo: int, hi: int, a: nat)
    requires SameOutside(m, m', lo, hi) && (hi <= a || a + 8 <= lo) && Readable(m, a, 8)
    ensures ReadWord(m', a) == ReadWord(m, a)
  {
    forall i | a <= i < a + 8
      ensures i in m' && m'[i] == m[i]
    {
      assert SameAt(m, m', i);
    }
    assert Slice(m', a, 8) == Slice(m, a, 8);
  }

  // --- Variables -------------------------------------------------------------------------------

  // Loading n bytes from a does not fault.
  predicate Loadable(m: Memory, a: nat, n: nat) {
    forall i :: a <= i < a + n ==> i in m && m[i].prot.read
  }

  // Neither loading nor storing faults.
  predicate Accessible(m: Memory, a: nat, n: nat) {
    Loadable(m, a, n) && Writable(m, a, n)
  }

  lemma {:induction false} DecodeBelow(bs: seq<byte>)
    ensures Decode(bs) < Limit(|bs|)
  {
    if bs != [] {
      DecodeBelow(bs[1..]);
    }
  }

  lemma {:induction false} DecodeInjective(bs: seq<byte>, cs: seq<byte>)
    requires |bs| == |cs| && Decode(bs) == Decode(cs)
    ensures bs == cs
  {
    if bs != [] {
      assert bs[0] == cs[0] && Decode(bs[1..]) == Decode(cs[1..]);
      DecodeInjective(bs[1..], cs[1..]);
      assert bs == [bs[0]] + bs[1..] && cs == [cs[0]] + cs[1..];
    }
  }

  // The value of the 64-bit variable at a.
  function Word(m: Memory, a: nat): u64
    requires Readable(m, a, 8)
  {
    var bs := Slice(m, a, 8);
    DecodeBelow(bs);
    WordLimit();
    Decode(bs)
  }

  // It is its eight bytes, least significant first, and what ReadWord reads.
  lemma ReadWordBytes(m: Memory, a: nat)
    requires Readable(m, a, 8)
    ensures ReadWord(m, a) == Some(Word(m, a))
    ensures Word(m, a) ==
            (m[a].value + 0x100 * m[a + 1].value + 0x1_0000 * m[a + 2].value + 0x100_0000 * m[a + 3].value
                 + 0x1_0000_0000 * m[a + 4].value + 0x100_0000_0000 * m[a + 5].value
                 + 0x1_0000_0000_0000 * m[a + 6].value + 0x100_0000_0000_0000 * m[a + 7].value)
  {
    var bs := Slice(m, a, 8);
    DecodeTail(bs, 0);
    DecodeTail(bs, 1);
    DecodeTail(bs, 2);
    DecodeTail(bs, 3);
    DecodeTail(bs, 4);
    DecodeTail(bs, 5);
    DecodeTail(bs, 6);
    DecodeTail(bs, 7);
    assert bs[8..] == [] && bs[0..] == bs;
  }

  lemma DecodeTail(bs: seq<byte>, k: nat)
    requires k < |bs|
    ensures Decode(bs[k..]) == bs[k] + 256 * Decode(bs[k + 1..])
  {
    assert bs[k..][1..] == bs[k + 1..];
  }

  // A variable has the same value exactly if it has the same bytes.
  lemma WordBytes(m: Memory, m': Memory, a: nat)
    requires Readable(m, a, 8) && Readable(m', a, 8)
    ensures Word(m, a) == Word(m', a) <==> forall i :: a <= i < a + 8 ==> m[i].value == m'[i].value
  {
    var bs, cs := Slice(m, a, 8), Slice(m', a, 8);
    if Word(m, a) == Word(m', a) {
      DecodeInjective(bs, cs);
      forall i | a <= i < a + 8
        ensures m[i].value == m'[i].value
      {
        assert bs[i - a] == cs[i - a];
      }
    }
    if forall i :: a <= i < a + 8 ==> m[i].value == m'[i].value {
      assert bs == cs;
    }
  }

  // The variable is still accessible, and has kept its value.
  predicate VariableKept(m: Memory, m': Memory, a: nat)
    requires Readable(m, a, 8)
  {
    Accessible(m', a, 8) && Word(m', a) == Word(m, a)
  }

  lemma VariableKeptExactly(m: Memory, m': Memory, a: nat)
    requires Readable(m, a, 8)
    ensures VariableKept(m, m', a) <==> Accessible(m', a, 8) && forall i :: a <= i < a + 8 ==> m'[i].value == m[i].value
  {
    if Accessible(m', a, 8) {
      WordBytes(m, m', a);
    }
  }

  lemma WordKept(m: Memory, m': Memory, lo: int, hi: int, a: nat)
    requires SameOutside(m, m', lo, hi) && (hi <= a || a + 8 <= lo) && Accessible(m, a, 8)
    ensures Accessible(m', a, 8) && Word(m', a) == Word(m, a)
  {
    forall i | a <= i < a + 8
      ensures i in m' && m'[i] == m[i]
    {
      assert SameAt(m, m', i);
    }
    assert Slice(m', a, 8) == Slice(m, a, 8);
  }

  lemma WordStored(m: Memory, a: nat, v: u64)
    requires Accessible(m, a, 8)
    ensures Accessible(Stored(m, a, Encode(v, 8)), a, 8) && Word(Stored(m, a, Encode(v, 8)), a) == v
    ensures SameOutside(m, Stored(m, a, Encode(v, 8)), a, a + 8)
  {
    StoredBytes(m, a, Encode(v, 8));
    ReadWordAt(Stored(m, a, Encode(v, 8)), a, v);
  }

  lemma StoredAccessible(m: Memory, a: nat, data: seq<byte>, b: nat, n: nat)
    requires Writable(m, a, |data|) && Accessible(m, b, n)
    ensures Accessible(Stored(m, a, data), b, n) && Stored(m, a, data).Keys == m.Keys
  {
  }
}
