/** Byte-addressed memory with little-endian 32-bit words, as an i386 kernel sees it.
    A byte's index in the sequence or array is its address. */
module RawMemory {
  import opened Common

  newtype byte = x: int | 0 <= x < 0x100


  /** Little-endian value of the bytes in [p, e). */
  function Value(m: seq<byte>, p: nat, e: nat): nat
    requires p <= e <= |m|
    decreases e - p
  {
    if p == e then 0 else m[p] as int + 0x100 * Value(m, p + 1, e)
  }

  /** `m` with the low bytes of `v` stored in [p, e). */
  function Stored(m: seq<byte>, p: nat, e: nat, v: nat): (m': seq<byte>)
    requires p <= e <= |m|
    ensures |m'| == |m|
    decreases e - p
  {
    if p == e then m else Stored(m[p := (v % 0x100) as byte], p + 1, e, v / 0x100)
  }

  function Load(m: seq<byte>, p: nat): nat
    requires p + 4 <= |m|
  {
    Value(m, p, p + 4)
  }

  function Put(m: seq<byte>, p: nat, v: nat): (m': seq<byte>)
    requires p + 4 <= |m|
    ensures |m'| == |m|
  {
    Stored(m, p, p + 4, v)
  }

  function Power(n: nat): nat {
    if n == 0 then 1 else 0x100 * Power(n - 1)
  }

  lemma PowerFour()
    ensures Power(4) == U32
  {
    assert Power(3) == 0x100_0000 by { assert Power(2) == 0x1_0000; }
  }

  lemma {:induction false} StoredOutside(m: seq<byte>, p: nat, e: nat, v: nat, k: nat)
    requires p <= e <= |m| && k < |m| && !(p <= k < e)
    ensures Stored(m, p, e, v)[k] == m[k]
    decreases e - p
  {
    if p < e { StoredOutside(m[p := (v % 0x100) as byte], p + 1, e, v / 0x100, k); }
  }

  lemma {:induction false} StoredValue(m: seq<byte>, p: nat, e: nat, v: nat)
    requires p <= e <= |m| && v < Power(e - p)
    ensures Value(Stored(m, p, e, v), p, e) == v
    decreases e - p
  {
    if p < e {
      var m1 := m[p := (v % 0x100) as byte];
      StoredValue(m1, p + 1, e, v / 0x100);
      StoredOutside(m1, p + 1, e, v / 0x100, p);
    }
  }

  lemma {:induction false} ValueSame(m: seq<byte>, m': seq<byte>, p: nat, e: nat)
    requires p <= e <= |m| == |m'| && forall k :: p <= k < e ==> m'[k] == m[k]
    ensures Value(m', p, e) == Value(m, p, e)
    decreases e - p
  {
    if p < e { ValueSame(m, m', p + 1, e); }
  }

  lemma LoadSame(m: seq<byte>, m': seq<byte>, p: nat)
    requires p + 4 <= |m| == |m'| && forall k :: p <= k < p + 4 ==> m'[k] == m[k]
    ensures Load(m', p) == Load(m, p)
  {
    ValueSame(m, m', p, p + 4);
  }

  /** A stored word reads back. */
  lemma PutThenLoad(m: seq<byte>, p: nat, v: nat)
    requires p + 4 <= |m| && v < U32
    ensures Load(Put(m, p, v), p) == v
  {
    PowerFour();
    StoredValue(m, p, p + 4, v);
  }

  /** Storing a word changes no other byte. */
  /** Least significant byte first. */
  lemma LittleEndian(m: seq<byte>, p: nat, v: nat)
    requires p + 4 <= |m| && v < U32
    ensures var m' := Put(m, p, v);
            && m'[p] as nat == v % 0x100 && m'[p + 1] as nat == v / 0x100 % 0x100
            && m'[p + 2] as nat == v / 0x1_0000 % 0x100 && m'[p + 3] as nat == v / 0x100_0000
  {
    var m1 := m[p := (v % 0x100) as byte];
    var m2 := m1[p + 1 := (v / 0x100 % 0x100) as byte];
    var m3 := m2[p + 2 := (v / 0x100 / 0x100 % 0x100) as byte];
    var m4 := m3[p + 3 := (v / 0x100 / 0x100 / 0x100 % 0x100) as byte];
    assert Stored(m3, p + 3, p + 4, v / 0x100 / 0x100 / 0x100) == m4;
    assert Stored(m2, p + 2, p + 4, v / 0x100 / 0x100) == m4;
    assert Stored(m1, p + 1, p + 4, v / 0x100) == m4;
  }

  lemma PutElsewhere(m: seq<byte>, p: nat, v: nat)
    requires p + 4 <= |m|
    ensures forall k :: 0 <= k < |m| && !(p <= k < p + 4) ==> Put(m, p, v)[k] == m[k]
  {
    forall k | 0 <= k < |m| && !(p <= k < p + 4) ensures Put(m, p, v)[k] == m[k] {
      StoredOutside(m, p, p + 4, v, k);
    }
  }

  /** Storing a word leaves a disjoint word alone. */
  lemma PutThenLoadOther(m: seq<byte>, p: nat, v: nat, q: nat)
    requires p + 4 <= |m| && q + 4 <= |m| && (q + 4 <= p || p + 4 <= q)
    ensures Load(Put(m, p, v), q) == Load(m, q)
  {
    PutElsewhere(m, p, v);
    LoadSame(m, Put(m, p, v), q);
  }

  method LoadWord(mem: array<byte>, p: nat) returns (v: nat)
    requires p + 4 <= mem.Length
    ensures v == Load(mem[..], p) < U32
  {
    v := 0;
    PowerFour();
    var i := 4;
    while i > 0
      invariant 0 <= i <= 4 && v == Value(mem[..], p + i, p + 4) < Power(4 - i)
    {
      i := i - 1;
      v := mem[p + i] as int + 0x100 * v;
    }
  }

  method StoreWord(mem: array<byte>, p: nat, v: nat)
    requires p + 4 <= mem.Length
    requires v < U32
    modifies mem
    ensures mem[..] == Put(old(mem[..]), p, v)
  {
    PowerFour();
    var rest: nat := v;
    for i := 0 to 4
      invariant rest < Power(4 - i)
      invariant Stored(mem[..], p + i, p + 4, rest) == Stored(old(mem[..]), p, p + 4, v)
    {
      ghost var m := mem[..];
      mem[p + i] := (rest % 0x100) as byte;
      assert mem[..] == m[p + i := (rest % 0x100) as byte];
      rest := rest / 0x100;
    }
  }
}
