/** Bytes, little-endian words and the byte-addressed memory of a traced process. */
module Memory {

  type Byte = x: int | 0 <= x < 0x100

  const TWO_64: int := 0x1_0000_0000_0000_0000

  type Word = x: int | 0 <= x < TWO_64

  /** The memory of a process: address `a` is mapped exactly when `a < |m|`. */
  type Mem = seq<Byte>

  /** 64-bit wrap-around addition; `d` may be negative. */
  function Add64(x: Word, d: int): (r: Word)
    ensures 0 <= x + d < TWO_64 ==> r == x + d
  {
    (x + d) % TWO_64
  }

  /** The `n` bytes at `a` are all mapped. */
  predicate Mapped(m: Mem, a: int, n: nat) {
    0 <= a && a + n <= |m|
  }

  // ----- little-endian numbers

  function Pow256(n: nat): (p: nat)
    ensures p >= 1
  {
    if n == 0 then 1 else 0x100 * Pow256(n - 1)
  }

  lemma Pow256Values()
    ensures Pow256(2) == 0x1_0000 && Pow256(4) == 0x1_0000_0000 && Pow256(8) == TWO_64
  {
    assert Pow256(4) == 0x1_0000_0000;
  }

  /** The byte of weight 256 to the `i` in `v`. */
  function Digit(v: nat, i: nat): Byte
    decreases i
  {
    if i == 0 then v % 0x100 else Digit(v / 0x100, i - 1)
  }

  /** The `n` low bytes of `v`, least significant first. */
  function Bytes(v: nat, n: nat): (b: seq<Byte>)
    ensures |b| == n
    ensures forall i :: 0 <= i < n ==> b[i] == Digit(v, i)
  {
    seq(n, i requires 0 <= i < n => Digit(v, i))
  }

  /** The number that the `n` bytes at `a` stand for. */
  function Value(m: Mem, a: int, n: nat): (v: nat)
    requires Mapped(m, a, n)
    decreases |m|, n
  {
    if n == 0 then 0
    else
      var low: int := m[a];
      low + 0x100 * Value(m, a + 1, n - 1)
  }

  lemma {:induction false} ValueBound(m: Mem, a: int, n: nat)
    requires Mapped(m, a, n)
    ensures Value(m, a, n) < Pow256(n)
    decreases n
  {
    if n > 0 {
      ValueBound(m, a + 1, n - 1);
    }
  }

  lemma {:induction false} ValueOfDigits(m: Mem, a: int, n: nat, v: nat)
    requires Mapped(m, a, n) && v < Pow256(n)
    requires forall i :: 0 <= i < n ==> m[a + i] == Digit(v, i)
    ensures Value(m, a, n) == v
    decreases n
  {
    if n > 0 {
      assert m[a + 0] == Digit(v, 0);
      forall i | 0 <= i < n - 1
        ensures m[a + 1 + i] == Digit(v / 0x100, i)
      {
        assert m[a + (i + 1)] == Digit(v, i + 1);
      }
      ValueOfDigits(m, a + 1, n - 1, v / 0x100);
    }
  }

  lemma {:induction false} DigitOfValue(m: Mem, a: int, n: nat, i: nat)
    requires Mapped(m, a, n) && i < n
    ensures Digit(Value(m, a, n), i) == m[a + i]
    decreases n
  {
    var low: int := m[a];
    assert Value(m, a, n) / 0x100 == Value(m, a + 1, n - 1);
    if i > 0 {
      DigitOfValue(m, a + 1, n - 1, i - 1);
    }
  }

  lemma {:induction false} SameValue(m: Mem, k: Mem, a: int, n: nat)
    requires Mapped(m, a, n) && Mapped(k, a, n) && forall x :: a <= x < a + n ==> m[x] == k[x]
    ensures Value(m, a, n) == Value(k, a, n)
    decreases n
  {
    if n > 0 {
      SameValue(m, k, a + 1, n - 1);
    }
  }

  // ----- loads and stores

  /** The store after writing the bytes `d` from address `a` on. */
  function WriteBytes(m: Mem, a: int, d: seq<Byte>): (r: Mem)
    requires Mapped(m, a, |d|)
    ensures |r| == |m|
    ensures forall x :: 0 <= x < |m| ==> r[x] == if a <= x < a + |d| then d[x - a] else m[x]
  {
    seq(|m|, x requires 0 <= x < |m| => if a <= x < a + |d| then d[x - a] else m[x])
  }

  function ReadBytes(m: Mem, a: int, n: nat): (b: seq<Byte>)
    requires Mapped(m, a, n)
    ensures |b| == n
  {
    m[a..a + n]
  }

  lemma WordBound(m: Mem, a: int)
    requires Mapped(m, a, 8)
    ensures Value(m, a, 8) < TWO_64
  {
    Pow256Values();
    ValueBound(m, a, 8);
  }

  function Read64(m: Mem, a: int): Word
    requires Mapped(m, a, 8)
  {
    WordBound(m, a);
    Value(m, a, 8)
  }

  function Write64(m: Mem, a: int, v: Word): (r: Mem)
    requires Mapped(m, a, 8)
    ensures |r| == |m|
    ensures forall x :: 0 <= x < |m| && !(a <= x < a + 8) ==> r[x] == m[x]
  {
    WriteBytes(m, a, Bytes(v, 8))
  }

  /** Little-endian store and load of a word are inverse, and disjoint stores do not interfere. */
  lemma ReadWrite64(m: Mem, a: int, v: Word, b: int)
    requires Mapped(m, a, 8) && Mapped(m, b, 8)
    requires b == a || b + 8 <= a || a + 8 <= b
    ensures Read64(Write64(m, a, v), b) == if b == a then v else Read64(m, b)
  {
    Pow256Values();
    if a == b {
      ValueOfDigits(Write64(m, a, v), a, 8, v);
    } else {
      SameValue(Write64(m, a, v), m, b, 8);
    }
  }

  /** A word that was read and is stored again puts its bytes back. */
  lemma WriteRead64(m: Mem, a: int, native: Mem)
    requires Mapped(m, a, 8) && Mapped(native, a, 8)
    ensures var r := Write64(m, a, Read64(native, a));
            |r| == |m| && forall x :: 0 <= x < |m| ==> r[x] == if a <= x < a + 8 then native[x] else m[x]
  {
    var r := Write64(m, a, Read64(native, a));
    forall x | a <= x < a + 8
      ensures r[x] == native[x]
    {
      DigitOfValue(native, a, 8, x - a);
    }
  }

  /** Writing back the bytes that a range held undoes every change made inside it. */
  lemma WriteBack(m: Mem, k: Mem, a: int, n: nat)
    requires |k| == |m| && Mapped(m, a, n)
    requires forall x :: 0 <= x < |m| && !(a <= x < a + n) ==> m[x] == k[x]
    ensures WriteBytes(k, a, ReadBytes(m, a, n)) == m
  {
  }
}
