/** A flat 32-bit address space as a sequence of bytes: little-endian loads and
    stores, C strings, and the bit arithmetic of ALIGN_MEM.

    Loads and stores are total so that specifications need no side conditions: outside
    the address space a load gives 0 and a store does nothing.  The program itself never
    relies on this, because every access of class Loader is proved to hit a live block. */
module Memory {
  const SPACE: int := 0x1_0000_0000

  type byte = x: int | 0 <= x < 256
  type word = x: int | 0 <= x < 0x1_0000_0000
  type Mem = seq<byte>

  /** Unsigned 32-bit addition. */
  function Add(a: int, b: int): word {
    (a + b) % SPACE
  }

  function Byte(m: Mem, a: int): byte {
    if 0 <= a < |m| then m[a] else 0
  }

  function Half(m: Mem, a: int): nat {
    Byte(m, a) + 0x100 * Byte(m, a + 1)
  }

  function Word(m: Mem, a: int): word {
    Byte(m, a) + 0x100 * Byte(m, a + 1) + 0x1_0000 * Byte(m, a + 2) + 0x100_0000 * Byte(m, a + 3)
  }

  function HalfBytes(h: int): (bs: seq<byte>)
    requires 0 <= h < 0x1_0000
  {
    [h % 0x100, h / 0x100]
  }

  function WordBytes(w: word): (bs: seq<byte>)
    ensures |bs| == 4
  {
    [w % 0x100, w / 0x100 % 0x100, w / 0x1_0000 % 0x100, w / 0x100_0000]
  }

  /** memcpy of bs to address a. */
  function Splice(m: Mem, a: int, bs: seq<byte>): (r: Mem)
    ensures |r| == |m|
  {
    if 0 <= a && a + |bs| <= |m| then m[..a] + bs + m[a + |bs|..] else m
  }

  function SetWord(m: Mem, a: int, w: word): (r: Mem)
    ensures |r| == |m|
  {
    Splice(m, a, WordBytes(w))
  }

  function Zeros(n: nat): (bs: seq<byte>)
    ensures |bs| == n && forall i | 0 <= i < n :: bs[i] == 0
  {
    seq(n, i => 0)
  }

  /** The n bytes at address a. */
  function Bytes(m: Mem, a: int, n: nat): (bs: seq<byte>)
    ensures |bs| == n && forall i | 0 <= i < n :: bs[i] == Byte(m, a + i)
  {
    seq<byte>(n, i => Byte(m, a + i))
  }

  lemma SpliceAt(m: Mem, a: int, bs: seq<byte>, x: int)
    requires 0 <= a && a + |bs| <= |m|
    ensures Byte(Splice(m, a, bs), x) == if a <= x < a + |bs| then bs[x - a] else Byte(m, x)
  {
  }

  /** The half of SpliceAt that needs no bounds: a store leaves all other bytes alone. */
  lemma SpliceFrame(m: Mem, a: int, bs: seq<byte>, x: int)
    requires x < a || a + |bs| <= x
    ensures Byte(Splice(m, a, bs), x) == Byte(m, x)
  {
  }

  lemma WordOfBytes(w: word)
    ensures Word(WordBytes(w), 0) == w
  {
    var bs := WordBytes(w);
    assert Word(bs, 0) == bs[0] as int + 0x100 * bs[1] as int + 0x1_0000 * bs[2] as int + 0x100_0000 * bs[3] as int;
    DigitsOfWord(w);
  }

  lemma DigitsOfWord(w: int)
    ensures w == w % 0x100 + 0x100 * (w / 0x100 % 0x100)
                 + 0x1_0000 * (w / 0x1_0000 % 0x100) + 0x100_0000 * (w / 0x100_0000)
  {
    assert w / 0x1_0000 == w / 0x100 / 0x100 && w / 0x100_0000 == w / 0x1_0000 / 0x100;
  }

  /** A word reads as w when its four bytes are those of w. */
  lemma WordFromBytes(m: Mem, a: int, w: word)
    requires Byte(m, a) == WordBytes(w)[0] && Byte(m, a + 1) == WordBytes(w)[1]
    requires Byte(m, a + 2) == WordBytes(w)[2] && Byte(m, a + 3) == WordBytes(w)[3]
    ensures Word(m, a) == w
  {
    WordOfBytes(w);
  }

  /** A word is two halfwords, the low one first. */
  lemma WordFromHalves(m: Mem, a: int)
    ensures Word(m, a) == Half(m, a) + 0x1_0000 * Half(m, a + 2)
    ensures Half(m, a) == Word(m, a) % 0x1_0000 && Half(m, a + 2) == Word(m, a) / 0x1_0000
  {
  }

  /** Load after store, at the same address and at one that does not overlap. */
  lemma WordAfterSet(m: Mem, a: int, w: word, b: int)
    requires 0 <= a && a + 4 <= |m|
    ensures Word(SetWord(m, a, w), a) == w
    ensures b + 4 <= a || a + 4 <= b ==> Word(SetWord(m, a, w), b) == Word(m, b)
  {
    WordFromBytes(SetWord(m, a, w), a, w);
    if b + 4 <= a || a + 4 <= b {
      SetFrame(m, a, w);
      SameWord(m, SetWord(m, a, w), b);
    }
  }

  lemma SetFrame(m: Mem, a: int, w: word)
    ensures forall x | x < a || a + 4 <= x :: Byte(SetWord(m, a, w), x) == Byte(m, x)
  {
    forall x | x < a || a + 4 <= x
      ensures Byte(SetWord(m, a, w), x) == Byte(m, x)
    {
      SpliceFrame(m, a, WordBytes(w), x);
    }
  }

  ghost predicate Agree(m: Mem, n: Mem, lo: int, hi: int) {
    forall x | lo <= x < hi :: Byte(m, x) == Byte(n, x)
  }

  lemma SameWord(m: Mem, n: Mem, a: int)
    requires forall x | a <= x < a + 4 :: Byte(m, x) == Byte(n, x)
    ensures Word(m, a) == Word(n, a) && Half(m, a) == Half(n, a) && Half(m, a + 2) == Half(n, a + 2)
  {
  }

  /** A word determines its four bytes. */
  lemma WordInjective(m: Mem, n: Mem, a: int)
    requires Word(m, a) == Word(n, a)
    ensures Agree(m, n, a, a + 4)
  {
    DigitsUnique(Byte(m, a), Byte(m, a + 1) + 0x100 * Byte(m, a + 2) + 0x1_0000 * Byte(m, a + 3),
                 Byte(n, a), Byte(n, a + 1) + 0x100 * Byte(n, a + 2) + 0x1_0000 * Byte(n, a + 3));
    DigitsUnique(Byte(m, a + 1), Byte(m, a + 2) + 0x100 * Byte(m, a + 3),
                 Byte(n, a + 1), Byte(n, a + 2) + 0x100 * Byte(n, a + 3));
    DigitsUnique(Byte(m, a + 2), Byte(m, a + 3), Byte(n, a + 2), Byte(n, a + 3));
  }

  lemma BytesOfWord(m: Mem, a: int, k: int)
    requires 0 <= k < 4
    ensures Byte(m, a + k) == WordBytes(Word(m, a))[k]
  {
    var bs := WordBytes(Word(m, a));
    WordOfBytes(Word(m, a));
    DigitsUnique(Byte(m, a), Byte(m, a + 1) + 0x100 * Byte(m, a + 2) + 0x1_0000 * Byte(m, a + 3),
                 bs[0], Byte(bs, 1) + 0x100 * Byte(bs, 2) + 0x1_0000 * Byte(bs, 3));
    DigitsUnique(Byte(m, a + 1), Byte(m, a + 2) + 0x100 * Byte(m, a + 3),
                 bs[1], Byte(bs, 2) + 0x100 * Byte(bs, 3));
    DigitsUnique(Byte(m, a + 2), Byte(m, a + 3), bs[2], Byte(bs, 3));
  }

  lemma DigitsUnique(b: byte, r: int, c: byte, s: int)
    requires b + 0x100 * r == c + 0x100 * s
    ensures b == c && r == s
  {
  }

  lemma SameMem(m: Mem, n: Mem)
    requires |m| == |n|
    requires forall x | 0 <= x < |m| :: Byte(m, x) == Byte(n, x)
    ensures m == n
  {
    forall x | 0 <= x < |m|
      ensures m[x] == n[x]
    {
      assert Byte(m, x) == Byte(n, x);
    }
  }

  /* C strings */

  /** The characters from address a up to the first NUL. */
  function CString(m: Mem, a: int): (s: string)
    decreases |m| - a
  {
    if a < 0 || a >= |m| || m[a] == 0 then "" else [m[a] as char] + CString(m, a + 1)
  }

  /** A string is the same in two memories that agree on it up to and including its NUL. */
  lemma {:induction false} SameString(m: Mem, n: Mem, a: int)
    requires |m| == |n| && 0 <= a
    requires Agree(m, n, a, a + |CString(m, a)| + 1)
    ensures CString(m, a) == CString(n, a)
    decreases |m| - a
  {
    assert Byte(m, a) == Byte(n, a);
    if a < |m| && m[a] != 0 {
      SameString(m, n, a + 1);
    }
  }

  /** The same, for a string that lies at two different addresses. */
  lemma {:induction false} ShiftedString(m: Mem, a: int, n: Mem, b: int)
    requires 0 <= a && a + |CString(m, a)| < |m|
    requires 0 <= b && b + |CString(m, a)| < |n|
    requires forall x | a <= x <= a + |CString(m, a)| :: Byte(m, x) == Byte(n, x + (b - a))
    ensures CString(m, a) == CString(n, b)
    decreases |m| - a
  {
    assert Byte(m, a) == Byte(n, b);
    if m[a] != 0 {
      ShiftedString(m, a + 1, n, b + 1);
    }
  }

  /* ALIGN_MEM */

  function Pow2(k: nat): (p: nat)
    ensures p > 0
  {
    if k == 0 then 1 else 2 * Pow2(k - 1)
  }

  /** Bitwise and of the low n bits. */
  function BitAnd(x: nat, y: nat, n: nat): (r: nat) {
    if n == 0 then 0
    else 2 * BitAnd(x / 2, y / 2, n - 1) + (if x % 2 == 1 && y % 2 == 1 then 1 else 0)
  }

  lemma {:induction false} AndBelow(x: nat, y: nat, n: nat)
    ensures BitAnd(x, y, n) <= x
  {
    if n > 0 {
      AndBelow(x / 2, y / 2, n - 1);
    }
  }

  /** ALIGN_MEM(x, align) on unsigned 32-bit operands. */
  function AlignMem(x: word, align: word): (r: word) {
    var mask := Add(align, -1);
    AndBelow(Add(x, mask), SPACE - 1 - mask, 32);
    BitAnd(Add(x, mask), SPACE - 1 - mask, 32)
  }

  lemma {:induction false} AndAllOnes(y: nat, n: nat)
    requires y < Pow2(n)
    ensures BitAnd(y, Pow2(n) - 1, n) == y
  {
    if n > 0 {
      AndAllOnes(y / 2, n - 1);
      assert (Pow2(n) - 1) / 2 == Pow2(n - 1) - 1;
    }
  }

  lemma AndEvenMask(y: nat, half: nat, n: nat)
    requires n > 0
    ensures BitAnd(y, 2 * half, n) == 2 * BitAnd(y / 2, half, n - 1)
  {
  }

  lemma DoubleProduct(q: int, p: int)
    ensures q * (2 * p) == 2 * (q * p)
  {
  }

  /** Masking off the low k bits rounds down to a multiple of 2^k. */
  lemma {:induction false} AndHighMask(y: nat, k: nat, n: nat) returns (q: nat)
    requires k <= n && y < Pow2(n)
    ensures Pow2(k) <= Pow2(n)
    ensures BitAnd(y, Pow2(n) - Pow2(k), n) == q * Pow2(k)
    ensures q * Pow2(k) <= y < q * Pow2(k) + Pow2(k)
    decreases n
  {
    if k == 0 {
      AndAllOnes(y, n);
      q := y;
    } else {
      q := AndHighMask(y / 2, k - 1, n - 1);
      AndEvenMask(y, Pow2(n - 1) - Pow2(k - 1), n);
      DoubleProduct(q, Pow2(k - 1));
    }
  }

  lemma Pow2At32()
    ensures Pow2(32) == SPACE
  {
    assert Pow2(8) == 0x100;
    assert Pow2(16) == 0x1_0000;
    assert Pow2(24) == 0x100_0000;
  }

  lemma AlignQuotient(x: word, k: nat) returns (q: nat)
    requires Pow2(k) < SPACE && x + Pow2(k) - 1 < SPACE
    requires k <= 32
    ensures AlignMem(x, Pow2(k)) == q * Pow2(k)
    ensures x <= q * Pow2(k) < x + Pow2(k)
  {
    hide Pow2, BitAnd;
    Pow2At32();
    var p := Pow2(k);
    q := AndHighMask(x + p - 1, k, 32);
    assert Add(p, -1) == p - 1 && Add(x, p - 1) == x + p - 1;
    assert SPACE - 1 - (p - 1) == Pow2(32) - p;
  }

  lemma {:induction false} TimesMonotone(a: int, b: int, p: int)
    requires a <= b && 0 <= p
    ensures a * p <= b * p
    decreases b - a
  {
    if a < b {
      TimesMonotone(a + 1, b, p);
      assert (a + 1) * p == a * p + p;
    }
  }

  lemma LeastMultiple(x: int, p: int, q: int, q': int)
    requires 0 < p && q * p < x + p && x <= q' * p
    ensures q * p <= q' * p
  {
    if q <= q' {
      TimesMonotone(q, q', p);
    } else {
      TimesMonotone(q' + 1, q, p);
      assert false;
    }
  }

  /** For a power of two, and when the sum does not wrap, ALIGN_MEM(x, align) is the least
      multiple of align that is at least x. */
  lemma {:induction false} AlignIsLeastMultiple(x: word, k: nat)
    requires k < 32 && Pow2(k) < SPACE
    requires x + Pow2(k) - 1 < SPACE
    ensures x <= AlignMem(x, Pow2(k)) < x + Pow2(k)
    ensures exists q: nat :: AlignMem(x, Pow2(k)) == q * Pow2(k)
    ensures forall q: nat :: x <= q * Pow2(k) ==> AlignMem(x, Pow2(k)) <= q * Pow2(k)
  {
    var q := AlignQuotient(x, k);
    forall q': nat | x <= q' * Pow2(k)
      ensures AlignMem(x, Pow2(k)) <= q' * Pow2(k)
    {
      LeastMultiple(x, Pow2(k), q, q');
    }
  }

  /** p_align == 0, which the ELF format allows, rounds every size to 0. */
  lemma AlignZero(x: word)
    ensures AlignMem(x, 0) == 0
  {
    AndZero(Add(x, SPACE - 1), 32);
  }

  lemma {:induction false} AndZero(x: nat, n: nat)
    ensures BitAnd(x, 0, n) == 0
  {
    if n > 0 {
      AndZero(x / 2, n - 1);
    }
  }
}
