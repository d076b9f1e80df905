/**
 * Bits over GF(2): the value-level view of the library's packed bit vectors.
 *
 * A vector of the library is an array of 64-bit words; bit n lives in word
 * n >> 6 at position n & 63 (written here as n / 64 and n % 64).  A word is
 * modelled by its 64 bits, position 0 first.  This module defines the
 * unpacking of a word sequence into one bit sequence, the boolean operations
 * on bit sequences (XOR is addition and AND is multiplication in GF(2)), the
 * word-wise operations the library performs, and proves that the word-wise
 * operations act bit by bit.
 */
module GF2 {

  /** Number of bits in one machine word (`unsigned long long`). */
  const WordSize: nat := 64

  /** One 64-bit word, as its bits: bit k is `(w & (1ul << k)) != 0`. */
  type Word = w: seq<bool> | |w| == WordSize witness seq(64, k => false)

  /** The all-zero bit sequence of length n. */
  function Zeros(n: nat): (s: seq<bool>)
    ensures |s| == n
    ensures forall i :: 0 <= i < n ==> !s[i]
  {
    seq(n, i => false)
  }

  /** The all-one bit sequence of length n. */
  function Ones(n: nat): (s: seq<bool>)
    ensures |s| == n
    ensures forall i :: 0 <= i < n ==> s[i]
  {
    seq(n, i => true)
  }

  /** The zero word. */
  function ZeroWord(): Word
  {
    Zeros(WordSize)
  }

  predicate IsZero(s: seq<bool>)
  {
    forall i :: 0 <= i < |s| ==> !s[i]
  }

  function Xor(a: seq<bool>, b: seq<bool>): (r: seq<bool>)
    requires |a| == |b|
    ensures |r| == |a|
    ensures forall i :: 0 <= i < |a| ==> r[i] == (a[i] != b[i])
  {
    seq(|a|, i requires 0 <= i < |a| => a[i] != b[i])
  }

  function And(a: seq<bool>, b: seq<bool>): (r: seq<bool>)
    requires |a| == |b|
    ensures |r| == |a|
    ensures forall i :: 0 <= i < |a| ==> r[i] == (a[i] && b[i])
  {
    seq(|a|, i requires 0 <= i < |a| => a[i] && b[i])
  }

  function Or(a: seq<bool>, b: seq<bool>): (r: seq<bool>)
    requires |a| == |b|
    ensures |r| == |a|
    ensures forall i :: 0 <= i < |a| ==> r[i] == (a[i] || b[i])
  {
    seq(|a|, i requires 0 <= i < |a| => a[i] || b[i])
  }

  /** Number of set bits. */
  function Count(s: seq<bool>): nat
  {
    if s == [] then 0 else Count(s[..|s| - 1]) + (if s[|s| - 1] then 1 else 0)
  }

  /** XOR of all bits, accumulated from the front. */
  function Parity(s: seq<bool>): bool
  {
    if s == [] then false else Parity(s[..|s| - 1]) != s[|s| - 1]
  }

  /** The GF(2) inner product: the parity of the bitwise AND. */
  function Dot(a: seq<bool>, b: seq<bool>): bool
    requires |a| == |b|
  {
    Parity(And(a, b))
  }

  // ---------------------------------------------------------------------
  // Packing: a sequence of words and the bits it holds

  /** The bits of a packed word sequence: bit i is bit `i & 63` of word `i >> 6`. */
  function Unpack(ws: seq<Word>): (s: seq<bool>)
    ensures |s| == WordSize * |ws|
    ensures forall i :: 0 <= i < |s| ==> s[i] == ws[i / WordSize][i % WordSize]
  {
    seq(WordSize * |ws|, i requires 0 <= i < WordSize * |ws| => ws[i / WordSize][i % WordSize])
  }

  /** n zero words. */
  function ZeroWords(n: nat): (r: seq<Word>)
    ensures |r| == n
  {
    seq(n, i => ZeroWord())
  }

  function XorWords(a: seq<Word>, b: seq<Word>): (r: seq<Word>)
    requires |a| == |b|
    ensures |r| == |a|
  {
    seq(|a|, i requires 0 <= i < |a| => Xor(a[i], b[i]))
  }

  function AndWords(a: seq<Word>, b: seq<Word>): (r: seq<Word>)
    requires |a| == |b|
    ensures |r| == |a|
  {
    seq(|a|, i requires 0 <= i < |a| => And(a[i], b[i]))
  }

  function OrWords(a: seq<Word>, b: seq<Word>): (r: seq<Word>)
    requires |a| == |b|
    ensures |r| == |a|
  {
    seq(|a|, i requires 0 <= i < |a| => Or(a[i], b[i]))
  }

  /** `_bits[n >> 6] |= 1ul << (n & 63)` */
  function SetWords(ws: seq<Word>, n: nat): (r: seq<Word>)
    requires n < WordSize * |ws|
    ensures |r| == |ws|
  {
    ws[n / WordSize := ws[n / WordSize][n % WordSize := true]]
  }

  /** `_bits[n >> 6] &= ~(1ul << (n & 63))` */
  function ClearWords(ws: seq<Word>, n: nat): (r: seq<Word>)
    requires n < WordSize * |ws|
    ensures |r| == |ws|
  {
    ws[n / WordSize := ws[n / WordSize][n % WordSize := false]]
  }

  /** XOR of all words of a sequence, the accumulator of `parity()`. */
  function FoldXor(ws: seq<Word>): Word
  {
    if ws == [] then ZeroWord() else Xor(FoldXor(ws[..|ws| - 1]), ws[|ws| - 1])
  }

  // ---------------------------------------------------------------------
  // Word-wise operations act bit by bit

  lemma UnpackXor(a: seq<Word>, b: seq<Word>)
    requires |a| == |b|
    ensures Unpack(XorWords(a, b)) == Xor(Unpack(a), Unpack(b))
  {
  }

  lemma UnpackAnd(a: seq<Word>, b: seq<Word>)
    requires |a| == |b|
    ensures Unpack(AndWords(a, b)) == And(Unpack(a), Unpack(b))
  {
  }

  lemma UnpackOr(a: seq<Word>, b: seq<Word>)
    requires |a| == |b|
    ensures Unpack(OrWords(a, b)) == Or(Unpack(a), Unpack(b))
  {
  }

  /** Bits i and n of the same word are the same bit exactly when i == n. */
  lemma SameWord(i: nat, n: nat)
    requires i / WordSize == n / WordSize
    ensures (i % WordSize == n % WordSize) == (i == n)
  {
  }

  /** Setting bit n sets that bit and no other. */
  lemma UnpackSet(ws: seq<Word>, n: nat)
    requires n < WordSize * |ws|
    ensures Unpack(SetWords(ws, n)) == Unpack(ws)[n := true]
  {
    forall i | 0 <= i < WordSize * |ws|
      ensures Unpack(SetWords(ws, n))[i] == Unpack(ws)[n := true][i]
    {
      if i / WordSize == n / WordSize {
        SameWord(i, n);
      }
    }
  }

  /** Clearing bit n clears that bit and no other. */
  lemma UnpackClear(ws: seq<Word>, n: nat)
    requires n < WordSize * |ws|
    ensures Unpack(ClearWords(ws, n)) == Unpack(ws)[n := false]
  {
    forall i | 0 <= i < WordSize * |ws|
      ensures Unpack(ClearWords(ws, n))[i] == Unpack(ws)[n := false][i]
    {
      if i / WordSize == n / WordSize {
        SameWord(i, n);
      }
    }
  }

  lemma UnpackZero(n: nat)
    ensures Unpack(ZeroWords(n)) == Zeros(WordSize * n)
  {
  }

  /** The packing is one-to-one: equal bits mean equal words. */
  lemma UnpackInjective(a: seq<Word>, b: seq<Word>)
    requires |a| == |b|
    ensures (Unpack(a) == Unpack(b)) == (a == b)
  {
    if Unpack(a) == Unpack(b) {
      forall q | 0 <= q < |a| ensures a[q] == b[q] {
        forall k | 0 <= k < WordSize ensures a[q][k] == b[q][k] {
          var i := WordSize * q + k;
          assert i / WordSize == q && i % WordSize == k;
          assert Unpack(a)[i] == Unpack(b)[i];
        }
      }
    }
  }

  /** A packed vector has no bit set exactly when all its words are zero. */
  lemma UnpackIsZero(ws: seq<Word>)
    ensures IsZero(Unpack(ws)) == (ws == ZeroWords(|ws|))
  {
    UnpackZero(|ws|);
    UnpackInjective(ws, ZeroWords(|ws|));
    if IsZero(Unpack(ws)) {
      assert Unpack(ws) == Zeros(WordSize * |ws|);
    }
  }

  /** The words a..b hold the bits 64a..64b. */
  lemma UnpackSlice(ws: seq<Word>, a: nat, b: nat)
    requires a <= b <= |ws|
    ensures Unpack(ws[a..b]) == Unpack(ws)[WordSize * a..WordSize * b]
  {
    forall i | 0 <= i < WordSize * (b - a)
      ensures Unpack(ws[a..b])[i] == Unpack(ws)[WordSize * a + i]
    {
      assert (WordSize * a + i) / WordSize == a + i / WordSize;
      assert (WordSize * a + i) % WordSize == i % WordSize;
    }
  }

  lemma UnpackAppend(ws: seq<Word>, vs: seq<Word>)
    ensures Unpack(ws + vs) == Unpack(ws) + Unpack(vs)
  {
    forall i | 0 <= i < WordSize * (|ws| + |vs|)
      ensures Unpack(ws + vs)[i] == (Unpack(ws) + Unpack(vs))[i]
    {
      if i >= WordSize * |ws| {
        assert (i - WordSize * |ws|) / WordSize == i / WordSize - |ws|;
        assert (i - WordSize * |ws|) % WordSize == i % WordSize;
      }
    }
  }

  // ---------------------------------------------------------------------
  // Parity

  lemma {:induction false} ParityAppend(a: seq<bool>, b: seq<bool>)
    ensures Parity(a + b) == (Parity(a) != Parity(b))
    decreases |b|
  {
    if b != [] {
      assert (a + b)[..|a + b| - 1] == a + b[..|b| - 1];
      ParityAppend(a, b[..|b| - 1]);
    } else {
      assert a + b == a;
    }
  }

  /** `parity()` is true iff an odd number of bits are set. */
  lemma {:induction false} ParityIsOddCount(s: seq<bool>)
    ensures Parity(s) == (Count(s) % 2 == 1)
  {
    if s != [] {
      ParityIsOddCount(s[..|s| - 1]);
    }
  }

  /** The parity of a bitwise XOR is the XOR of the parities. */
  lemma {:induction false} ParityXor(a: seq<bool>, b: seq<bool>)
    requires |a| == |b|
    ensures Parity(Xor(a, b)) == (Parity(a) != Parity(b))
  {
    if a != [] {
      var n := |a| - 1;
      assert Xor(a, b)[..n] == Xor(a[..n], b[..n]);
      ParityXor(a[..n], b[..n]);
    }
  }

  lemma {:induction false} ParityZeros(n: nat)
    ensures !Parity(Zeros(n))
  {
    if n > 0 {
      assert Zeros(n)[..n - 1] == Zeros(n - 1);
      ParityZeros(n - 1);
    }
  }

  /** The parity of a packed vector is that of the XOR of its words. */
  lemma {:induction false} ParityFoldXor(ws: seq<Word>)
    ensures Parity(Unpack(ws)) == Parity(FoldXor(ws))
  {
    if ws == [] {
      ParityZeros(WordSize);
    } else {
      var n := |ws| - 1;
      assert ws == ws[..n] + [ws[n]];
      UnpackAppend(ws[..n], [ws[n]]);
      assert Unpack([ws[n]]) == ws[n];
      ParityAppend(Unpack(ws[..n]), ws[n]);
      ParityFoldXor(ws[..n]);
      ParityXor(FoldXor(ws[..n]), ws[n]);
    }
  }

  // ---------------------------------------------------------------------
  // The inner product

  /** `dot` over a prefix extends by one AND-ed bit. */
  lemma DotPrefix(a: seq<bool>, b: seq<bool>, i: nat)
    requires |a| == |b| && i < |a|
    ensures Dot(a[..i + 1], b[..i + 1]) == (Dot(a[..i], b[..i]) != (a[i] && b[i]))
  {
    assert And(a[..i + 1], b[..i + 1])[..i] == And(a[..i], b[..i]);
  }

  /** The inner product is linear in its first argument. */
  lemma DotXor(a: seq<bool>, b: seq<bool>, v: seq<bool>)
    requires |a| == |b| == |v|
    ensures Dot(Xor(a, b), v) == (Dot(a, v) != Dot(b, v))
  {
    assert And(Xor(a, b), v) == Xor(And(a, v), And(b, v));
    ParityXor(And(a, v), And(b, v));
  }

  lemma DotZeros(v: seq<bool>)
    ensures !Dot(Zeros(|v|), v)
  {
    assert And(Zeros(|v|), v) == Zeros(|v|);
    ParityZeros(|v|);
  }

  lemma DotSymmetric(a: seq<bool>, b: seq<bool>)
    requires |a| == |b|
    ensures Dot(a, b) == Dot(b, a)
  {
    assert And(a, b) == And(b, a);
  }

  // ---------------------------------------------------------------------
  // Laws of XOR and AND

  /** XOR with zero changes nothing; AND with zero gives zero. */
  lemma ZeroLaws(a: seq<bool>)
    ensures Xor(a, Zeros(|a|)) == a && Xor(Zeros(|a|), a) == a
    ensures And(Zeros(|a|), a) == Zeros(|a|) && And(a, Zeros(|a|)) == Zeros(|a|)
  {
  }

  /** XOR of two concatenations is the concatenation of the XORs. */
  lemma XorConcat(a: seq<bool>, b: seq<bool>, c: seq<bool>, d: seq<bool>)
    requires |a| == |c| && |b| == |d|
    ensures Xor(a + b, c + d) == Xor(a, c) + Xor(b, d)
  {
  }

  /** XOR of three-block concatenations, block by block. */
  lemma XorConcat3(a1: seq<bool>, a2: seq<bool>, a3: seq<bool>, b1: seq<bool>, b2: seq<bool>, b3: seq<bool>)
    requires |a1| == |b1| && |a2| == |b2| && |a3| == |b3|
    ensures Xor(a1 + a2 + a3, b1 + b2 + b3) == Xor(a1, b1) + Xor(a2, b2) + Xor(a3, b3)
  {
    XorConcat(a1 + a2, a3, b1 + b2, b3);
    XorConcat(a1, a2, b1, b2);
  }

  /** Zeros of a sum of lengths are the zeros of each length, concatenated. */
  lemma ZerosConcat(m: nat, n: nat)
    ensures Zeros(m + n) == Zeros(m) + Zeros(n)
  {
  }

  lemma XorSelf(a: seq<bool>)
    ensures Xor(a, a) == Zeros(|a|)
  {
  }

  lemma XorCommutes(a: seq<bool>, b: seq<bool>)
    requires |a| == |b|
    ensures Xor(a, b) == Xor(b, a)
  {
  }

  lemma XorAssociates(a: seq<bool>, b: seq<bool>, c: seq<bool>)
    requires |a| == |b| == |c|
    ensures Xor(Xor(a, b), c) == Xor(a, Xor(b, c))
  {
  }
}
