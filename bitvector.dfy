/**
 * `BitVector<N>`: a bit vector packed into N 64-bit words.
 *
 * The words live in an array that the methods update in place, as the
 * `_bits` member does.  The ghost function `Bits()` unpacks them into the
 * vector's 64·N bits; every operation is specified against that view.
 */
module BitVectors {
  import opened GF2

  class BitVector {
    /** The packed words (`_bits`); N is `words.Length`. */
    const words: array<Word>

    /** The bits the words hold, bit n at word n / 64, position n % 64. */
    ghost function Bits(): (s: seq<bool>)
      reads this, words
      ensures |s| == WordSize * words.Length
    {
      Unpack(words[..])
    }

    /** A new vector of N words, all bits clear. */
    constructor (N: nat)
      ensures words.Length == N && fresh(words)
      ensures Bits() == Zeros(WordSize * N)
    {
      words := new Word[N](i => ZeroWord());
      new;
      UnpackZero(N);
      assert words[..] == ZeroWords(N);
    }

    /** The copy constructor: a fresh vector with the same bits. */
    constructor Copy(v: BitVector)
      ensures words.Length == v.words.Length && fresh(words)
      ensures Bits() == v.Bits()
    {
      var a := new Word[v.words.Length];
      var i := 0;
      while i < v.words.Length
        invariant 0 <= i <= v.words.Length
        invariant a[..i] == v.words[..i]
      {
        a[i] := v.words[i];
        i := i + 1;
      }
      words := a;
      new;
      assert words[..] == v.words[..];
    }

    /** `length()`: the number of bits, 64·N. */
    function Length(): (n: nat)
      reads this
      ensures n == WordSize * words.Length
    {
      WordSize * words.Length
    }

    /** `get(n)`: bit n & 63 of word n >> 6. */
    function Get(n: nat): (b: bool)
      reads this, words
      requires n < Length()
      ensures b == Bits()[n]
    {
      words[n / WordSize][n % WordSize]
    }

    /** `set(n)`: sets bit n and no other. */
    method Set(n: nat)
      requires n < Length()
      modifies words
      ensures Bits() == old(Bits())[n := true]
    {
      ghost var before := words[..];
      words[n / WordSize] := words[n / WordSize][n % WordSize := true];
      assert words[..] == SetWords(before, n);
      UnpackSet(before, n);
    }

    /** `clear(n)`: clears bit n and no other. */
    method Clear(n: nat)
      requires n < Length()
      modifies words
      ensures Bits() == old(Bits())[n := false]
    {
      ghost var before := words[..];
      words[n / WordSize] := words[n / WordSize][n % WordSize := false];
      assert words[..] == ClearWords(before, n);
      UnpackClear(before, n);
    }

    /** `swap(i, j)`: bit j receives the old bit i and bit i the old bit j. */
    method Swap(i: nat, j: nat)
      requires i < Length() && j < Length()
      modifies words
      ensures Bits() == old(Bits())[j := old(Bits())[i]][i := old(Bits())[j]]
    {
      var first := Get(i);
      var second := Get(j);
      if first { Set(j); } else { Clear(j); }
      if second { Set(i); } else { Clear(i); }
    }

    /** `operator&`: a new vector whose words are the word-wise AND. */
    method AndOp(rhs: BitVector) returns (r: BitVector)
      requires rhs.words.Length == words.Length
      ensures fresh(r) && fresh(r.words) && r.words.Length == words.Length
      ensures r.Bits() == And(Bits(), rhs.Bits())
    {
      r := new BitVector(words.Length);
      var i := 0;
      while i < words.Length
        invariant 0 <= i <= words.Length
        invariant r.words[..i] == AndWords(words[..i], rhs.words[..i])
      {
        r.words[i] := And(words[i], rhs.words[i]);
        i := i + 1;
      }
      assert words[..i] == words[..] && rhs.words[..i] == rhs.words[..];
      UnpackAnd(words[..], rhs.words[..]);
    }

    /** `operator|`: a new vector whose words are the word-wise OR. */
    method OrOp(rhs: BitVector) returns (r: BitVector)
      requires rhs.words.Length == words.Length
      ensures fresh(r) && fresh(r.words) && r.words.Length == words.Length
      ensures r.Bits() == Or(Bits(), rhs.Bits())
    {
      r := new BitVector(words.Length);
      var i := 0;
      while i < words.Length
        invariant 0 <= i <= words.Length
        invariant r.words[..i] == OrWords(words[..i], rhs.words[..i])
      {
        r.words[i] := Or(words[i], rhs.words[i]);
        i := i + 1;
      }
      assert words[..i] == words[..] && rhs.words[..i] == rhs.words[..];
      UnpackOr(words[..], rhs.words[..]);
    }

    /** `operator^`: a new vector whose words are the word-wise XOR. */
    method XorOp(rhs: BitVector) returns (r: BitVector)
      requires rhs.words.Length == words.Length
      ensures fresh(r) && fresh(r.words) && r.words.Length == words.Length
      ensures r.Bits() == Xor(Bits(), rhs.Bits())
    {
      r := new BitVector(words.Length);
      var i := 0;
      while i < words.Length
        invariant 0 <= i <= words.Length
        invariant r.words[..i] == XorWords(words[..i], rhs.words[..i])
      {
        r.words[i] := Xor(words[i], rhs.words[i]);
        i := i + 1;
      }
      assert words[..i] == words[..] && rhs.words[..i] == rhs.words[..];
      UnpackXor(words[..], rhs.words[..]);
    }

    /** `operator=`: copies rhs's words into this vector. */
    method Assign(rhs: BitVector)
      requires rhs.words.Length == words.Length
      modifies words
      ensures Bits() == old(rhs.Bits())
    {
      ghost var b := rhs.words[..];
      var i := 0;
      while i < words.Length
        invariant 0 <= i <= words.Length
        invariant words[..i] == b[..i]
        invariant forall j | i <= j < words.Length :: rhs.words[j] == b[j]
      {
        words[i] := rhs.words[i];
        i := i + 1;
      }
      assert words[..] == b;
    }

    /** `operator^=`: XORs rhs into this vector word by word; rhs may be this vector. */
    method XorAssign(rhs: BitVector)
      requires rhs.words.Length == words.Length
      modifies words
      ensures Bits() == Xor(old(Bits()), old(rhs.Bits()))
    {
      ghost var a := words[..];
      ghost var b := rhs.words[..];
      var i := 0;
      while i < words.Length
        invariant 0 <= i <= words.Length
        invariant words[..i] == XorWords(a[..i], b[..i])
        invariant words[i..] == a[i..]
        invariant forall j | i <= j < words.Length :: rhs.words[j] == b[j]
      {
        words[i] := Xor(words[i], rhs.words[i]);
        i := i + 1;
      }
      assert a[..i] == a && b[..i] == b;
      UnpackXor(a, b);
    }

    /** `operator&=`: ANDs rhs into this vector word by word; rhs may be this vector. */
    method AndAssign(rhs: BitVector)
      requires rhs.words.Length == words.Length
      modifies words
      ensures Bits() == And(old(Bits()), old(rhs.Bits()))
    {
      ghost var a := words[..];
      ghost var b := rhs.words[..];
      var i := 0;
      while i < words.Length
        invariant 0 <= i <= words.Length
        invariant words[..i] == AndWords(a[..i], b[..i])
        invariant words[i..] == a[i..]
        invariant forall j | i <= j < words.Length :: rhs.words[j] == b[j]
      {
        words[i] := And(words[i], rhs.words[i]);
        i := i + 1;
      }
      assert a[..i] == a && b[..i] == b;
      UnpackAnd(a, b);
    }

    /** `dot(rhs)`: XOR over all bit positions of `get(i) & rhs.get(i)`. */
    method Dot(rhs: BitVector) returns (result: bool)
      requires rhs.Length() == Length()
      ensures result == GF2.Dot(Bits(), rhs.Bits())
    {
      var n := Length();
      result := false;
      var i := 0;
      while i < n
        invariant 0 <= i <= n
        invariant result == GF2.Dot(Bits()[..i], rhs.Bits()[..i])
      {
        DotPrefix(Bits(), rhs.Bits(), i);
        result := result != (Get(i) && rhs.Get(i));
        i := i + 1;
      }
      assert Bits()[..i] == Bits() && rhs.Bits()[..i] == rhs.Bits();
    }

    /** `equals(rhs)`: false at the first bit where the vectors differ. */
    method Equals(rhs: BitVector) returns (result: bool)
      requires rhs.Length() == Length()
      ensures result == (Bits() == rhs.Bits())
    {
      var n := Length();
      var i := 0;
      while i < n
        invariant 0 <= i <= n
        invariant Bits()[..i] == rhs.Bits()[..i]
      {
        if Get(i) != rhs.Get(i) {
          return false;
        }
        i := i + 1;
      }
      assert Bits()[..i] == Bits() && rhs.Bits()[..i] == rhs.Bits();
      return true;
    }

    /** `operator==`: vectors of different word counts are unequal; otherwise compare word by word. */
    method Eq(rhs: BitVector) returns (result: bool)
      ensures result == (Length() == rhs.Length() && Bits() == rhs.Bits())
    {
      if words.Length != rhs.words.Length {
        return false;
      }
      var i := 0;
      while i < words.Length
        invariant 0 <= i <= words.Length
        invariant words[..i] == rhs.words[..i]
      {
        if words[i] != rhs.words[i] {
          assert words[..] != rhs.words[..] by {
            assert words[..][i] != rhs.words[..][i];
          }
          UnpackInjective(words[..], rhs.words[..]);
          return false;
        }
        i := i + 1;
      }
      assert words[..] == words[..i] && rhs.words[..] == rhs.words[..i];
      return true;
    }

    /** `operator!=`: the negation of `operator==`. */
    method Neq(rhs: BitVector) returns (result: bool)
      ensures result == !(Length() == rhs.Length() && Bits() == rhs.Bits())
    {
      if words.Length != rhs.words.Length {
        return true;
      }
      var i := 0;
      while i < words.Length
        invariant 0 <= i <= words.Length
        invariant words[..i] == rhs.words[..i]
      {
        if words[i] != rhs.words[i] {
          assert words[..] != rhs.words[..] by {
            assert words[..][i] != rhs.words[..][i];
          }
          UnpackInjective(words[..], rhs.words[..]);
          return true;
        }
        i := i + 1;
      }
      assert words[..] == words[..i] && rhs.words[..] == rhs.words[..i];
      return false;
    }

    /** `isZero()`: false at the first non-zero word. */
    method IsZero() returns (result: bool)
      ensures result == GF2.IsZero(Bits())
    {
      UnpackIsZero(words[..]);
      var i := 0;
      while i < words.Length
        invariant 0 <= i <= words.Length
        invariant forall j | 0 <= j < i :: words[j] == ZeroWord()
      {
        if words[i] != ZeroWord() {
          assert words[..][i] != ZeroWords(words.Length)[i];
          return false;
        }
        i := i + 1;
      }
      assert words[..] == ZeroWords(words.Length);
      return true;
    }

    /** `parity()`: the parity of the XOR of all words; true iff an odd number of bits are set. */
    method Parity() returns (result: bool)
      ensures result == GF2.Parity(Bits())
      ensures result == (Count(Bits()) % 2 == 1)
    {
      var accumulator := ZeroWord();
      var i := 0;
      while i < words.Length
        invariant 0 <= i <= words.Length
        invariant accumulator == FoldXor(words[..i])
      {
        assert words[..i + 1][..i] == words[..i];
        accumulator := Xor(accumulator, words[i]);
        i := i + 1;
      }
      assert words[..i] == words[..];
      ParityFoldXor(words[..]);
      result := GF2.Parity(accumulator);
      ParityIsOddCount(Bits());
    }

    /** `zero()`: `&= 0` on every word. */
    method Zero()
      modifies words
      ensures Bits() == Zeros(Length())
    {
      var i := 0;
      while i < words.Length
        invariant 0 <= i <= words.Length
        invariant forall j | 0 <= j < i :: words[j] == ZeroWord()
      {
        words[i] := And(words[i], ZeroWord());
        i := i + 1;
      }
      assert words[..] == ZeroWords(words.Length);
      UnpackZero(words.Length);
    }

    /** `proj2(part)`: a new vector holding half `part` (0 or 1) of this one's N >> 1 word halves. */
    method Proj2(part: nat) returns (r: BitVector)
      requires part == 0 || part == 1
      ensures fresh(r) && fresh(r.words) && r.words.Length == words.Length / 2
      ensures r.Bits() == Bits()[WordSize * (part * (words.Length / 2))..WordSize * ((part + 1) * (words.Length / 2))]
    {
      var m := words.Length / 2;
      r := new BitVector(m);
      var i := 0;
      while i < m
        invariant 0 <= i <= m
        invariant r.words[..i] == words[part * m..part * m + i]
      {
        r.words[i] := words[part * m + i];
        i := i + 1;
      }
      assert r.words[..] == words[part * m..(part + 1) * m];
      UnpackSlice(words[..], part * m, (part + 1) * m);
    }

    /** `proj2(v1, v2)`: copies the first N >> 1 words into v1 and the next N >> 1 into v2. */
    method Proj2Into(v1: BitVector, v2: BitVector)
      requires v1.words.Length == words.Length / 2 && v2.words.Length == words.Length / 2
      modifies v1.words, v2.words
      ensures v1.words != v2.words ==> v1.Bits() == old(Bits())[..WordSize * (words.Length / 2)]
      ensures v2.Bits() == old(Bits())[WordSize * (words.Length / 2)..WordSize * (2 * (words.Length / 2))]
    {
      var m := words.Length / 2;
      ghost var w := words[..];
      assert m < words.Length || m == 0;
      var i := 0;
      while i < m
        invariant 0 <= i <= m
        invariant v1.words[..i] == w[..i]
        invariant words[..] == w
      {
        v1.words[i] := words[i];
        i := i + 1;
      }
      i := 0;
      while i < m
        invariant 0 <= i <= m
        invariant v1.words != v2.words ==> v1.words[..] == w[..m]
        invariant v2.words[..i] == w[m..m + i]
        invariant words[..] == w
      {
        v2.words[i] := words[m + i];
        i := i + 1;
      }
      assert v2.words[..] == w[m..2 * m];
      UnpackSlice(w, 0, m);
      UnpackSlice(w, m, 2 * m);
    }
  }

  /** `BitVector<N>::proj(v, part)`: words part·N … part·N + N − 1 of a 2N-word vector. */
  method Proj(v: BitVector, N: nat, part: nat) returns (r: BitVector)
    requires v.words.Length == 2 * N
    requires part == 0 || part == 1
    ensures fresh(r) && fresh(r.words) && r.words.Length == N
    ensures r.Bits() == v.Bits()[WordSize * (part * N)..WordSize * ((part + 1) * N)]
  {
    r := v.Proj2(part);
  }

  /** `zeroVector()`: the all-zero vector of N words. */
  method ZeroVector(N: nat) returns (r: BitVector)
    ensures fresh(r) && fresh(r.words) && r.words.Length == N
    ensures r.Bits() == Zeros(WordSize * N)
  {
    r := new BitVector(N);
  }
}
