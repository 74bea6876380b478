/**
  The Internet checksum of section 1 of RFC 1071: the one's complement of the one's
  complement sum of the 16-bit words, an odd last byte being padded with a zero.
 */
module Checksum {
  import opened Net

  /** The sum of the big-endian words before the carries are folded back in. */
  function WordSum(b: Bytes): nat {
    if |b| == 0 then 0
    else if |b| == 1 then b[0] * 256
    else b[0] * 256 + b[1] + WordSum(b[2..])
  }

  /** End-around carry: add the high half to the low half until 16 bits are left. */
  function Fold(n: nat): nat
    decreases n
  {
    if n < 65536 then n else Fold(n / 65536 + n % 65536)
  }

  function Checksum(b: Bytes): (c: Word)
  {
    FoldFits(WordSum(b));
    65535 - Fold(WordSum(b))
  }

  /** What a receiver tests: the sum with the checksum in place is all ones. */
  predicate Verifies(b: Bytes) {
    Fold(WordSum(b)) == 65535
  }

  /** Folding computes the residue modulo 2^16 - 1 and tells zero from all ones. */
  lemma {:induction false} FoldIsResidue(n: nat) returns (q: nat)
    ensures n == 65535 * q + Fold(n)
    ensures 0 <= Fold(n) < 65536
    ensures Fold(n) == 0 <==> n == 0
    decreases n
  {
    if n < 65536 {
      q := 0;
    } else {
      q := FoldIsResidue(n / 65536 + n % 65536);
      q := q + n / 65536;
    }
  }

  lemma {:induction false} WordSumAppend(a: Bytes, b: Bytes)
    requires |a| % 2 == 0
    ensures WordSum(a + b) == WordSum(a) + WordSum(b)
  {
    if a == [] {
      assert a + b == b;
    } else {
      assert (a + b)[2..] == a[2..] + b;
      WordSumAppend(a[2..], b);
    }
  }

  /** The same sum byte by byte: bytes at even positions are the high halves of their words. */
  function ByteSum(b: Bytes): nat {
    if b == [] then 0
    else ByteSum(b[..|b| - 1]) + (b[|b| - 1] as int) * (if |b| % 2 == 1 then 256 else 1)
  }

  lemma {:induction false} WordSumOfNext(b: Bytes, x: Byte)
    ensures WordSum(b + [x]) == WordSum(b) + (x as int) * (if |b| % 2 == 0 then 256 else 1)
  {
    if |b| == 1 {
      assert (b + [x])[2..] == [];
    } else if |b| > 1 {
      assert (b + [x])[2..] == b[2..] + [x];
      WordSumOfNext(b[2..], x);
    }
  }

  lemma {:induction false} WordSumIsByteSum(b: Bytes)
    ensures WordSum(b) == ByteSum(b)
  {
    if b != [] {
      WordSumIsByteSum(b[..|b| - 1]);
      WordSumOfNext(b[..|b| - 1], b[|b| - 1]);
      assert b[..|b| - 1] + [b[|b| - 1]] == b;
    }
  }

  /** A zero after the last byte changes nothing: a block of odd length is summed as if it were padded. */
  lemma PaddingIsNeutral(b: Bytes)
    ensures WordSum(b + [0]) == WordSum(b)
  {
    WordSumOfNext(b, 0);
  }

  /** What a receiver tests, in plain arithmetic: a multiple of 2^16 - 1 other than zero. */
  lemma VerifiesIff(b: Bytes)
    ensures Verifies(b) <==> ByteSum(b) > 0 && ByteSum(b) % 65535 == 0
  {
    WordSumIsByteSum(b);
    var n := WordSum(b);
    var q := FoldIsResidue(n);
    MultipleIff(n, q, Fold(n));
  }

  lemma MultipleIff(n: nat, q: nat, f: nat)
    requires n == 65535 * q + f && f < 65536 && (f == 0 <==> n == 0)
    ensures f == 65535 <==> n > 0 && n % 65535 == 0
  {
    if f == 65535 { assert n == 65535 * (q + 1); }
  }

  lemma WordSumOfWord(w: Word)
    ensures WordSum(PutWord(w)) == w
  {
    assert PutWord(w)[2..] == [];
  }

  lemma FoldFits(n: nat)
    ensures 0 <= Fold(n) < 65536
  {
    var _ := FoldIsResidue(n);
  }

  /** The position-wise split of a block with a 16-bit field at an even offset. */
  lemma WordSumAround(pre: Bytes, w: Word, post: Bytes)
    requires |pre| % 2 == 0
    ensures WordSum(pre + PutWord(w) + post) == WordSum(pre) + w + WordSum(post)
  {
    WordSumAppend(pre + PutWord(w), post);
    WordSumAppend(pre, PutWord(w));
    WordSumOfWord(w);
  }

  /**
    Writing the checksum of the block-with-a-zero-field into the field makes the block verify,
    whatever surrounds it and however long it is. The all-ones form of a zero checksum, which
    UDP transmits instead (RFC 768), verifies as well.
   */
  lemma ChecksumVerifies(pre: Bytes, post: Bytes)
    requires |pre| % 2 == 0
    requires WordSum(pre) > 0
    ensures Verifies(pre + PutWord(Checksum(pre + PutWord(0) + post)) + post)
    ensures Checksum(pre + PutWord(0) + post) == 0 ==> Verifies(pre + PutWord(65535) + post)
  {
    var s := WordSum(pre + PutWord(0) + post);
    var c := Checksum(pre + PutWord(0) + post);
    WordSumAround(pre, 0, post);
    WordSumAround(pre, c, post);
    WordSumAround(pre, 65535, post);
    CompletesToAllOnes(s);
    var blank, full := pre + PutWord(c) + post, pre + PutWord(65535) + post;
    assert WordSum(blank) == s + 65535 - Fold(s);
    assert WordSum(full) == s + 65535;
  }

  /** Two sums that differ by less than a full turn and fold to non-zero words fold alike. */
  lemma SameFold(q: nat, f: nat, p: nat, g: nat, distance: int)
    requires 0 < f < 65536 && 0 < g < 65536
    requires 65535 * q + f + distance == 65535 * p + g
    ensures distance == 65535 - f ==> g == 65535
    ensures distance == 65535 ==> g == f
    ensures f == 65535 && -65535 < distance < 65535 ==> (g == 65535 <==> distance == 0)
  {
  }

  lemma CompletesToAllOnes(s: nat)
    requires s > 0
    ensures 0 < Fold(s) < 65536
    ensures Fold(s + 65535 - Fold(s)) == 65535
    ensures Fold(s + 65535) == Fold(s)
  {
    var q := FoldIsResidue(s);
    var t, u := s + 65535 - Fold(s), s + 65535;
    var p := FoldIsResidue(t);
    SameFold(q, Fold(s), p, Fold(t), 65535 - Fold(s));
    var r := FoldIsResidue(u);
    SameFold(q, Fold(s), r, Fold(u), 65535);
  }

  /** 0x0000 and 0xFFFF are the same number in one's complement. */
  predicate SameOnesWord(v: Word, w: Word) {
    v == w || (v == 0 && w == 65535) || (v == 65535 && w == 0)
  }

  /**
    Replacing one word of a block that verifies is noticed exactly when the new word
    is another number in one's complement.
   */
  lemma OneWordErrorIsNoticed(pre: Bytes, good: Word, bad: Word, post: Bytes)
    requires |pre| % 2 == 0
    requires Verifies(pre + PutWord(good) + post)
    requires WordSum(pre) > 0
    ensures Verifies(pre + PutWord(bad) + post) <==> SameOnesWord(good, bad)
  {
    hide Fold, WordSum;
    WordSumAround(pre, good, post);
    WordSumAround(pre, bad, post);
    var g, b := WordSum(pre) + good + WordSum(post), WordSum(pre) + bad + WordSum(post);
    var q := FoldIsResidue(g);
    var p := FoldIsResidue(b);
    SameFold(q, Fold(g), p, Fold(b), bad - good);
    if good != bad && SameOnesWord(good, bad) {
      WrapsAround(q, Fold(g), p, Fold(b), bad - good);
    }
  }

  lemma WrapsAround(q: nat, f: nat, p: nat, g: nat, distance: int)
    requires 0 < f < 65536 && 0 < g < 65536
    requires 65535 * q + f + distance == 65535 * p + g
    requires distance == 65535 || distance == -65535
    ensures g == f
  {
  }
}
