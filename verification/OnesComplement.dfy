/** The Internet checksum of RFC 1071: one's-complement sums of 16-bit words. */
module OnesComplement {
  import opened Bytes

  /** Sum of the big-endian 16-bit words of `s`; an odd last byte is padded with zero. */
  function SumBE(s: seq<Byte>): nat {
    if |s| == 0 then 0
    else if |s| == 1 then Pair(s[0], 0)
    else Be16(s, 0) + SumBE(s[2..])
  }

  /** The same sum over little-endian words, as a little-endian host adds them. */
  function SumLE(s: seq<Byte>): nat {
    if |s| == 0 then 0
    else if |s| == 1 then s[0]
    else Le16(s, 0) + SumLE(s[2..])
  }

  predicate Apart(a: int, b: int, k: int) {
    a == b + 0xffff * k
  }

  /** Equality of one's-complement values, up to the two representations of zero: the numbers
      differ by a multiple of 0xffff. */
  ghost predicate Congruent(a: int, b: int) {
    exists k :: Apart(a, b, k)
  }

  /** How many times 0xffff two congruent numbers are apart. */
  ghost function Times(a: int, b: int): (k: int)
    requires Congruent(a, b)
    ensures a == b + 0xffff * k
  {
    var k :| Apart(a, b, k);
    k
  }

  lemma Shifted(a: int, b: int, k: int)
    requires a == b + 0xffff * k
    ensures Congruent(a, b) && Congruent(b, a)
  {
    assert Apart(a, b, k) && Apart(b, a, -k);
  }

  /** One end-around carry: `(sum & 0xffff) + (sum >> 16)`. */
  function FoldOnce(n: nat): nat {
    n % 0x1_0000 + n / 0x1_0000
  }

  lemma FoldOnceCongruent(n: nat)
    ensures Congruent(FoldOnce(n), n)
    ensures FoldOnce(n) == 0 <==> n == 0
  {
    Shifted(n, FoldOnce(n), n / 0x1_0000);
  }

  /** A sum with its carries folded until none is left. */
  function Carried(n: nat): (r: Word)
    ensures Congruent(r, n)
    ensures r == 0 <==> n == 0
  {
    if n < 0x1_0000 then
      Shifted(n, n, 0);
      n
    else
      FoldOnceCongruent(n);
      var r := Carried(FoldOnce(n));
      Shifted(r, n, Times(r, FoldOnce(n)) + Times(FoldOnce(n), n));
      r
  }

  /** The 16-bit word that has the one's-complement value of a sum, and is zero only for zero. */
  ghost function Fold(n: nat): (r: Word)
    ensures Congruent(r, n)
    ensures r == 0 <==> n == 0
  {
    var w := Carried(n);
    var r: Word :| Congruent(r, n) && (r == 0 <==> n == 0);
    r
  }

  lemma OneWordOnly(a: Word, b: Word, n: nat)
    requires Congruent(a, n) && Congruent(b, n)
    requires (a == 0 <==> n == 0) && (b == 0 <==> n == 0)
    ensures a == b
  {
    var k := Times(a, n) - Times(b, n);
    assert a == b + 0xffff * k;
  }

  /** There is one such word, and folding carries finds it. */
  lemma FoldIsCarried(n: nat)
    ensures Fold(n) == Carried(n)
  {
    OneWordOnly(Fold(n), Carried(n), n);
  }

  /** Two carries are enough for any 32-bit sum. */
  lemma TwoFoldsSuffice(n: nat)
    requires n < 0x1_0000_0000
    ensures FoldOnce(FoldOnce(n)) == Fold(n)
  {
    hide Carried, Fold, Congruent;
    FoldOnceCongruent(n);
    FoldOnceCongruent(FoldOnce(n));
    var m := FoldOnce(n);
    var r := FoldOnce(m);
    assert m <= 0x1_fffe;
    assert r < 0x1_0000;
    Shifted(r, n, Times(r, m) + Times(m, n));
    OneWordOnly(r, Fold(n), n);
  }

  /** `csum_fold_u32`: two carries and a complement finish any 32-bit sum. */
  method CsumFold(accumulated: nat) returns (check: Word)
    requires accumulated < 0x1_0000_0000
    ensures check == 0xffff - Fold(accumulated)
  {
    hide Carried, Fold, Congruent;
    var sum := accumulated;
    sum := sum % 0x1_0000 + sum / 0x1_0000;
    sum := sum % 0x1_0000 + sum / 0x1_0000;
    TwoFoldsSuffice(accumulated);
    check := (0xffff - sum) % 0x1_0000;
  }

  /** Nonzero sums have the same 16-bit value exactly when they are congruent. */
  lemma FoldUnique(a: nat, b: nat)
    requires a > 0 && b > 0
    ensures Fold(a) == Fold(b) <==> Congruent(a, b)
  {
    hide Fold, Congruent;
    var k, l := Times(Fold(a), a), Times(Fold(b), b);
    if Congruent(a, b) {
      assert Fold(a) == Fold(b) + 0xffff * (k + Times(a, b) - l);
    }
    if Fold(a) == Fold(b) {
      Shifted(a, b, l - k);
    }
  }

  /** The checksum field of RFC 1071 for `s`, whose own checksum field holds zero. */
  ghost function Checksum(s: seq<Byte>): Word {
    0xffff - Fold(SumBE(s))
  }

  /** What a receiver tests: the one's-complement sum of everything is all ones. */
  ghost predicate Verifies(s: seq<Byte>) {
    Fold(SumBE(s)) == 0xffff
  }

  /** Section 3.1 of RFC 9293: an odd last byte counts as if a zero byte followed it. */
  lemma {:induction false} OddPadding(s: seq<Byte>)
    requires |s| % 2 == 1
    ensures SumBE(s) == SumBE(s + [0]) && SumLE(s) == SumLE(s + [0])
    decreases |s|
  {
    var padded: seq<Byte> := s + [0];
    if |s| == 1 {
      assert padded[2..] == [];
    } else {
      OddPadding(s[2..]);
      assert padded[2..] == s[2..] + [0];
    }
  }

  lemma VerifiesMeans(n: nat)
    ensures Fold(n) == 0xffff <==> n > 0 && Congruent(n, 0)
  {
    hide Congruent;
    if n > 0 {
      FoldIsCarried(0xffff);
      FoldUnique(n, 0xffff);
      if Congruent(n, 0xffff) {
        Shifted(n, 0, Times(n, 0xffff) + 1);
      }
      if Congruent(n, 0) {
        Shifted(n, 0xffff, Times(n, 0) - 1);
      }
    }
  }

  lemma {:induction false} SumAppend(a: seq<Byte>, b: seq<Byte>)
    requires |a| % 2 == 0
    ensures SumBE(a + b) == SumBE(a) + SumBE(b)
    ensures SumLE(a + b) == SumLE(a) + SumLE(b)
  {
    if a == [] {
      assert a + b == b;
    } else {
      assert (a + b)[2..] == a[2..] + b;
      SumAppend(a[2..], b);
    }
  }

  /** Overwriting the word at an even offset changes the sum by the difference of the words. */
  lemma SumSplice(s: seq<Byte>, i: nat, w: seq<Byte>)
    requires i % 2 == 0 && |w| == 2 && i + 2 <= |s|
    ensures SumBE(Splice(s, i, w)) == SumBE(s) - Be16(s, i) + Be16(w, 0)
    ensures SumLE(Splice(s, i, w)) == SumLE(s) - Le16(s, i) + Le16(w, 0)
  {
    SumAround(s, i);
    SumAround(Splice(s, i, w), i);
    assert Splice(s, i, w)[..i] == s[..i];
    assert Splice(s, i, w)[i + 2..] == s[i + 2..];
    assert Splice(s, i, w)[i..i + 2] == w;
  }

  lemma SumAround(s: seq<Byte>, i: nat)
    requires i % 2 == 0 && i + 2 <= |s|
    ensures SumBE(s) == SumBE(s[..i]) + Be16(s, i) + SumBE(s[i + 2..])
    ensures SumLE(s) == SumLE(s[..i]) + Le16(s, i) + SumLE(s[i + 2..])
  {
    assert s == s[..i] + s[i..];
    SumAppend(s[..i], s[i..]);
    assert s[i..][2..] == s[i + 2..];
  }

  /** Section 2(B) of RFC 1071: summing in the other byte order swaps the bytes of the sum. */
  lemma {:induction false} SumByteOrder(s: seq<Byte>)
    ensures Congruent(SumBE(s), 0x100 * SumLE(s))
    ensures SumBE(s) == 0 <==> SumLE(s) == 0
  {
    if s == [] {
      Shifted(0, 0, 0);
    } else if |s| == 1 {
      Shifted(SumBE(s), 0x100 * SumLE(s), 0);
    } else {
      SumByteOrder(s[2..]);
      var k: int := s[1];
      Shifted(SumBE(s), 0x100 * SumLE(s), Times(SumBE(s[2..]), 0x100 * SumLE(s[2..])) - k);
    }
  }

  function SwapBytes(w: Word): Word {
    Pair(w % 0x100, w / 0x100)
  }

  lemma SwapCongruent(w: Word)
    ensures Congruent(SwapBytes(w), 0x100 * w)
    ensures w == 0 <==> SwapBytes(w) == 0
    ensures PutBe16(SwapBytes(w)) == PutLe16(w)
  {
    hide Congruent;
    var hi, lo := w / 0x100, w % 0x100;
    PairParts(lo, hi);
    Shifted(Pair(lo, hi), 0x100 * Pair(hi, lo), -hi);
  }

  lemma PairParts(hi: Byte, lo: Byte)
    ensures Pair(hi, lo) / 0x100 == hi && Pair(hi, lo) % 0x100 == lo
  {
  }

  lemma SwapComplement(w: Word)
    ensures SwapBytes(0xffff - w) == 0xffff - SwapBytes(w)
  {
    assert (0xffff - w) / 0x100 == 0xff - w / 0x100 && (0xffff - w) % 0x100 == 0xff - w % 0x100;
  }

  /** The value folded from little-endian words is the byte swap of the big-endian one. */
  lemma FoldByteOrder(be: nat, le: nat)
    requires Congruent(be, 0x100 * le)
    requires be == 0 <==> le == 0
    ensures PutBe16(Fold(be)) == PutLe16(Fold(le))
    ensures PutBe16(0xffff - Fold(be)) == PutLe16(0xffff - Fold(le))
  {
    SwappedWord(Fold(be), be, le, Fold(le));
  }

  lemma SwappedWord(b: Word, be: nat, le: nat, l: Word)
    requires Congruent(b, be) && Congruent(be, 0x100 * le) && Congruent(l, le)
    requires b == 0 <==> l == 0
    ensures PutBe16(b) == PutLe16(l)
    ensures PutBe16(0xffff - b) == PutLe16(0xffff - l)
  {
    SwapCongruent(l);
    SameWord(b, be, le, l, SwapBytes(l));
    StoredSwapped(b, l);
  }

  lemma StoredSwapped(b: Word, l: Word)
    requires b == SwapBytes(l)
    ensures PutBe16(b) == PutLe16(l)
    ensures PutBe16(0xffff - b) == PutLe16(0xffff - l)
  {
    SwapCongruent(l);
    SwapComplement(l);
    SwapCongruent(0xffff - l);
  }

  lemma SameWord(b: Word, be: nat, le: nat, l: Word, s: Word)
    requires Congruent(b, be) && Congruent(be, 0x100 * le) && Congruent(l, le) && Congruent(s, 0x100 * l)
    requires b == 0 <==> s == 0
    ensures b == s
  {
    hide Congruent;
    var k := Times(b, be) + Times(be, 0x100 * le) - 0x100 * Times(l, le) - Times(s, 0x100 * l);
    assert b == s + 0xffff * k;
  }
}
