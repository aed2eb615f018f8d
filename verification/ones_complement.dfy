/**
 * The Internet checksum engine: 16-bit one's-complement arithmetic
 * (RFC 1071) and the incremental update of RFC 1624, section 3, eqn. 3:
 *
 *     HC' = ~(~HC + ~m + m')
 *
 * One's-complement addition of 16-bit words is addition modulo 0xFFFF
 * (2^16 - 1), with 0x0000 and 0xFFFF both standing for zero.  Every claim
 * about a checksum value is therefore stated as a congruence modulo 0xFFFF;
 * the one exact fact about the +0/-0 choice is AdjustSameWord.
 */
module OnesComplement {

  /** A 16-bit word as the checksum engine reads it from the packet. */
  type Word16 = x: int | 0 <= x < 0x1_0000

  /**
   * The one's-complement value an integer stands for: the integer brought
   * into [0, 0xFFFF) by adding or subtracting 0xFFFF.
   */
  function Residue(x: int): int
    decreases x < 0, if x < 0 then -x else x
  {
    if x < 0 then Residue(x + 0xFFFF)
    else if x < 0xFFFF then x
    else Residue(x - 0xFFFF)
  }

  /** Residue is the remainder of Euclidean division by 0xFFFF. */
  lemma {:induction false} ResidueIsMod(x: int)
    ensures Residue(x) == x % 0xFFFF
    decreases x < 0, if x < 0 then -x else x
  {
    if x < 0 {
      ResidueIsMod(x + 0xFFFF);
    } else if x >= 0xFFFF {
      ResidueIsMod(x - 0xFFFF);
    }
  }

  /** a and b are the same one's-complement value (equal modulo 0xFFFF). */
  predicate Congruent(a: int, b: int) {
    Residue(a) == Residue(b)
  }

  /** Two integers are the same one's-complement value exactly when 0xFFFF divides their difference. */
  lemma CongruentIffDiff(a: int, b: int)
    ensures Congruent(a, b) <==> (a - b) % 0xFFFF == 0
  {
    ResidueIsMod(a);
    ResidueIsMod(b);
  }

  lemma CongruentTrans(a: int, b: int, c: int)
    requires Congruent(a, b) && Congruent(b, c)
    ensures Congruent(a, c)
  {
  }

  lemma CongruentSym(a: int, b: int)
    requires Congruent(a, b)
    ensures Congruent(b, a)
  {
  }

  lemma CongruentShift(a: int, b: int, d: int)
    requires Congruent(a, b)
    ensures Congruent(a + d, b + d)
  {
    CongruentIffDiff(a, b);
    CongruentIffDiff(a + d, b + d);
    assert (a + d) - (b + d) == a - b;
  }

  lemma CongruentNeg(a: int, b: int)
    requires Congruent(a, b)
    ensures Congruent(-a, -b)
  {
    CongruentIffDiff(a, b);
    CongruentIffDiff(-a, -b);
    var k := (a - b) / 0xFFFF;
    assert -a - -b == (-k) * 0xFFFF;
  }

  /** Sum(ws): the plain integer sum of the words. */
  function Sum(ws: seq<Word16>): int
  {
    if ws == [] then 0 else ws[0] + Sum(ws[1..])
  }

  lemma {:induction false} SumConcat(xs: seq<Word16>, ys: seq<Word16>)
    ensures Sum(xs + ys) == Sum(xs) + Sum(ys)
  {
    if xs == [] {
      assert xs + ys == ys;
    } else {
      assert (xs + ys)[1..] == xs[1..] + ys;
      SumConcat(xs[1..], ys);
    }
  }

  lemma SumOfThree(xs: seq<Word16>, ys: seq<Word16>, zs: seq<Word16>)
    ensures Sum(xs + ys + zs) == Sum(ys) + (Sum(xs) + Sum(zs))
  {
    SumConcat(xs + ys, zs);
    SumConcat(xs, ys);
  }

  /** Congruence to a value is congruence to anything equal to it. */
  lemma CongruentEq(a: int, b: int, b': int)
    requires Congruent(a, b) && b == b'
    ensures Congruent(a, b')
  {
  }

  /** Congruence depends only on the difference. */
  lemma CongruentSameDiff(a: int, b: int, a': int, b': int)
    requires Congruent(a, b) && a - b == a' - b'
    ensures Congruent(a', b')
  {
    CongruentIffDiff(a, b);
    CongruentIffDiff(a', b');
  }

  /** Two successive moves of a value add up. */
  lemma CongruentChain(c: int, a: int, b: int, d1: int, d2: int)
    requires Congruent(a, c + d1) && Congruent(b, a + d2)
    ensures Congruent(b, c + (d1 + d2))
  {
    CongruentShift(a, c + d1, d2);
    CongruentTrans(b, a + d2, c + d1 + d2);
  }

  /** A move followed by the opposite move gives the value back. */
  lemma CongruentUndo(c: int, a: int, b: int, d: int, d': int)
    requires Congruent(a, c + d) && Congruent(b, a + d') && d + d' == 0
    ensures Congruent(b, c)
  {
    CongruentChain(c, a, b, d, d');
  }

  lemma SumSingle(a: Word16)
    ensures Sum([a]) == a
  {
    assert [a][1..] == [];
  }

  lemma SumPair(a: Word16, b: Word16)
    ensures Sum([a, b]) == a + b
  {
    assert [a, b][1..] == [b];
    assert [b][1..] == [];
    assert Sum([b]) == b + Sum([]);
  }

  /** ~x: the one's-complement negation of a word. */
  function Not16(x: Word16): (r: Word16)
    ensures Congruent(r, -(x as int))
  {
    0xFFFF - x
  }

  /** One's-complement addition: 16-bit addition with the carry out folded back in. */
  function Add16(a: Word16, b: Word16): (r: Word16)
    ensures Congruent(r, a + b)
  {
    if a + b > 0xFFFF then a + b - 0xFFFF else a + b
  }

  /**
   * RFC 1624 eqn. 3 for one word: the checksum `sum` after the covered
   * word `m` is replaced by `m'`.  The new checksum is the old one plus
   * the old word minus the new one.
   */
  function Adjust(sum: Word16, m: Word16, m': Word16): (r: Word16)
    ensures Congruent(r, sum + (m - m'))
  {
    Not16(Add16(Add16(Not16(sum), Not16(m)), m'))
  }

  /**
   * checksum_adjust over a field of |olds| 16-bit words: one Adjust per
   * word, each one fed the checksum the previous one produced.  The result
   * moves the checksum by the old field's words minus the new field's.
   */
  function AdjustWords(sum: Word16, olds: seq<Word16>, news: seq<Word16>): (r: Word16)
    requires |olds| == |news|
    ensures Congruent(r, sum + (Sum(olds) - Sum(news)))
    decreases |olds|
  {
    if olds == [] then sum
    else
      var next := Adjust(sum, olds[0], news[0]);
      var r := AdjustWords(next, olds[1..], news[1..]);
      var d: int, d': int := olds[0] as int - news[0], Sum(olds[1..]) - Sum(news[1..]);
      CongruentChain(sum, next, r, d, d');
      CongruentEq(r, sum + (d + d'), sum + (Sum(olds) - Sum(news)));
      r
  }

  /** The RFC 1071 one's-complement sum of the words, computed from scratch. */
  function OnesSum(ws: seq<Word16>): (r: Word16)
    ensures Congruent(r, Sum(ws))
  {
    if ws == [] then 0
    else
      var rest := OnesSum(ws[1..]);
      var r := Add16(ws[0], rest);
      CongruentShift(rest, Sum(ws[1..]), ws[0]);
      CongruentTrans(r, ws[0] + rest, Sum(ws));
      r
  }

  /** The checksum a sender stores for the covered words: the complement of their sum. */
  function Checksum(ws: seq<Word16>): (r: Word16)
    ensures Congruent(r, -Sum(ws))
  {
    var s := OnesSum(ws);
    CongruentNeg(s, Sum(ws));
    CongruentTrans(Not16(s), -(s as int), -Sum(ws));
    Not16(s)
  }

  /**
   * A receiver's test: the stored checksum `c` is consistent with the words
   * it covers when they sum, checksum included, to (minus) zero.
   */
  predicate Verifies(c: Word16, ws: seq<Word16>) {
    Congruent(c + Sum(ws), 0)
  }

  /** The checksum a sender computes passes the receiver's test. */
  lemma ChecksumVerifies(ws: seq<Word16>)
    ensures Verifies(Checksum(ws), ws)
  {
    CongruentShift(Checksum(ws), -Sum(ws), Sum(ws));
  }

  lemma CongruentToZero(c: int, k: int, s: int)
    requires Congruent(k, -s)
    ensures Congruent(c, k) <==> Congruent(c + s, 0)
  {
    if Congruent(c, k) {
      CongruentTrans(c, k, -s);
      CongruentShift(c, -s, s);
    }
    if Congruent(c + s, 0) {
      CongruentShift(c + s, 0, -s);
      CongruentSym(k, -s);
      CongruentTrans(c, -s, k);
    }
  }

  /**
   * A checksum that moves by exactly what the covered words lose is
   * consistent afterwards exactly when it was consistent before.
   */
  lemma CongruentMove(c: int, w: int, c': int, w': int)
    requires Congruent(c', c + (w - w'))
    ensures Congruent(c + w, 0) <==> Congruent(c' + w', 0)
  {
    CongruentShift(c', c + (w - w'), w');
    if Congruent(c + w, 0) {
      CongruentTrans(c' + w', c + w, 0);
    }
    if Congruent(c' + w', 0) {
      CongruentSym(c' + w', c + w);
      CongruentTrans(c + w, c' + w', 0);
    }
  }

  /**
   * The same, for words of weight x + s and x' + s: a checksum moved by
   * x - x' is consistent afterwards exactly when it was before.
   */
  lemma CongruentMoveBy(c: int, w: int, c': int, w': int, x: int, x': int, s: int)
    requires Congruent(c', c + (x - x')) && w == x + s && w' == x' + s
    ensures Congruent(c + w, 0) <==> Congruent(c' + w', 0)
  {
    CongruentEq(c', c + (x - x'), c + (w - w'));
    CongruentMove(c, w, c', w');
  }

  /**
   * A checksum consistent with words of weight w is consistent with words
   * of weight w' exactly when w and w' are the same one's-complement value.
   */
  lemma CongruentStale(c: int, w: int, w': int)
    requires Congruent(c + w, 0)
    ensures Congruent(c + w', 0) <==> Congruent(w', w)
  {
    if Congruent(c + w', 0) {
      CongruentSym(c + w, 0);
      CongruentTrans(c + w', 0, c + w);
      CongruentShift(c + w', c + w, -c);
    }
    if Congruent(w', w) {
      CongruentShift(w', w, c);
      CongruentTrans(c + w', c + w, 0);
    }
  }
  /** The same, for a checksum c and words of weight w + s, then w' + s. */
  lemma CongruentStaleBy(c: int, s: int, w: int, w': int)
    requires Congruent(c + (w + s), 0)
    ensures Congruent(c + (w' + s), 0) <==> Congruent(w', w)
  {
    CongruentEq(c + s + w, 0, 0);
    CongruentStale(c + s, w, w');
  }


  /**
   * A checksum passes the receiver's test exactly when it is the
   * one's-complement value a full recomputation gives: the stored value may
   * differ from Checksum(ws) only by standing for zero as 0xFFFF or 0x0000.
   */
  lemma VerifiesIff(c: Word16, ws: seq<Word16>)
    ensures Verifies(c, ws) <==> Congruent(c, Checksum(ws))
  {
    var k, s := Checksum(ws), Sum(ws);
    assert Congruent(c, k) <==> Congruent(c + s, 0) by {
      CongruentToZero(c, k, s);
    }
  }

  /**
   * The main property of the incremental update: when a field of the
   * covered words changes from `olds` to `news`, the adjusted checksum is
   * consistent with the new words exactly when the old one was consistent
   * with the old words.
   */
  lemma AdjustKeepsVerified(c: Word16, pre: seq<Word16>, olds: seq<Word16>, news: seq<Word16>, post: seq<Word16>)
    requires |olds| == |news|
    ensures Verifies(c, pre + olds + post) <==> Verifies(AdjustWords(c, olds, news), pre + news + post)
  {
    SumOfThree(pre, olds, post);
    SumOfThree(pre, news, post);
    CongruentMoveBy(c, Sum(pre + olds + post), AdjustWords(c, olds, news), Sum(pre + news + post),
                    Sum(olds), Sum(news), Sum(pre) + Sum(post));
  }

  /** Rewriting a field A -> B and then B -> A restores the checksum's one's-complement value. */
  lemma AdjustRoundTrip(c: Word16, olds: seq<Word16>, news: seq<Word16>)
    requires |olds| == |news|
    ensures Congruent(AdjustWords(AdjustWords(c, olds, news), news, olds), c)
  {
    var a := AdjustWords(c, olds, news);
    CongruentUndo(c, a, AdjustWords(a, news, olds), Sum(olds) - Sum(news), Sum(news) - Sum(olds));
  }

  /**
   * Adjusting for one field and then for the next is adjusting for the two
   * fields together: the engine's result does not depend on how the
   * changed words are split into calls.
   */
  lemma {:induction false} AdjustWordsConcat(c: Word16, olds: seq<Word16>, news: seq<Word16>,
                                             olds': seq<Word16>, news': seq<Word16>)
    requires |olds| == |news| && |olds'| == |news'|
    ensures AdjustWords(AdjustWords(c, olds, news), olds', news') == AdjustWords(c, olds + olds', news + news')
    decreases |olds|
  {
    if olds == [] {
      assert olds + olds' == olds' && news + news' == news';
    } else {
      assert (olds + olds')[1..] == olds[1..] + olds';
      assert (news + news')[1..] == news[1..] + news';
      AdjustWordsConcat(Adjust(c, olds[0], news[0]), olds[1..], news[1..], olds', news');
    }
  }

  /**
   * Two fields rewritten A -> B and then rewritten back, one after the
   * other: the checksum is the same one's-complement value as before.
   */
  lemma AdjustPairRoundTrip(c: Word16, a: seq<Word16>, b: seq<Word16>, p: seq<Word16>, q: seq<Word16>)
    requires |a| == |b| && |p| == |q|
    ensures Congruent(AdjustWords(AdjustWords(AdjustWords(AdjustWords(c, a, b), p, q), b, a), q, p), c)
  {
    AdjustWordsConcat(c, a, b, p, q);
    AdjustWordsConcat(AdjustWords(c, a + p, b + q), b, a, q, p);
    AdjustRoundTrip(c, a + p, b + q);
  }

  /**
   * Replacing a word by itself leaves the checksum exactly as it was, except
   * that 0xFFFF (-0) comes out as 0x0000 (+0).
   */
  lemma AdjustSameWord(c: Word16, w: Word16)
    ensures Adjust(c, w, w) == if c == 0xFFFF then 0 else c
  {
  }

  /** The value 0xFFFF (-0) written as 0x0000 (+0); any other value as it is. */
  function PlusZero(c: Word16): Word16
  {
    if c == 0xFFFF then 0 else c
  }

  /**
   * A whole field rewritten to itself: the checksum comes out exactly as it
   * was, except that -0 becomes +0 once any word has been fed through.
   */
  lemma {:induction false} AdjustWordsSame(c: Word16, ws: seq<Word16>)
    ensures AdjustWords(c, ws, ws) == if ws == [] then c else PlusZero(c)
    decreases |ws|
  {
    if ws != [] {
      AdjustSameWord(c, ws[0]);
      AdjustWordsSame(PlusZero(c), ws[1..]);
    }
  }

  /** checksum_adjust over a 16-bit quantity is one Adjust. */
  lemma AdjustOneWord(c: Word16, m: Word16, m': Word16)
    ensures AdjustWords(c, [m], [m']) == Adjust(c, m, m')
  {
    assert [m][1..] == [] && [m'][1..] == [];
  }

  /** checksum_adjust over a 32-bit quantity is two chained one-word updates. */
  lemma AdjustTwoWords(c: Word16, m0: Word16, m1: Word16, n0: Word16, n1: Word16)
    ensures AdjustWords(c, [m0, m1], [n0, n1]) == Adjust(Adjust(c, m0, n0), m1, n1)
  {
    var a := Adjust(c, m0, n0);
    assert [m0, m1][1..] == [m1] && [n0, n1][1..] == [n1];
    assert AdjustWords(c, [m0, m1], [n0, n1]) == AdjustWords(a, [m1], [n1]);
    assert [m1][1..] == [] && [n1][1..] == [];
    assert AdjustWords(a, [m1], [n1]) == AdjustWords(Adjust(a, m1, n1), [], []);
  }
}
