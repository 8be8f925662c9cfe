/** Bit streams as natural numbers.

    A decoder in this repository keeps its next input bits in an integer, first bit lowest:
    it reads the bit `v % 2` and moves on to `v / 2`.  A Huffman code, however, is packed
    starting from its most significant bit (section 3.1.1 of RFC 1951), so the code a decoder
    has read after `k` bits is the bit reversal of the low `k` bits of the stream.
  */
module Bits {

  function Pow2(n: nat): (p: nat)
    ensures p >= 1
  {
    if n == 0 then 1 else 2 * Pow2(n - 1)
  }

  /** The left shift. */
  function Shl(x: nat, n: nat): nat
    decreases n
  {
    if n == 0 then x else 2 * Shl(x, n - 1)
  }

  /** The stream `v` after its first `k` bits: the right shift. */
  function Drop(v: nat, k: nat): nat {
    if k == 0 then v else Drop(v / 2, k - 1)
  }

  /** The first `k` bits of stream `v`, first bit lowest: the mask of `k` ones. */
  function Low(v: nat, k: nat): (r: nat)
    ensures r < Pow2(k) && r <= v
  {
    if k == 0 then 0 else v % 2 + 2 * Low(v / 2, k - 1)
  }

  /** The first `k` bits of stream `v` read as a code, most significant bit first. */
  function Code(v: nat, k: nat): (c: nat)
    ensures c < Pow2(k)
  {
    if k == 0 then 0 else (if v % 2 == 1 then Pow2(k - 1) else 0) + Code(v / 2, k - 1)
  }

  // ---------- multiplication ----------

  lemma MulAssoc(a: int, b: int, c: int)
    ensures a * b * c == a * (b * c)
  {
  }

  lemma MulDist(a: int, b: int, c: int)
    ensures (a + b) * c == a * c + b * c
  {
  }

  lemma MulMono(a: int, b: int, c: nat)
    requires a <= b
    ensures a * c <= b * c
  {
  }

  // ---------- powers of two ----------

  lemma {:induction false} Pow2Add(a: nat, b: nat)
    ensures Pow2(a + b) == Pow2(a) * Pow2(b)
  {
    if a == 0 {
    } else {
      Pow2Add(a - 1, b);
      MulAssoc(2, Pow2(a - 1), Pow2(b));
    }
  }

  lemma {:induction false} Pow2Mono(a: nat, b: nat)
    requires a <= b
    ensures Pow2(a) <= Pow2(b)
  {
    if a == b {
    } else {
      Pow2Mono(a, b - 1);
    }
  }

  // ---------- streams ----------

  lemma {:induction false} ShlIsProduct(x: nat, n: nat)
    ensures Shl(x, n) == x * Pow2(n)
    decreases n
  {
    if n > 0 {
      ShlIsProduct(x, n - 1);
      MulAssoc(2, x, Pow2(n - 1));
    }
  }

  lemma {:induction false} ShlAdd(x: nat, y: nat, n: nat)
    ensures Shl(x + y, n) == Shl(x, n) + Shl(y, n)
  {
    if n > 0 {
      ShlAdd(x, y, n - 1);
    }
  }

  lemma {:induction false} ShlZero(n: nat)
    ensures Shl(0, n) == 0
  {
    if n > 0 {
      ShlZero(n - 1);
    }
  }

  lemma {:induction false} ShlShl(x: nat, a: nat, b: nat)
    ensures Shl(Shl(x, a), b) == Shl(x, a + b)
  {
    if b > 0 {
      ShlShl(x, a, b - 1);
    }
  }

  lemma {:induction false} ShlMono(x: nat, y: nat, n: nat)
    requires x <= y
    ensures Shl(x, n) <= Shl(y, n)
  {
    if n > 0 {
      ShlMono(x, y, n - 1);
    }
  }

  lemma {:induction false} Pow2Shl(a: nat, b: nat)
    ensures Pow2(a + b) == Shl(Pow2(a), b)
  {
    if b > 0 {
      Pow2Shl(a, b - 1);
    }
  }

  /** Dropping and masking are the shift and the mask of the code. */
  lemma {:induction false} Split(v: nat, k: nat)
    ensures v == Low(v, k) + Shl(Drop(v, k), k)
  {
    if k > 0 {
      Split(v / 2, k - 1);
    }
  }

  lemma {:induction false} Join(lo: nat, hi: nat, k: nat)
    requires lo < Pow2(k)
    ensures Low(lo + Shl(hi, k), k) == lo
    ensures Drop(lo + Shl(hi, k), k) == hi
  {
    if k > 0 {
      var m := Shl(hi, k - 1);
      assert (lo + 2 * m) / 2 == lo / 2 + m && (lo + 2 * m) % 2 == lo % 2;
      Join(lo / 2, hi, k - 1);
    }
  }

  lemma {:induction false} LowSmall(v: nat, k: nat)
    requires v < Pow2(k)
    ensures Low(v, k) == v && Drop(v, k) == 0
  {
    if k > 0 {
      LowSmall(v / 2, k - 1);
    }
  }

  lemma {:induction false} QuotientUnique(v: int, d: int, q: int, r: int)
    requires 0 <= r < d && v == r + d * q
    ensures v / d == q && v % d == r
  {
    var e := v / d - q;
    assert d * e == r - v % d;
    if e >= 1 {
      MulMono(1, e, d);
    }
    if e <= -1 {
      MulMono(e, -1, d);
    }
  }

  /** The numbers with the same low `k` bits are one power of two apart. */
  lemma {:induction false} NextWithSameLow(v: nat, f: nat, k: nat)
    ensures Low(v + Pow2(k), k) == Low(v, k)
    ensures v <= f < v + Pow2(k) && Low(f, k) == Low(v, k) ==> f == v
  {
    if k > 0 {
      var p := Pow2(k - 1);
      assert (v + 2 * p) / 2 == v / 2 + p && (v + 2 * p) % 2 == v % 2;
      NextWithSameLow(v / 2, f / 2, k - 1);
    }
  }

  lemma {:induction false} DropDrop(v: nat, a: nat, b: nat)
    ensures Drop(Drop(v, a), b) == Drop(v, a + b)
  {
    if a == 0 {
    } else {
      DropDrop(v / 2, a - 1, b);
    }
  }

  /** Taking bits makes a stream less, unless it is all zeros. */
  lemma DropLess(v: nat, k: nat)
    requires v > 0 && k >= 1
    ensures Drop(v, k) < v
  {
    DropAtMost(v / 2, k - 1);
  }

  lemma {:induction false} DropAtMost(v: nat, k: nat)
    ensures Drop(v, k) <= v
  {
    if k > 0 {
      DropAtMost(v / 2, k - 1);
    }
  }

  lemma DropNothing(v: nat)
    ensures Drop(v, 0) == v
  {
  }

  lemma DropStep(v: nat, k: nat)
    ensures Drop(v, k + 1) == Drop(v, k) / 2
  {
    DropDrop(v, k, 1);
    assert Drop(Drop(v, k), 1) == Drop(Drop(v, k) / 2, 0);
  }

  lemma {:induction false} LowAppend(v: nat, a: nat, b: nat)
    ensures Low(v, a + b) == Low(v, a) + Shl(Low(Drop(v, a), b), a)
  {
    if a > 0 {
      LowAppend(v / 2, a - 1, b);
    }
  }

  lemma {:induction false} LowLow(v: nat, a: nat, b: nat)
    requires a <= b
    ensures Low(Low(v, b), a) == Low(v, a)
  {
    if a == 0 {
    } else {
      assert Low(v, b) / 2 == Low(v / 2, b - 1) && Low(v, b) % 2 == v % 2;
      LowLow(v / 2, a - 1, b - 1);
    }
  }

  /** Shifting a masked stream masks the shifted stream. */
  lemma {:induction false} DropLow(v: nat, a: nat, b: nat)
    requires a <= b
    ensures Drop(Low(v, b), a) == Low(Drop(v, a), b - a)
  {
    if a > 0 {
      assert Low(v, b) / 2 == Low(v / 2, b - 1);
      DropLow(v / 2, a - 1, b - 1);
    }
  }

  /** The bitwise or. */
  function BitOr(x: nat, y: nat): nat {
    if x == 0 then y
    else if y == 0 then x
    else (if x % 2 == 1 || y % 2 == 1 then 1 else 0) + 2 * BitOr(x / 2, y / 2)
  }

  lemma {:induction false} LowZero(k: nat)
    ensures Low(0, k) == 0
  {
    if k > 0 {
      LowZero(k - 1);
    }
  }

  lemma BitOrStep(x: nat, y: nat)
    ensures BitOr(x, y) == (if x % 2 == 1 || y % 2 == 1 then 1 else 0) + 2 * BitOr(x / 2, y / 2)
  {
  }

  /** Two masks of one stream, or-ed, are the wider mask. */
  lemma {:induction false} OrLow(s: nat, a: nat, b: nat)
    ensures BitOr(Low(s, a), Low(s, b)) == Low(s, if a < b then b else a)
    decreases a + b
  {
    hide *;
    if a > 0 && b > 0 {
      BitOrStep(Low(s, a), Low(s, b));
      LowHalf(s, a);
      LowHalf(s, b);
      OrLow(s / 2, a - 1, b - 1);
      LowHalf(s, if a < b then b else a);
    } else {
      OrNone(Low(s, a), Low(s, b));
      LowNone(s);
    }
  }

  lemma OrNone(x: nat, y: nat)
    ensures BitOr(x, 0) == x && BitOr(0, y) == y
  {
  }

  lemma LowNone(s: nat)
    ensures Low(s, 0) == 0
  {
  }

  /** Or-ing the bits `k` to `k + n` of a stream into its first `m` bits, which may already hold some
      of them. */
  lemma {:induction false} OrBits(s: nat, m: nat, k: nat, n: nat)
    requires k <= m
    ensures BitOr(Low(s, m), Shl(Low(Drop(s, k), n), k)) == Low(s, if m < k + n then k + n else m)
    decreases k
  {
    hide *;
    if k == 0 {
      NoShift(s, Low(s, n));
      OrLow(s, m, n);
    } else {
      var x := Low(Drop(s, k), n);
      BitOrStep(Low(s, m), Shl(x, k));
      LowHalf(s, m);
      LowHalf(s, if m < k + n then k + n else m);
      ShlHalf(s, x, k);
      OrBits(s / 2, m - 1, k - 1, n);
    }
  }

  lemma NoShift(s: nat, x: nat)
    ensures Drop(s, 0) == s && Shl(x, 0) == x
  {
  }

  lemma LowHalf(s: nat, m: nat)
    requires m > 0
    ensures Low(s, m) == s % 2 + 2 * Low(s / 2, m - 1) && Low(s, m) / 2 == Low(s / 2, m - 1) && Low(s, m) % 2 == s % 2
  {
  }

  lemma ShlHalf(s: nat, x: nat, k: nat)
    requires k > 0
    ensures Shl(x, k) % 2 == 0 && Shl(x, k) / 2 == Shl(x, k - 1) && Drop(s, k) == Drop(s / 2, k - 1)
  {
  }

  // ---------- codes ----------

  /** Reading `a + b` bits reads `a` bits, then `b` more. */
  lemma {:induction false} CodeAppend(v: nat, a: nat, b: nat)
    ensures Code(v, a + b) == Shl(Code(v, a), b) + Code(Drop(v, a), b)
  {
    hide Shl;
    hide Pow2;
    ShlZero(b);
    if a > 0 {
      CodeAppend(v / 2, a - 1, b);
      var top := if v % 2 == 1 then Pow2(a - 1) else 0;
      ShlAdd(top, Code(v / 2, a - 1), b);
      Pow2Shl(a - 1, b);
      assert Code(v, a + b) == Shl(top, b) + Code(v / 2, a - 1 + b);
    }
  }

  /** The code grows by one bit on the right with every bit read. */
  lemma {:induction false} CodeSnoc(v: nat, k: nat)
    ensures Code(v, k + 1) == 2 * Code(v, k) + Drop(v, k) % 2
  {
    CodeAppend(v, k, 1);
    assert Code(Drop(v, k) / 2, 0) == 0;
    assert Shl(Code(v, k), 1) == 2 * Shl(Code(v, k), 0);
  }

  /** A code is below a limit exactly when its extension by `n` bits is below the limit shifted
      by `n` bits. */
  lemma {:induction false} CodeBelow(v: nat, k: nat, n: nat, limit: nat)
    ensures Code(v, k + n) < Shl(limit, n) <==> Code(v, k) < limit
    ensures Drop(Code(v, k + n), n) == Code(v, k)
    decreases n
  {
    if n > 0 {
      CodeSnoc(v, k + n - 1);
      CodeBelow(v, k, n - 1, limit);
    }
  }

  /** A code of `k` bits depends on the low `k` bits of the stream only. */
  lemma {:induction false} CodeLow(v: nat, k: nat)
    ensures Code(Low(v, k), k) == Code(v, k)
  {
    if k == 0 {
    } else {
      CodeLow(v / 2, k - 1);
    }
  }

  lemma {:induction false} CodeJoin(lo: nat, hi: nat, k: nat)
    requires lo < Pow2(k) && hi < 2
    ensures Code(lo + Shl(hi, k), k + 1) == 2 * Code(lo, k) + hi
  {
    var c := lo + Shl(hi, k);
    Join(lo, hi, k);
    CodeSnoc(c, k);
    CodeLow(c, k);
  }

  /** Reversing twice gives the bits back. */
  lemma {:induction false} CodeInvolution(v: nat, k: nat)
    ensures Code(Code(v, k), k) == Low(v, k)
  {
    hide *;
    if k == 0 {
      CodeNone(v);
      CodeNone(Code(v, 0));
    } else {
      CodeInvolution(v / 2, k - 1);
      CodeHead(v, k);
      CodeJoin(Code(v / 2, k - 1), v % 2, k - 1);
      LowHalf(v, k);
    }
  }

  lemma CodeNone(v: nat)
    ensures Code(v, 0) == Low(v, 0) == 0
  {
  }

  lemma CodeHead(v: nat, k: nat)
    requires k > 0
    ensures Code(v, k) == Code(v / 2, k - 1) + Shl(v % 2, k - 1) && Code(v / 2, k - 1) < Pow2(k - 1)
  {
    hide Shl;
    ShlZero(k - 1);
    Pow2Shl(0, k - 1);
  }

  /** A code of `k` bits is seen in any `n` bits that contain it. */
  lemma CodeOfLow(v: nat, k: nat, n: nat)
    requires k <= n
    ensures Code(Low(v, n), k) == Code(v, k)
  {
    LowLow(v, k, n);
    CodeLow(v, k);
    CodeLow(Low(v, n), k);
  }

  // ---------- bytes ----------

  type byte = b: int | 0 <= b < 256

  /** The stream of the bits of `s`, lowest bit of the first byte first. */
  function BytesVal(s: seq<byte>): nat {
    if s == [] then 0 else s[0] + 256 * BytesVal(s[1..])
  }

  lemma {:induction false} ByteAt(s: seq<byte>, i: nat)
    ensures Low(Drop(BytesVal(s), 8 * i), 8) == if i < |s| then s[i] else 0
  {
    if s == [] {
      DropZero(8 * i);
      LowSmall(0, 8);
    } else {
      ByteFirst(s[0], BytesVal(s[1..]));
      if i > 0 {
        ByteAt(s[1..], i - 1);
        DropDrop(BytesVal(s), 8, 8 * (i - 1));
      }
    }
  }

  lemma ByteFirst(b: byte, rest: nat)
    ensures Low(b + 256 * rest, 8) == b && Drop(b + 256 * rest, 8) == rest
  {
    assert Pow2(8) == 256 by { assert Pow2(4) == 16; }
    ShlIsProduct(rest, 8);
    Join(b, rest, 8);
  }

  lemma {:induction false} DropZero(k: nat)
    ensures Drop(0, k) == 0
  {
    if k > 0 {
      DropZero(k - 1);
    }
  }

  /** The low `n` bytes of `v`. */
  function ToBytes(v: nat, n: nat): (r: seq<byte>)
    ensures |r| == n
    decreases n
  {
    if n == 0 then [] else [v % 256] + ToBytes(v / 256, n - 1)
  }

  /** Every stream is the stream of some bytes. */
  lemma {:induction false} BytesOfStream(v: nat, n: nat)
    requires v < Pow2(8 * n)
    ensures BytesVal(ToBytes(v, n)) == v
    decreases n
  {
    if n > 0 {
      EightBits();
      Pow2Add(8, 8 * (n - 1));
      BytesOfStream(v / 256, n - 1);
      assert ToBytes(v, n)[1..] == ToBytes(v / 256, n - 1);
    }
  }

  lemma {:induction false} Pow2Exceeds(v: nat)
    ensures v < Pow2(v)
  {
    if v > 0 {
      Pow2Exceeds(v - 1);
    }
  }

  lemma EightBits()
    ensures Pow2(8) == 256
  {
    assert Pow2(4) == 16;
  }
}
