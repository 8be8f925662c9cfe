/** De-interlacing PNG images: stbi__create_png_image in DuiLib/Utils/stb_image.c, section 2.6 of
    RFC 2083. */
module Adam7 {
  import opened Bits

  const PASSES: nat := 7
  const XORIG: seq<nat> := [0, 4, 0, 2, 0, 1, 0]
  const YORIG: seq<nat> := [0, 0, 4, 0, 2, 0, 1]
  const XSPC: seq<nat> := [8, 8, 4, 4, 2, 2, 1]
  const YSPC: seq<nat> := [8, 8, 8, 4, 4, 2, 2]

  /** How many columns or rows of a size are in a pass. */
  function Count(size: nat, orig: nat, spc: nat): nat
    requires orig < spc
  {
    (size - orig + spc - 1) / spc
  }

  /** Where the column or row `i` of a pass is. */
  function Place(i: nat, orig: nat, spc: nat): nat {
    i * spc + orig
  }

  predicate InPass(p: nat, x: nat, y: nat)
    requires p < PASSES
  {
    x % XSPC[p] == XORIG[p] && y % YSPC[p] == YORIG[p]
  }

  /** The pass of a pixel. */
  function PassOf(x: nat, y: nat): (p: nat)
    ensures p < PASSES
  {
    if y % 2 == 1 then 6
    else if x % 2 == 1 then 5
    else if y % 4 == 2 then 4
    else if x % 4 == 2 then 3
    else if y % 8 == 4 then 2
    else if x % 8 == 4 then 1
    else 0
  }

  lemma Halves(x: nat)
    ensures x % 4 == x % 2 || x % 4 == x % 2 + 2
    ensures x % 8 == x % 4 || x % 8 == x % 4 + 4
  {
    HalfMod(x, 2);
    HalfMod(x, 4);
  }

  lemma HalfMod(x: nat, m: nat)
    requires m == 2 || m == 4
    ensures x % (2 * m) == x % m || x % (2 * m) == x % m + m
  {
    var q, r := x / (2 * m), x % (2 * m);
    assert x == 2 * m * q + r;
    if r < m {
      QuotientUnique(x, m, 2 * q, r);
    } else {
      QuotientUnique(x, m, 2 * q + 1, r - m);
    }
  }

  /** Each pixel is in exactly one pass. */
  lemma OnePass(p: nat, x: nat, y: nat)
    requires p < PASSES
    ensures InPass(p, x, y) <==> p == PassOf(x, y)
  {
    Halves(x);
    Halves(y);
    if p == 0 {
    } else if p == 1 {
    } else if p == 2 {
    } else if p == 3 {
    } else if p == 4 {
    } else if p == 5 {
    } else {
    }
  }

  /** The pattern of section 2.6 of RFC 2083, which repeats every eight pixels: the pass of each pixel, from one. */
  const PATTERN: seq<seq<nat>> := [
    [1, 6, 4, 6, 2, 6, 4, 6],
    [7, 7, 7, 7, 7, 7, 7, 7],
    [5, 6, 5, 6, 5, 6, 5, 6],
    [7, 7, 7, 7, 7, 7, 7, 7],
    [3, 6, 4, 6, 3, 6, 4, 6],
    [7, 7, 7, 7, 7, 7, 7, 7],
    [5, 6, 5, 6, 5, 6, 5, 6],
    [7, 7, 7, 7, 7, 7, 7, 7]]

  lemma PassPattern(x: nat, y: nat)
    ensures |PATTERN| == 8 && |PATTERN[y % 8]| == 8 && PassOf(x, y) + 1 == PATTERN[y % 8][x % 8]
  {
    Halves(x);
    Halves(y);
  }

  predicate Spacing(orig: nat, spc: nat) {
    orig < spc && spc in {1, 2, 4, 8}
  }

  lemma Spacings(p: nat)
    requires p < PASSES
    ensures Spacing(XORIG[p], XSPC[p]) && Spacing(YORIG[p], YSPC[p])
  {
  }

  /** The count is that of the places within the size. */
  lemma CountIs(size: nat, orig: nat, spc: nat, i: nat)
    requires Spacing(orig, spc)
    ensures Place(i, orig, spc) < size <==> i < Count(size, orig, spc)
    ensures Place(i, orig, spc) % spc == orig
  {
    QuotientUnique(i * spc + orig, spc, i, orig);
    BelowQuotient(size - orig + spc - 1, spc, i);
  }

  lemma BelowQuotient(v: nat, d: nat, i: nat)
    requires d > 0
    ensures i < v / d <==> i * d + d <= v
  {
    var q := v / d;
    assert v == q * d + v % d;
    if i < q {
      MulMono(i + 1, q, d);
      MulDist(i, 1, d);
    } else {
      MulMono(q, i, d);
    }
  }

  /** Between two places of a pass there is none. */
  lemma Between(v: nat, orig: nat, spc: nat, i: nat)
    requires Spacing(orig, spc) && v % spc == orig
    ensures v < Place(i + 1, orig, spc) <==> v < Place(i, orig, spc) || v == Place(i, orig, spc)
    ensures v >= Place(0, orig, spc)
  {
    if spc == 1 {
    } else if spc == 2 {
    } else if spc == 4 {
    } else {
    }
  }

  /** The pixel has been written when `i` pixels of row `j` of pass `p` have been. */
  predicate Written(p: nat, j: nat, i: nat, x: nat, y: nat) {
    p < PASSES ==>
      || PassOf(x, y) < p
      || (PassOf(x, y) == p && (y < Place(j, YORIG[p], YSPC[p]) ||
                                (y == Place(j, YORIG[p], YSPC[p]) && x < Place(i, XORIG[p], XSPC[p]))))
  }

  /** Write one pixel after the other. */
  lemma WrittenNext(p: nat, j: nat, i: nat, x: nat, y: nat)
    requires p < PASSES
    ensures var out_x, out_y := Place(i, XORIG[p], XSPC[p]), Place(j, YORIG[p], YSPC[p]);
      Written(p, j, i + 1, x, y) <==> Written(p, j, i, x, y) || (x == out_x && y == out_y)
  {
    Spacings(p);
    OnePass(p, x, y);
    OnePass(p, Place(i, XORIG[p], XSPC[p]), Place(j, YORIG[p], YSPC[p]));
    CountIs(0, XORIG[p], XSPC[p], i);
    CountIs(0, YORIG[p], YSPC[p], j);
    if InPass(p, x, y) {
      Between(x, XORIG[p], XSPC[p], i);
    }
  }

  /** After the last pixel of a row the next row begins. */
  lemma WrittenRow(p: nat, j: nat, w: nat, x: nat, y: nat)
    requires p < PASSES && x < w
    ensures Written(p, j, Count(w, XORIG[p], XSPC[p]), x, y) <==> Written(p, j + 1, 0, x, y)
  {
    Spacings(p);
    OnePass(p, x, y);
    if InPass(p, x, y) {
      var n := Count(w, XORIG[p], XSPC[p]);
      CountIs(w, XORIG[p], XSPC[p], n);
      Between(y, YORIG[p], YSPC[p], j);
      Between(x, XORIG[p], XSPC[p], 0);
    }
  }

  /** After the last row of a pass, or when it has none, the next pass begins. */
  lemma WrittenPass(p: nat, w: nat, h: nat, x: nat, y: nat)
    requires p < PASSES && x < w && y < h
    ensures Written(p, Count(h, YORIG[p], YSPC[p]), 0, x, y) <==> Written(p + 1, 0, 0, x, y)
    ensures Count(w, XORIG[p], XSPC[p]) == 0 ==> (Written(p, 0, 0, x, y) <==> Written(p + 1, 0, 0, x, y))
  {
    Spacings(p);
    OnePass(p, x, y);
    Fresh(p + 1, x, y);
    Fresh(p, x, y);
    if InPass(p, x, y) {
      CountIs(h, YORIG[p], YSPC[p], Count(h, YORIG[p], YSPC[p]));
      CountIs(w, XORIG[p], XSPC[p], 0);
      Between(x, XORIG[p], XSPC[p], 0);
    }
  }

  /** When a pass begins, exactly the pixels of the passes before have been written. */
  lemma Fresh(p: nat, x: nat, y: nat)
    ensures Written(p, 0, 0, x, y) <==> PassOf(x, y) < p
  {
    if p < PASSES && PassOf(x, y) == p {
      OnePass(p, x, y);
      Spacings(p);
      Between(y, YORIG[p], YSPC[p], 0);
      Between(x, XORIG[p], XSPC[p], 0);
    }
  }

  lemma AllWritten(x: nat, y: nat)
    ensures Written(PASSES, 0, 0, x, y)
  {
  }
}
