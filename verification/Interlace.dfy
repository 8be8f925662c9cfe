/** Interlaced PNG images: stbi__create_png_image in DuiLib/Utils/stb_image.c reconstructs each of the seven
    passes from the next part of the data, and scatters its pixels over the image. */
module Interlace {
  import opened Bits
  import opened PngSpec
  import opened Png
  import opened Adam7
  import opened Seqs

  function Cols(w: nat, p: nat): nat
    requires p < PASSES
  {
    Spacings(p);
    Count(w, XORIG[p], XSPC[p])
  }

  function Lines(h: nat, p: nat): nat
    requires p < PASSES
  {
    Spacings(p);
    Count(h, YORIG[p], YSPC[p])
  }

  /** The rows of each pass, and no rows for a pass that has no pixels. */
  datatype Passes = Passes(rows: seq<seq<seq<byte>>>) | NoPasses

  /** The passes from `p` on; one that is as large as the image leaves no data over. */
  function ReadPasses(raw: seq<byte>, w: nat, h: nat, n: nat, p: nat): Passes
    requires p <= PASSES
    decreases PASSES - p
  {
    if p == PASSES then Passes([])
    else
      var x, y := Cols(w, p), Lines(h, p);
      if x == 0 || y == 0 then Before([], ReadPasses(raw, w, h, n, p + 1))
      else
        var size := DataSize(x * n, y);
        if |raw| < size || (x == w && y == h && |raw| != size) then NoPasses
        else
          match ReconImage(raw[..size], n, x * n, y, Zeros(x * n))
          case BadFilter => NoPasses
          case Rows(rows) => Before(rows, ReadPasses(raw[size..], w, h, n, p + 1))
  }

  function Before(rows: seq<seq<byte>>, ps: Passes): Passes {
    match ps
    case Passes(rest) => Passes([rows] + rest)
    case NoPasses => NoPasses
  }

  function AllBefore(done: seq<seq<seq<byte>>>, ps: Passes): Passes {
    match ps
    case Passes(rest) => Passes(done + rest)
    case NoPasses => NoPasses
  }

  lemma OneMorePass(done: seq<seq<seq<byte>>>, rows: seq<seq<byte>>, ps: Passes)
    ensures AllBefore(done, Before(rows, ps)) == AllBefore(done + [rows], ps)
  {
    if ps.Passes? {
      assert done + ([rows] + ps.rows) == done + [rows] + ps.rows;
    }
  }

  /** Pixel `i` of a row of pixels of `outN` bytes. */
  function PixelOf(row: seq<byte>, i: nat, outN: nat): seq<byte> {
    if 0 <= i * outN <= |row| - outN then row[i * outN..i * outN + outN] else []
  }

  /** The pixel that the passes give for a place in the image. */
  function Wanted(ps: seq<seq<seq<byte>>>, n: nat, outN: nat, x: nat, y: nat): seq<byte> {
    var p := PassOf(x, y);
    Spacings(p);
    var i, j := x / XSPC[p], y / YSPC[p];
    if p < |ps| && j < |ps[p]| then PixelOf(PngSpec.Stored(ps[p][j], n, outN != n), i, outN) else []
  }

  /** Where a pixel of a pass goes, its pass and its number in the pass are the same again. */
  lemma PlaceIs(p: nat, i: nat, j: nat)
    requires p < PASSES
    ensures var x, y := Place(i, XORIG[p], XSPC[p]), Place(j, YORIG[p], YSPC[p]);
      Spacing(XORIG[p], XSPC[p]) && Spacing(YORIG[p], YSPC[p]) && PassOf(x, y) == p && x / XSPC[p] == i && y / YSPC[p] == j
  {
    hide PassOf;
    Spacings(p);
    var x, y := Place(i, XORIG[p], XSPC[p]), Place(j, YORIG[p], YSPC[p]);
    CountIs(0, XORIG[p], XSPC[p], i);
    CountIs(0, YORIG[p], YSPC[p], j);
    OnePass(p, x, y);
    Swap(i, XSPC[p]);
    Swap(j, YSPC[p]);
    QuotientUnique(x, XSPC[p], i, XORIG[p]);
    QuotientUnique(y, YSPC[p], j, YORIG[p]);
  }

  lemma Swap(a: nat, b: nat)
    ensures a * b == b * a
  {
  }

  // ---------- the pixels of a reconstructed pass ----------

  /** Row `j` of an image that is stored row by row. */
  lemma {:induction false} RowAt(rows: seq<seq<byte>>, n: nat, alpha: bool, stride: nat, j: nat)
    requires j < |rows| && forall k :: 0 <= k < |rows| ==> |PngSpec.Stored(rows[k], n, alpha)| == stride
    ensures |Flat(rows, n, alpha)| == |rows| * stride && 0 <= j * stride && j * stride + stride <= |rows| * stride
    ensures Flat(rows, n, alpha)[j * stride..j * stride + stride] == PngSpec.Stored(rows[j], n, alpha)
    decreases |rows|
  {
    hide *;
    var m: nat := |rows| - 1;
    var before, last := rows[..m], PngSpec.Stored(rows[m], n, alpha);
    MulDist(m, 1, stride);
    MulDist(j, 1, stride);
    FlatSize(before, n, alpha, stride);
    FlatNext(before, rows[m], n, alpha);
    assert rows == before + [rows[m]];
    MulMono(0, j, stride);
    if j < m {
      MulMono(j + 1, m, stride);
      RowAt(before, n, alpha, stride, j);
      InFirst(Flat(before, n, alpha), last, j * stride, stride);
    } else {
      InSecond(Flat(before, n, alpha), last);
    }
  }

  lemma InFirst(a: seq<byte>, b: seq<byte>, i: nat, n: nat)
    requires i + n <= |a|
    ensures (a + b)[i..i + n] == a[i..i + n]
  {
  }

  lemma InSecond(a: seq<byte>, b: seq<byte>)
    ensures (a + b)[|a|..|a| + |b|] == b
  {
  }

  lemma {:induction false} FlatSize(rows: seq<seq<byte>>, n: nat, alpha: bool, stride: nat)
    requires forall k :: 0 <= k < |rows| ==> |PngSpec.Stored(rows[k], n, alpha)| == stride
    ensures |Flat(rows, n, alpha)| == |rows| * stride
    decreases |rows|
  {
    hide PngSpec.Stored;
    if rows != [] {
      var m: nat := |rows| - 1;
      MulDist(m, 1, stride);
      FlatSize(rows[..m], n, alpha, stride);
    }
  }

  /** Pixel `i` of row `j`. */
  lemma PixelAt(rows: seq<seq<byte>>, n: nat, outN: nat, x: nat, i: nat, j: nat, out: seq<byte>)
    requires 1 <= n && (outN == n || outN == n + 1) && i < x && j < |rows| && out == Flat(rows, n, outN != n)
    requires forall k :: 0 <= k < |rows| ==> |rows[k]| == x * n
    ensures 0 <= (j * x + i) * outN && (j * x + i) * outN + outN <= |out|
    ensures out[(j * x + i) * outN..(j * x + i) * outN + outN] == PixelOf(PngSpec.Stored(rows[j], n, outN != n), i, outN)
  {
    hide Flat;
    hide Alpha;
    var alpha, stride := outN != n, x * outN;
    forall k | 0 <= k < |rows| ensures |PngSpec.Stored(rows[k], n, alpha)| == stride {
      AlphaLength(rows[k], n, x);
    }
    RowAt(rows, n, alpha, stride, j);
    Offsets(i, j, x, outN);
    PixelIn(PngSpec.Stored(rows[j], n, alpha), out, j * stride, stride, i * outN, i, outN);
  }

  lemma Offsets(i: nat, j: nat, x: nat, outN: nat)
    requires i < x
    ensures (j * x + i) * outN == j * (x * outN) + i * outN
    ensures 0 <= i * outN && i * outN + outN <= x * outN && 0 <= j * (x * outN)
  {
    MulDist(j * x, i, outN);
    MulAssoc(j, x, outN);
    MulDist(i, 1, outN);
    MulMono(0, i, outN);
    MulMono(i + 1, x, outN);
    MulMono(0, j, x * outN);
  }

  lemma PixelIn(row: seq<byte>, out: seq<byte>, a: nat, stride: nat, c: nat, i: nat, outN: nat)
    requires c == i * outN && c + outN <= stride == |row| && a + stride <= |out| && out[a..a + stride] == row
    ensures out[a + c..a + c + outN] == PixelOf(row, i, outN)
  {
    SliceOfSlice(out, a, a + stride, c, c + outN);
  }

  /** The rows of a reconstructed image have its size. */
  lemma {:induction false} ImageSize(raw: seq<byte>, n: nat, len: nat, y: nat, prior: seq<byte>)
    requires |raw| == DataSize(len, y) && |prior| == len
    ensures var i := ReconImage(raw, n, len, y, prior);
      i.Rows? ==> |i.rows| == y && forall k :: 0 <= k < y ==> |i.rows[k]| == len
    decreases y
  {
    hide Recon;
    if y > 0 && raw[0] <= 4 {
      ImageSize(raw[len + 1..], n, len, y - 1, Recon(raw[0], n, raw[1..len + 1], prior));
    }
  }

  // ---------- the image ----------

  /** Scatter a pass over the image. */
  method Scatter(final: array2<seq<byte>>, out: array<byte>, p: nat, outN: nat, x: nat, y: nat,
                 ghost n: nat, ghost done: seq<seq<seq<byte>>>, ghost rows: seq<seq<byte>>)
    requires p < PASSES && x == Cols(final.Length1, p) && y == Lines(final.Length0, p) && x > 0
    requires 1 <= n && (outN == n || outN == n + 1) && out[..] == Flat(rows, n, outN != n)
    requires |done| == p && |rows| == y && forall k :: 0 <= k < y ==> |rows[k]| == x * n
    requires forall x: nat, y: nat {:trigger final[y, x]} :: x < final.Length1 && y < final.Length0 && Written(p, 0, 0, x, y) ==>
               final[y, x] == Wanted(done, n, outN, x, y)
    modifies final
    ensures forall x: nat, y: nat {:trigger final[y, x]} :: x < final.Length1 && y < final.Length0 && Written(p + 1, 0, 0, x, y) ==>
              final[y, x] == Wanted(done + [rows], n, outN, x, y)
  {
    hide PassOf;
    hide Count;
    hide Place;
    hide Written;
    hide Wanted;
    hide Flat;
    hide PixelOf;
    var w, h := final.Length1, final.Length0;
    ghost var ps := done + [rows];
    Spacings(p);
    forall x: nat, y: nat {:trigger final[y, x]} | x < w && y < h && Written(p, 0, 0, x, y) ensures final[y, x] == Wanted(ps, n, outN, x, y) {
      StillWanted(done, rows, n, outN, x, y);
    }
    var j := 0;
    while j < y
      invariant j <= y
      invariant forall x: nat, y: nat {:trigger final[y, x]} :: x < w && y < h && Written(p, j, 0, x, y) ==> final[y, x] == Wanted(ps, n, outN, x, y)
    {
      var i := 0;
      while i < x
        invariant i <= x
        invariant forall x: nat, y: nat {:trigger final[y, x]} :: x < w && y < h && Written(p, j, i, x, y) ==> final[y, x] == Wanted(ps, n, outN, x, y)
      {
        var outY, outX := Place(j, YORIG[p], YSPC[p]), Place(i, XORIG[p], XSPC[p]);
        CountIs(h, YORIG[p], YSPC[p], j);
        CountIs(w, XORIG[p], XSPC[p], i);
        PixelAt(rows, n, outN, x, i, j, out[..]);
        PixelWanted(done, rows, n, outN, p, i, j);
        final[outY, outX] := out[(j * x + i) * outN..(j * x + i) * outN + outN];
        forall x: nat, y: nat {:trigger final[y, x]} | x < w && y < h && Written(p, j, i + 1, x, y) ensures final[y, x] == Wanted(ps, n, outN, x, y) {
          WrittenNext(p, j, i, x, y);
        }
        i := i + 1;
      }
      forall x: nat, y: nat {:trigger final[y, x]} | x < w && y < h && Written(p, j + 1, 0, x, y) ensures final[y, x] == Wanted(ps, n, outN, x, y) {
        WrittenRow(p, j, w, x, y);
      }
      j := j + 1;
    }
    forall x: nat, y: nat {:trigger final[y, x]} | x < w && y < h && Written(p + 1, 0, 0, x, y) ensures final[y, x] == Wanted(ps, n, outN, x, y) {
      WrittenPass(p, w, h, x, y);
    }
  }

  /** Another pass does not change what is wanted for the pixels of the passes before. */
  lemma StillWanted(done: seq<seq<seq<byte>>>, rows: seq<seq<byte>>, n: nat, outN: nat, x: nat, y: nat)
    requires |done| < PASSES && Written(|done|, 0, 0, x, y)
    ensures Wanted(done + [rows], n, outN, x, y) == Wanted(done, n, outN, x, y)
  {
    hide PassOf;
    Fresh(|done|, x, y);
  }

  lemma PixelWanted(done: seq<seq<seq<byte>>>, rows: seq<seq<byte>>, n: nat, outN: nat, p: nat, i: nat, j: nat)
    requires p == |done| < PASSES && j < |rows|
    ensures Wanted(done + [rows], n, outN, Place(i, XORIG[p], XSPC[p]), Place(j, YORIG[p], YSPC[p]))
         == PixelOf(PngSpec.Stored(rows[j], n, outN != n), i, outN)
  {
    hide PassOf;
    hide Place;
    hide PixelOf;
    hide PngSpec.Stored;
    PlaceIs(p, i, j);
  }

  /** stbi__create_png_image for an interlaced image: succeeds exactly when all passes can be reconstructed,
      and then each place of the image has its pixel. */
  method CreateInterlaced(a: PngImage, raw: seq<byte>, w: nat, h: nat, n: nat, outN: nat) returns (ok: bool, final: array2<seq<byte>>)
    requires 1 <= n <= 4 && (outN == n || outN == n + 1)
    modifies a
    ensures final.Length0 == h && final.Length1 == w
    ensures ok <==> ReadPasses(raw, w, h, n, 0).Passes?
    ensures ok ==> forall x: nat, y: nat {:trigger final[y, x]} :: x < w && y < h ==>
                     final[y, x] == Wanted(ReadPasses(raw, w, h, n, 0).rows, n, outN, x, y)
  {
    hide PassOf;
    hide Written;
    hide Wanted;
    hide Cols;
    hide Lines;
    hide Flat;
    hide ReconImage;
    hide DataSize;
    hide Zeros;
    hide ReadPasses;
    hide AllBefore;
    final := new seq<byte>[h, w];
    ghost var all := ReadPasses(raw, w, h, n, 0);
    ghost var done: seq<seq<seq<byte>>> := [];
    var rest, p := raw, 0;
    NothingBefore(all);
    forall x: nat, y: nat ensures !Written(0, 0, 0, x, y) {
      Fresh(0, x, y);
    }
    while p < PASSES
      invariant p <= PASSES && |done| == p && fresh(final) && final.Length0 == h && final.Length1 == w
      invariant all == AllBefore(done, ReadPasses(rest, w, h, n, p))
      invariant forall x: nat, y: nat {:trigger final[y, x]} :: x < w && y < h && Written(p, 0, 0, x, y) ==> final[y, x] == Wanted(done, n, outN, x, y)
    {
      var x, y := Cols(w, p), Lines(h, p);
      NextPass(rest, w, h, n, p, done);
      if x != 0 && y != 0 {
        var imgLen := (x * n + 1) * y;
        DataSizeIs(x * n, y);
        ok := a.CreateRaw(rest, x, y, n, outN, x == w && y == h);
        if !ok {
          return;
        }
        ghost var rows := ReconImage(rest[..imgLen], n, x * n, y, Zeros(x * n)).rows;
        ImageSize(rest[..imgLen], n, x * n, y, Zeros(x * n));
        Scatter(final, a.out, p, outN, x, y, n, done, rows);
        rest := rest[imgLen..];
        done := done + [rows];
      } else {
        EmptyPass(final, p, n, outN, done);
        done := done + [[]];
      }
      p := p + 1;
    }
    LastPass(rest, w, h, n, done);
    forall x: nat, y: nat {:trigger final[y, x]} | x < w && y < h ensures final[y, x] == Wanted(done, n, outN, x, y) {
      AllWritten(x, y);
    }
    ok := true;
  }

  lemma NothingBefore(ps: Passes)
    ensures AllBefore([], ps) == ps
  {
    assert ps.Passes? ==> [] + ps.rows == ps.rows;
  }

  lemma NextPass(raw: seq<byte>, w: nat, h: nat, n: nat, p: nat, done: seq<seq<seq<byte>>>)
    requires p < PASSES
    ensures var x, y, all := Cols(w, p), Lines(h, p), AllBefore(done, ReadPasses(raw, w, h, n, p));
      if x == 0 || y == 0 then all == AllBefore(done + [[]], ReadPasses(raw, w, h, n, p + 1))
      else
        var size := DataSize(x * n, y);
        if |raw| < size || (x == w && y == h && |raw| != size) || ReconImage(raw[..size], n, x * n, y, Zeros(x * n)).BadFilter? then all == NoPasses
        else
          all == AllBefore(done + [ReconImage(raw[..size], n, x * n, y, Zeros(x * n)).rows], ReadPasses(raw[size..], w, h, n, p + 1))
  {
    hide ReconImage;
    hide DataSize;
    hide Zeros;
    hide Cols;
    hide Lines;
    var x, y := Cols(w, p), Lines(h, p);
    if x == 0 || y == 0 {
      OneMorePass(done, [], ReadPasses(raw, w, h, n, p + 1));
    } else {
      var size := DataSize(x * n, y);
      if |raw| >= size {
        var i := ReconImage(raw[..size], n, x * n, y, Zeros(x * n));
        if i.Rows? {
          OneMorePass(done, i.rows, ReadPasses(raw[size..], w, h, n, p + 1));
        }
      }
    }
  }

  lemma LastPass(raw: seq<byte>, w: nat, h: nat, n: nat, done: seq<seq<seq<byte>>>)
    ensures AllBefore(done, ReadPasses(raw, w, h, n, PASSES)) == Passes(done)
  {
    assert done + [] == done;
  }

  /** A pass without pixels. */
  lemma EmptyPass(final: array2<seq<byte>>, p: nat, n: nat, outN: nat, done: seq<seq<seq<byte>>>)
    requires p == |done| < PASSES && (Cols(final.Length1, p) == 0 || Lines(final.Length0, p) == 0)
    requires forall x: nat, y: nat {:trigger final[y, x]} :: x < final.Length1 && y < final.Length0 && Written(p, 0, 0, x, y) ==>
               final[y, x] == Wanted(done, n, outN, x, y)
    ensures forall x: nat, y: nat {:trigger final[y, x]} :: x < final.Length1 && y < final.Length0 && Written(p + 1, 0, 0, x, y) ==>
              final[y, x] == Wanted(done + [[]], n, outN, x, y)
  {
    hide PassOf;
    hide Count;
    hide Place;
    hide Written;
    hide Wanted;
    var w, h := final.Length1, final.Length0;
    forall x: nat, y: nat {:trigger final[y, x]} | x < w && y < h && Written(p + 1, 0, 0, x, y)
      ensures final[y, x] == Wanted(done + [[]], n, outN, x, y)
    {
      WrittenPass(p, w, h, x, y);
      StillWanted(done, [], n, outN, x, y);
    }
  }

  // ---------- interlacing inverts ----------

  /** The first `cols` pixels of row `j` of a pass. */
  function PassRow(img: (nat, nat) -> seq<byte>, p: nat, j: nat, cols: nat): seq<byte>
    requires p < PASSES
  {
    if cols == 0 then [] else PassRow(img, p, j, cols - 1) + img(Place(cols - 1, XORIG[p], XSPC[p]), Place(j, YORIG[p], YSPC[p]))
  }

  function PassRows(img: (nat, nat) -> seq<byte>, p: nat, cols: nat, lines: nat): (r: seq<seq<byte>>)
    requires p < PASSES
    ensures |r| == lines && forall j :: 0 <= j < lines ==> r[j] == PassRow(img, p, j, cols)
  {
    if lines == 0 then [] else PassRows(img, p, cols, lines - 1) + [PassRow(img, p, lines - 1, cols)]
  }

  /** Each pixel has `n` bytes. */
  ghost predicate Pixels(img: (nat, nat) -> seq<byte>, n: nat) {
    forall x, y :: |img(x, y)| == n
  }

  lemma {:induction false} PassRowSize(img: (nat, nat) -> seq<byte>, n: nat, p: nat, j: nat, cols: nat)
    requires p < PASSES && Pixels(img, n)
    ensures |PassRow(img, p, j, cols)| == cols * n
    decreases cols
  {
    hide Place;
    if cols > 0 {
      PassRowSize(img, n, p, j, cols - 1);
      MulDist(cols - 1, 1, n);
    }
  }

  /** The pass has pixels. */
  predicate HasPixels(w: nat, h: nat, p: nat)
    requires p < PASSES
  {
    Cols(w, p) != 0 && Lines(h, p) != 0
  }

  /** A filter for each row of each pass. */
  predicate Filters(types: seq<seq<nat>>, h: nat) {
    && |types| == PASSES
    && forall p: nat {:trigger types[p]} :: p < PASSES ==> |types[p]| == Lines(h, p) && forall j :: 0 <= j < |types[p]| ==> types[p][j] <= 4
  }

  /** The data of the passes from `p` on. */
  ghost function PassData(img: (nat, nat) -> seq<byte>, w: nat, h: nat, n: nat, types: seq<seq<nat>>, p: nat): seq<byte>
    requires p <= PASSES && Pixels(img, n) && Filters(types, h)
    decreases PASSES - p
  {
    if p == PASSES then []
    else if !HasPixels(w, h, p) then PassData(img, w, h, n, types, p + 1)
    else OnePassData(img, w, h, n, types, p) + PassData(img, w, h, n, types, p + 1)
  }

  /** The bytes of a row of a pass. */
  function RowBytes(w: nat, n: nat, p: nat): nat
    requires p < PASSES
  {
    MulMono(0, Cols(w, p), n);
    Cols(w, p) * n
  }

  lemma PassRowsFit(img: (nat, nat) -> seq<byte>, w: nat, h: nat, n: nat, p: nat)
    requires p < PASSES && Pixels(img, n)
    ensures forall j :: 0 <= j < Lines(h, p) ==> |PassRows(img, p, Cols(w, p), Lines(h, p))[j]| == RowBytes(w, n, p)
  {
    hide Cols;
    hide Lines;
    forall j | 0 <= j < Lines(h, p) ensures |PassRow(img, p, j, Cols(w, p))| == RowBytes(w, n, p) {
      PassRowSize(img, n, p, j, Cols(w, p));
    }
  }

  ghost function OnePassData(img: (nat, nat) -> seq<byte>, w: nat, h: nat, n: nat, types: seq<seq<nat>>, p: nat): (r: seq<byte>)
    requires p < PASSES && Pixels(img, n) && Filters(types, h)
    ensures |r| == DataSize(RowBytes(w, n, p), Lines(h, p))
  {
    PassRowsFit(img, w, h, n, p);
    FilterImage(PassRows(img, p, Cols(w, p), Lines(h, p)), types[p], n, Zeros(RowBytes(w, n, p)))
  }

  /** The rows of pass `p`, if it has any pixels. */
  function OnePassRows(img: (nat, nat) -> seq<byte>, w: nat, h: nat, p: nat): seq<seq<byte>>
    requires p < PASSES
  {
    if HasPixels(w, h, p) then PassRows(img, p, Cols(w, p), Lines(h, p)) else []
  }

  /** The rows of the passes from `p` on. */
  ghost function AllPasses(img: (nat, nat) -> seq<byte>, w: nat, h: nat, p: nat): (r: seq<seq<seq<byte>>>)
    requires p <= PASSES
    ensures |r| == PASSES - p
    decreases PASSES - p
  {
    if p == PASSES then []
    else [OnePassRows(img, w, h, p)] + AllPasses(img, w, h, p + 1)
  }

  /** Only the first pass can be as large as the image, and then there are no others. */
  lemma WholePass(w: nat, h: nat, p: nat, q: nat)
    requires p < q < PASSES && HasPixels(w, h, p) && Cols(w, p) == w && Lines(h, p) == h
    ensures !HasPixels(w, h, q)
  {
    OneByOne(w, XORIG[p], XSPC[p]);
    OneByOne(h, YORIG[p], YSPC[p]);
    if p == 0 {
      if q == 1 {} else if q == 2 {} else if q == 3 {} else if q == 4 {} else if q == 5 {} else {}
    } else if p == 1 {} else if p == 2 {} else if p == 3 {} else if p == 4 {} else {}
  }

  lemma OneByOne(size: nat, orig: nat, spc: nat)
    requires orig < spc && Count(size, orig, spc) == size && size > 0
    ensures spc == 1 || (size == 1 && orig == 0)
  {
    BelowQuotient(size - orig + spc - 1, spc, size - 1);
    MulDist(size - 1, 1, spc);
    if spc >= 2 {
      MulMono(2, spc, size - 1);
      Swap(spc, size - 1);
    }
  }

  lemma {:induction false} NoMoreData(img: (nat, nat) -> seq<byte>, w: nat, h: nat, n: nat, types: seq<seq<nat>>, p: nat, q: nat)
    requires p < q <= PASSES && Pixels(img, n) && Filters(types, h) && HasPixels(w, h, p) && Cols(w, p) == w && Lines(h, p) == h
    ensures PassData(img, w, h, n, types, q) == []
    decreases PASSES - q
  {
    if q < PASSES {
      WholePass(w, h, p, q);
      NoMoreData(img, w, h, n, types, p, q + 1);
    }
  }

  /** Reading the data of an interlaced image gives its passes. */
  lemma {:induction false} ReadsPasses(img: (nat, nat) -> seq<byte>, w: nat, h: nat, n: nat, types: seq<seq<nat>>, p: nat)
    requires p <= PASSES && Pixels(img, n) && Filters(types, h)
    ensures ReadPasses(PassData(img, w, h, n, types, p), w, h, n, p) == Passes(AllPasses(img, w, h, p))
    decreases PASSES - p
  {
    hide ReadPasses;
    hide Cols;
    hide Lines;
    hide DataSize;
    hide ReconImage;
    hide OnePassData;
    hide PassRows;
    hide Zeros;
    hide Filters;
    hide Pixels;
    if p < PASSES {
      ReadsPasses(img, w, h, n, types, p + 1);
      if HasPixels(w, h, p) {
        PassBack(img, w, h, n, types, p);
        if Cols(w, p) == w && Lines(h, p) == h {
          NoMoreData(img, w, h, n, types, p, p + 1);
        }
        ReadOne(w, h, n, p, OnePassData(img, w, h, n, types, p), PassData(img, w, h, n, types, p + 1), PassRows(img, p, Cols(w, p), Lines(h, p)));
      } else {
        ReadNone(w, h, n, p, PassData(img, w, h, n, types, p));
      }
    } else {
      ReadEnd(w, h, n);
    }
  }

  lemma ReadEnd(w: nat, h: nat, n: nat)
    ensures ReadPasses([], w, h, n, PASSES) == Passes([])
  {
  }

  lemma ReadNone(w: nat, h: nat, n: nat, p: nat, raw: seq<byte>)
    requires p < PASSES && !HasPixels(w, h, p)
    ensures ReadPasses(raw, w, h, n, p) == Before([], ReadPasses(raw, w, h, n, p + 1))
  {
    hide Cols;
    hide Lines;
  }

  /** The data of one pass are read as its rows, and the rest as the passes behind. */
  lemma ReadOne(w: nat, h: nat, n: nat, p: nat, one: seq<byte>, rest: seq<byte>, rows: seq<seq<byte>>)
    requires p < PASSES && HasPixels(w, h, p)
    requires var x, y := Cols(w, p), Lines(h, p);
      && |one| == DataSize(x * n, y) && ReconImage(one, n, x * n, y, Zeros(x * n)) == Rows(rows) && (x == w && y == h ==> rest == [])
    ensures ReadPasses(one + rest, w, h, n, p) == Before(rows, ReadPasses(rest, w, h, n, p + 1))
  {
    hide Cols;
    hide Lines;
    hide DataSize;
    hide ReconImage;
    hide Zeros;
    var raw := one + rest;
    assert raw[..|one|] == one && raw[|one|..] == rest;
  }

  lemma PassBack(img: (nat, nat) -> seq<byte>, w: nat, h: nat, n: nat, types: seq<seq<nat>>, p: nat)
    requires p < PASSES && Pixels(img, n) && Filters(types, h)
    ensures var x, y := Cols(w, p), Lines(h, p);
      RowBytes(w, n, p) == x * n && ReconImage(OnePassData(img, w, h, n, types, p), n, x * n, y, Zeros(x * n)) == Rows(PassRows(img, p, x, y))
  {
    hide Cols;
    hide Lines;
    hide ReconImage;
    hide FilterImage;
    PassRowsFit(img, w, h, n, p);
    ImageRoundTrip(PassRows(img, p, Cols(w, p), Lines(h, p)), types[p], n, Zeros(RowBytes(w, n, p)));
  }

  /** The pixel with the byte that may be added. */
  function WithAlpha(px: seq<byte>, alpha: bool): seq<byte> {
    if alpha then px + [255] else px
  }

  /** One more pixel of a row. */
  lemma StoredSnoc(row: seq<byte>, px: seq<byte>, n: nat, alpha: bool)
    requires |px| == n >= 1
    ensures PngSpec.Stored(row + px, n, alpha) == PngSpec.Stored(row, n, alpha) + WithAlpha(px, alpha)
  {
    var r := row + px;
    assert r[..|r| - n] == row && r[|r| - n..] == px;
  }

  lemma PixelFront(s: seq<byte>, t: seq<byte>, i: nat, outN: nat)
    requires 0 <= i * outN && i * outN + outN <= |s|
    ensures PixelOf(s + t, i, outN) == PixelOf(s, i, outN)
  {
  }

  lemma PixelBack(s: seq<byte>, t: seq<byte>, m: nat, outN: nat)
    requires |s| == m * outN && |t| == outN
    ensures PixelOf(s + t, m, outN) == t
  {
  }

  lemma {:induction false} RowPixel(img: (nat, nat) -> seq<byte>, n: nat, outN: nat, p: nat, j: nat, cols: nat, i: nat)
    requires p < PASSES && Pixels(img, n) && 1 <= n && (outN == n || outN == n + 1) && i < cols
    ensures PixelOf(PngSpec.Stored(PassRow(img, p, j, cols), n, outN != n), i, outN)
         == WithAlpha(img(Place(i, XORIG[p], XSPC[p]), Place(j, YORIG[p], YSPC[p])), outN != n)
    decreases cols
  {
    hide Place;
    hide PngSpec.Stored;
    hide PixelOf;
    hide WithAlpha;
    var m := cols - 1;
    var before, px := PassRow(img, p, j, m), img(Place(m, XORIG[p], XSPC[p]), Place(j, YORIG[p], YSPC[p]));
    StoredSnoc(before, px, n, outN != n);
    StoredSize(img, n, outN, p, j, m, px);
    var s, t := PngSpec.Stored(before, n, outN != n), WithAlpha(px, outN != n);
    if i < m {
      RowPixel(img, n, outN, p, j, m, i);
      Offsets(i, 0, m, outN);
      PixelFront(s, t, i, outN);
    } else {
      PixelBack(s, t, m, outN);
    }
  }

  lemma StoredSize(img: (nat, nat) -> seq<byte>, n: nat, outN: nat, p: nat, j: nat, m: nat, px: seq<byte>)
    requires p < PASSES && Pixels(img, n) && 1 <= n == |px| && (outN == n || outN == n + 1)
    ensures |PngSpec.Stored(PassRow(img, p, j, m), n, outN != n)| == m * outN && |WithAlpha(px, outN != n)| == outN
  {
    hide Alpha;
    hide PassRow;
    PassRowSize(img, n, p, j, m);
    AlphaLength(PassRow(img, p, j, m), n, m);
  }

  /** Interlacing an image with any filters, and reading it back, gives each pixel, with the byte added. */
  lemma InterlaceRoundTrip(img: (nat, nat) -> seq<byte>, w: nat, h: nat, n: nat, outN: nat, types: seq<seq<nat>>, x: nat, y: nat)
    requires Pixels(img, n) && Filters(types, h) && 1 <= n && (outN == n || outN == n + 1) && x < w && y < h
    ensures var ps := ReadPasses(PassData(img, w, h, n, types, 0), w, h, n, 0);
      ps.Passes? && Wanted(ps.rows, n, outN, x, y) == WithAlpha(img(x, y), outN != n)
  {
    hide PassOf;
    hide PixelOf;
    hide PngSpec.Stored;
    hide ReadPasses;
    hide PassRow;
    hide PassRows;
    hide Place;
    hide Cols;
    hide Lines;
    hide WithAlpha;
    hide Pixels;
    hide Filters;
    hide PassData;
    hide AllPasses;
    hide Wanted;
    ReadsPasses(img, w, h, n, types, 0);
    var p := PassOf(x, y);
    PlaceBack(w, h, x, y);
    var i, j := x / XSPC[p], y / YSPC[p];
    NthPass(img, w, h, 0, p);
    WantedIs(AllPasses(img, w, h, 0), PassRows(img, p, Cols(w, p), Lines(h, p)), n, outN, x, y, i, j);
    RowPixel(img, n, outN, p, j, Cols(w, p), i);
  }

  lemma WantedIs(ps: seq<seq<seq<byte>>>, rows: seq<seq<byte>>, n: nat, outN: nat, x: nat, y: nat, i: nat, j: nat)
    requires var p := PassOf(x, y); p < |ps| && ps[p] == rows && XSPC[p] >= 1 && YSPC[p] >= 1 && i == x / XSPC[p] && j == y / YSPC[p] && j < |rows|
    ensures Wanted(ps, n, outN, x, y) == PixelOf(PngSpec.Stored(rows[j], n, outN != n), i, outN)
  {
    hide PassOf;
    hide PixelOf;
    hide PngSpec.Stored;
  }

  /** A place in the image is that of a pixel of its pass. */
  lemma PlaceBack(w: nat, h: nat, x: nat, y: nat)
    requires x < w && y < h
    ensures var p := PassOf(x, y);
      && XSPC[p] >= 1 && YSPC[p] >= 1 && Spacing(XORIG[p], XSPC[p]) && Spacing(YORIG[p], YSPC[p])
      && x == Place(x / XSPC[p], XORIG[p], XSPC[p]) && y == Place(y / YSPC[p], YORIG[p], YSPC[p])
      && x / XSPC[p] < Cols(w, p) && y / YSPC[p] < Lines(h, p) && HasPixels(w, h, p)
  {
    hide PassOf;
    hide Count;
    var p := PassOf(x, y);
    Spacings(p);
    OnePass(p, x, y);
    Divided(x, XSPC[p]);
    Divided(y, YSPC[p]);
    CountIs(w, XORIG[p], XSPC[p], x / XSPC[p]);
    CountIs(h, YORIG[p], YSPC[p], y / YSPC[p]);
  }

  lemma Divided(x: nat, d: nat)
    requires d >= 1
    ensures x / d >= 0 && x == x / d * d + x % d
  {
  }

  lemma AllPassesSplit(img: (nat, nat) -> seq<byte>, w: nat, h: nat, p: nat)
    requires p < PASSES
    ensures AllPasses(img, w, h, p) == [OnePassRows(img, w, h, p)] + AllPasses(img, w, h, p + 1)
  {
    hide OnePassRows;
  }

  lemma {:induction false} NthPass(img: (nat, nat) -> seq<byte>, w: nat, h: nat, q: nat, p: nat)
    requires q <= p < PASSES
    ensures AllPasses(img, w, h, q)[p - q] == OnePassRows(img, w, h, p)
    decreases p - q
  {
    hide *;
    AllPassesSplit(img, w, h, q);
    if q < p {
      NthPass(img, w, h, q + 1, p);
    }
  }
}
