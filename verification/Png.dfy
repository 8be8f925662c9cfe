/** Reconstructing the rows of 8-bit PNG images in place: stbi__create_png_image_raw in
    DuiLib/Utils/stb_image.c.
  */
module Png {
  import opened Bits
  import opened PngSpec
  import opened Seqs

  const F_NONE: nat := 0
  const F_SUB: nat := 1
  const F_UP: nat := 2
  const F_AVG: nat := 3
  const F_PAETH: nat := 4
  // synthetic filters for the first row, which has no row above
  const F_AVG_FIRST: nat := 5
  const F_PAETH_FIRST: nat := 6

  const FIRST_ROW_FILTER: seq<nat> := [F_NONE, F_SUB, F_NONE, F_AVG_FIRST, F_PAETH_FIRST]

  function RowFilter(t: nat, first: bool): (r: nat)
    requires t <= 4
    ensures r <= F_PAETH_FIRST && (first ==> !ReadsUp(r))
  {
    if first then FIRST_ROW_FILTER[t] else t
  }

  /** The filters that look at the row above. */
  predicate ReadsUp(filter: nat) {
    F_UP <= filter <= F_PAETH
  }

  /** A byte of the first pixel. */
  function FirstSample(filter: nat, f: byte, up: byte): byte {
    if filter == F_UP then (f + up) % 256
    else if filter == F_AVG then (f + up / 2) % 256
    else if filter == F_PAETH then (f + Paeth(0, up, 0)) % 256
    else f
  }

  /** A byte of any other pixel. */
  function Sample(filter: nat, f: byte, left: byte, up: byte, upLeft: byte): byte {
    if filter == F_SUB then (f + left) % 256
    else if filter == F_UP then (f + up) % 256
    else if filter == F_AVG then (f + (up + left) / 2) % 256
    else if filter == F_PAETH then (f + Paeth(left, up, upLeft)) % 256
    else if filter == F_AVG_FIRST then (f + left / 2) % 256
    else if filter == F_PAETH_FIRST then (f + Paeth(left, 0, 0)) % 256
    else f
  }

  /** The formulas are those of the specification; what a filter does not read does not matter. */
  lemma Formulas(t: nat, first: bool, f: byte, left: byte, up: byte, upLeft: byte, up': byte, upLeft': byte)
    requires t <= 4 && (first ==> up == 0 && upLeft == 0)
    requires ReadsUp(RowFilter(t, first)) ==> up' == up && upLeft' == upLeft
    ensures Sample(RowFilter(t, first), f, left, up', upLeft') == Plus(f, Predict(t, left, up, upLeft))
    ensures FirstSample(RowFilter(t, first), f, up') == Plus(f, Predict(t, 0, up, 0))
  {
    hide FirstSample;
    hide Paeth;
    FirstFormula(t, first, f, up, up');
  }

  lemma FirstFormula(t: nat, first: bool, f: byte, up: byte, up': byte)
    requires t <= 4 && (first ==> up == 0) && (ReadsUp(RowFilter(t, first)) ==> up' == up)
    ensures FirstSample(RowFilter(t, first), f, up') == Plus(f, Predict(t, 0, up, 0))
  {
  }

  /** What is written ends with the row `prior`, or the next row is the first and `prior` is all zeros. */
  ghost predicate IsAbove(h: seq<byte>, stride: nat, prior: seq<byte>, n: nat, alpha: bool, first: bool) {
    && |Stored(prior, n, alpha)| == stride
    && (if first then prior == Zeros(|prior|) else stride <= |h| && h[|h| - stride..] == Stored(prior, n, alpha))
  }

  /** The first `m` bytes of row `a` stand behind `h`. */
  ghost predicate RowSoFar(o: seq<byte>, h: seq<byte>, a: seq<byte>, m: nat) {
    |h| + m <= |o| && m <= |a| && o[..|h| + m] == h + a[..m]
  }

  class PngImage {
    var out: array<byte>

    constructor ()
      ensures fresh(out)
    {
      out := new byte[0];
    }

    /** The row at `c0` is below `prior`, or it is the first. */
    ghost predicate Below(c0: nat, stride: nat, prior: seq<byte>, n: nat, alpha: bool, first: bool)
      reads this, out
    {
      c0 + stride <= out.Length && IsAbove(out[..c0], stride, prior, n, alpha, first)
    }

    /** The byte above a position, if the filter reads it. */
    method Up(pos: nat, stride: nat, filter: nat) returns (b: byte)
      requires pos < out.Length && (ReadsUp(filter) ==> pos >= stride)
      ensures ReadsUp(filter) ==> b == out[pos - stride]
    {
      b := if ReadsUp(filter) then out[pos - stride] else 0;
    }

    /** The first pixel of a row. */
    method FirstPixel(raw: seq<byte>, rawPos: nat, c0: nat, stride: nat, n: nat, filter: nat,
                      ghost len: nat, ghost t: nat, ghost prior: seq<byte>, ghost alpha: bool, ghost first: bool)
      requires Below(c0, stride, prior, n, alpha, first) && 1 <= n <= len == |prior| && n <= stride
      requires t <= 4 && filter == RowFilter(t, first) && rawPos + len <= |raw|
      requires alpha ==> Whole(len - n, n)
      modifies out
      ensures var r := Recon(t, n, raw[rawPos..rawPos + len], prior);
        out[..c0] == old(out[..c0]) && out[c0..c0 + n] == r[..n]
    {
      hide Recon;
      hide Stored;
      hide Sample;
      ghost var f := raw[rawPos..rawPos + len];
      ghost var r := Recon(t, n, f, prior);
      var k := 0;
      while k < n
        invariant k <= n && out[..c0] == old(out[..c0])
        invariant forall i {:trigger r[i]} :: 0 <= i < k ==> out[c0 + i] == r[i]
      {
        var up := Up(c0 + k, stride, filter);
        ReconAt(t, n, f, prior, k);
        AboveFirst(prior, n, alpha, k);
        assert ReadsUp(filter) ==> up == out[c0 - stride..c0][k];
        Formulas(t, first, raw[rawPos + k], 0, prior[k], 0, up, 0);
        out[c0 + k] := FirstSample(filter, raw[rawPos + k], up);
        k := k + 1;
      }
    }

    /** Reconstruct the byte at `pos`, which is behind the first pixel. */
    method PutSample(pos: nat, back: nat, stride: nat, filter: nat, f: byte,
                     ghost t: nat, ghost first: bool, ghost up: byte, ghost upLeft: byte)
      requires back < pos < out.Length && t <= 4 && filter == RowFilter(t, first) && (first ==> up == 0 && upLeft == 0)
      requires !first ==> back >= stride && up == out[pos - stride] && upLeft == out[back - stride]
      modifies out
      ensures out[..] == old(out[..])[pos := Plus(f, Predict(t, old(out[back]), up, upLeft))]
    {
      hide Sample;
      var u := Up(pos, stride, filter);
      var ul := Up(back, stride, filter);
      Formulas(t, first, f, out[back], up, upLeft, u, ul);
      out[pos] := Sample(filter, f, out[back], u, ul);
    }

    /** The rest of a row without an added byte. */
    method RestPlain(raw: seq<byte>, rawPos: nat, c0: nat, stride: nat, n: nat, filter: nat, len: nat,
                     ghost t: nat, ghost prior: seq<byte>, ghost first: bool)
      requires Below(c0, stride, prior, n, false, first) && 1 <= n <= len == |prior| == stride
      requires t <= 4 && filter == RowFilter(t, first) && rawPos + len <= |raw|
      requires out[c0..c0 + n] == Recon(t, n, raw[rawPos..rawPos + len], prior)[..n]
      modifies out
      ensures RowSoFar(out[..], old(out[..c0]), Recon(t, n, raw[rawPos..rawPos + len], prior), len)
    {
      hide Recon;
      hide Plus;
      hide Predict;
      hide RowFilter;
      hide RowSoFar;
      hide IsAbove;
      ghost var h := out[..c0];
      ghost var f := raw[rawPos..rawPos + len];
      ghost var r := Recon(t, n, f, prior);
      FirstSoFar(out[..], c0, r, n);
      var nk := len - n;
      var k := 0;
      while k < nk
        invariant k <= nk && RowSoFar(out[..], h, r, n + k)
      {
        var pos := c0 + n + k;
        ghost var o := out[..];
        PlainByte(o, h, t, n, f, prior, first, k);
        PutSample(pos, pos - n, stride, filter, raw[rawPos + n + k], t, first, prior[n + k], prior[k]);
        WriteNext(o, h, r, n + k);
        k := k + 1;
      }
    }

    /** A pixel behind the first, and the byte added to it. */
    method AlphaPixel(raw: seq<byte>, rawPos: nat, c: nat, stride: nat, n: nat, filter: nat,
                      ghost h: seq<byte>, ghost len: nat, ghost p: nat, ghost t: nat, ghost prior: seq<byte>, ghost first: bool)
      requires IsAbove(h, stride, prior, n, true, first) && 1 <= n <= p && p + n <= len == |prior|
      requires Whole(len - (p + n), n) && Whole(len - p, n) && |h| <= c <= |h| + stride <= out.Length
      requires t <= 4 && filter == RowFilter(t, first) && rawPos >= p && rawPos - p + len <= |raw|
      requires var r := Recon(t, n, raw[rawPos - p..rawPos - p + len], prior);
        |Alpha(r, n)| == stride && c == |h| + |Alpha(r[..p], n)| && RowSoFar(out[..], h, Alpha(r, n), c - |h|)
      modifies out
      ensures var r, m := Recon(t, n, raw[rawPos - p..rawPos - p + len], prior), c - |h| + n + 1;
        |Alpha(r[..p + n], n)| == m <= stride && RowSoFar(out[..], h, Alpha(r, n), m)
    {
      hide Recon;
      hide Plus;
      hide Predict;
      hide RowFilter;
      hide Alpha;
      hide Whole;
      hide IsAbove;
      hide RowSoFar;
      ghost var f := raw[rawPos - p..rawPos - p + len];
      ghost var r := Recon(t, n, f, prior);
      ghost var a, q := Alpha(r, n), c - |h|;
      AlphaEnd(r, n, p);
      var k := 0;
      while k < n
        invariant k <= n && RowSoFar(out[..], h, a, q + k)
      {
        var pos, back := c + k, c + k - (n + 1);
        ghost var o := out[..];
        AlphaByte(t, n, f, prior, p, k);
        RowSoFarAt(o, h, a, q + k, q - (n + 1) + k);
        AlphaAbove(o, h, a, q + k, stride, prior, n, first, q + k, p + k);
        AlphaAbove(o, h, a, q + k, stride, prior, n, first, q - (n + 1) + k, p + k - n);
        PutSample(pos, back, stride, filter, raw[rawPos + k], t, first, prior[p + k], prior[p + k - n]);
        WriteNext(o, h, a, q + k);
        k := k + 1;
      }
      ghost var o := out[..];
      out[c + n] := 255;
      assert out[..] == o[c + n := 255];
      WriteNext(o, h, a, q + n);
    }

    /** The rest of a row with an added byte. */
    method RestAlpha(raw: seq<byte>, rawPos0: nat, c1: nat, stride: nat, n: nat, filter: nat, x: nat,
                     ghost h: seq<byte>, ghost len: nat, ghost t: nat, ghost prior: seq<byte>, ghost first: bool)
      requires IsAbove(h, stride, prior, n, true, first) && 1 <= n <= 4 && 1 <= x && len == x * n == |prior|
      requires t <= 4 && filter == RowFilter(t, first) && rawPos0 >= n && rawPos0 - n + len <= |raw|
      requires c1 == |h| + n + 1 && |h| + stride <= out.Length
      requires var r := Recon(t, n, raw[rawPos0 - n..rawPos0 - n + len], prior);
        |Alpha(r[..n], n)| == n + 1 && RowSoFar(out[..], h, Alpha(r, n), n + 1)
      modifies out
      ensures var a := Alpha(Recon(t, n, raw[rawPos0 - n..rawPos0 - n + len], prior), n); |a| == stride && RowSoFar(out[..], h, a, stride)
    {
      hide Recon;
      hide Alpha;
      hide RowFilter;
      hide Whole;
      hide RowSoFar;
      ghost var start := rawPos0 - n;
      ghost var r := Recon(t, n, raw[start..start + len], prior);
      AlphaSame(r, prior, n);
      ghost var p := n;
      var c, rawPos, i := c1, rawPos0, x - 1;
      MulDist(x - 1, 1, n);
      RowSoFarAt(out[..], h, Alpha(r, n), n + 1, 0);
      while i >= 1
        invariant 0 <= i < x && n <= p && len - p == i * n && rawPos == start + p
        invariant |h| <= c <= |h| + stride && c == |h| + |Alpha(r[..p], n)| && RowSoFar(out[..], h, Alpha(r, n), c - |h|)
        decreases i
      {
        MulDist(i - 1, 1, n);
        MulMono(0, i - 1, n);
        WholeProduct(i, n);
        WholeProduct(i - 1, n);
        AlphaPixel(raw, rawPos, c, stride, n, filter, h, len, p, t, prior, first);
        c, rawPos, i := c + n + 1, rawPos + n, i - 1;
        p := p + n;
      }
      assert r[..p] == r;
    }

    /** One row. */
    method ReconRow(raw: seq<byte>, rawPos: nat, c0: nat, stride: nat, n: nat, outN: nat, filter: nat, x: nat, len: nat,
                    ghost t: nat, ghost prior: seq<byte>, ghost first: bool)
      requires 1 <= n <= 4 && (outN == n || outN == n + 1) && 1 <= x && len == x * n == |prior| && stride == x * outN
      requires Below(c0, stride, prior, n, outN != n, first)
      requires t <= 4 && filter == RowFilter(t, first) && rawPos + len <= |raw|
      modifies out
      ensures out[..c0] == old(out[..c0])
      ensures out[c0..c0 + stride] == Stored(Recon(t, n, raw[rawPos..rawPos + len], prior), n, outN != n)
    {
      hide Recon;
      hide Alpha;
      hide RowFilter;
      hide Whole;
      hide RowSoFar;
      hide IsAbove;
      RowSizes(x, n, outN);
      ghost var r := Recon(t, n, raw[rawPos..rawPos + len], prior);
      ghost var h := out[..c0];
      FirstPixel(raw, rawPos, c0, stride, n, filter, len, t, prior, outN != n, first);
      assert out[..c0] == h;
      if n != outN {
        ghost var o := out[..];
        out[c0 + n] := 255;
        FirstStored(r, n, x, o, out[..], h);
        RestAlpha(raw, rawPos + n, c0 + outN, stride, n, filter, x, h, len, t, prior, first);
        RowParts(out[..], h, Alpha(r, n), stride);
      } else {
        RestPlain(raw, rawPos, c0, stride, n, filter, len, t, prior, first);
        RowParts(out[..], h, r, len);
      }
    }

    /** stbi__create_png_image_raw for samples of eight bits: reconstruct `y` rows of `x` pixels of `n`
        bytes; `outN` is one more to add a byte to each pixel.  `exact` says that no data may be left. */
    method CreateRaw(raw: seq<byte>, x: nat, y: nat, n: nat, outN: nat, exact: bool) returns (ok: bool)
      requires 1 <= x && 1 <= n <= 4 && (outN == n || outN == n + 1)
      modifies this
      ensures var size := DataSize(x * n, y);
        ok <==> (if exact then |raw| == size else |raw| >= size) && ReconImage(raw[..size], n, x * n, y, Zeros(x * n)).Rows?
      ensures ok ==>
                var rows := ReconImage(raw[..DataSize(x * n, y)], n, x * n, y, Zeros(x * n)).rows;
                fresh(out) && out[..] == Flat(rows, n, outN != n)
    {
      hide *;
      var stride, len := x * outN, x * n;
      var imgLen := (len + 1) * y;
      DataSizeIs(len, y);
      MulMono(0, y, stride);
      out := new byte[stride * y];
      if (exact && |raw| != imgLen) || (!exact && |raw| < imgLen) {
        return false;
      }
      ghost var alpha := outN != n;
      ghost var image := ReconImage(raw[..imgLen], n, len, y, Zeros(len));
      ghost var done: seq<seq<byte>>, prior := [], Zeros(len);
      var j: nat, rawPos: nat, c0: nat := 0, 0, 0;
      Begin(raw, n, len, y, imgLen, image);
      NothingDrawn(out[..], stride, len, n, alpha, y);
      while j < y
        invariant j <= y && fresh(out)
        invariant ToDo(raw, rawPos, imgLen, n, len, y - j, prior, done, image)
        invariant Drawn(out[..], c0, stride, len, n, alpha, y, j, prior, done)
      {
        RowOf(raw, rawPos, imgLen, n, len, y - j, prior, done, image);
        var t: nat := raw[rawPos];
        if t > 4 {
          return false;
        }
        ghost var row := Recon(t, n, raw[rawPos + 1..rawPos + 1 + len], prior);
        RowFits(out[..], c0, x, n, outN, y, j, prior, done);
        ghost var was := out[..];
        assert j > 0 ==> was[c0 - stride..c0] == out[c0 - stride..c0];
        BelowIs(c0, stride, prior, n, alpha, j == 0);
        var filter := RowFilter(t, j == 0);
        ReconRow(raw, rawPos + 1, c0, stride, n, outN, filter, x, len, t, prior, j == 0);
        assert out[..c0] == was[..c0];
        RowDrawn(was, out[..], c0, stride, len, n, alpha, y, j, prior, row, done);
        done, prior := done + [row], row;
        rawPos, c0, j := rawPos + 1 + len, c0 + stride, j + 1;
      }
      ImageDone(raw, rawPos, imgLen, n, len, prior, done, image);
      AllDrawn(out[..], c0, stride, len, n, alpha, y, prior, done);
      ok := true;
    }

    lemma BelowIs(c0: nat, stride: nat, prior: seq<byte>, n: nat, alpha: bool, first: bool)
      requires c0 + stride <= out.Length && |Stored(prior, n, alpha)| == stride
      requires if first then prior == Zeros(|prior|) else c0 >= stride && out[c0 - stride..c0] == Stored(prior, n, alpha)
      ensures Below(c0, stride, prior, n, alpha, first)
    {
    }
  }

  /** The rows `done` are reconstructed; `y` more, below `prior`, are read from `rawPos` on. */
  ghost predicate ToDo(raw: seq<byte>, rawPos: nat, imgLen: nat, n: nat, len: nat, y: nat, prior: seq<byte>,
                       done: seq<seq<byte>>, image: Image)
  {
    && rawPos <= imgLen <= |raw| && imgLen - rawPos == DataSize(len, y) && |prior| == len
    && image == OnTop(done, ReconImage(raw[rawPos..imgLen], n, len, y, prior))
  }

  /** The size of `y` rows. */
  function Total(stride: nat, y: nat): nat {
    if y == 0 then 0 else Total(stride, y - 1) + stride
  }

  lemma TotalNext(stride: nat, j: nat)
    ensures Total(stride, j + 1) == Total(stride, j) + stride
  {
  }

  lemma {:induction false} TotalIs(stride: nat, y: nat)
    ensures Total(stride, y) == stride * y
  {
    if y > 0 {
      TotalIs(stride, y - 1);
      MulDist(y - 1, 1, stride);
    }
  }

  lemma {:induction false} TotalMono(stride: nat, j: nat, y: nat)
    requires j <= y
    ensures Total(stride, j) <= Total(stride, y)
  {
    if j < y {
      TotalMono(stride, j, y - 1);
    }
  }

  /** The first `j` of `y` rows are stored in front of `c0`. */
  ghost predicate Drawn(o: seq<byte>, c0: nat, stride: nat, len: nat, n: nat, alpha: bool, y: nat, j: nat,
                        prior: seq<byte>, done: seq<seq<byte>>)
    requires j <= y
  {
    && |o| == Total(stride, y) && c0 == Total(stride, j) && c0 <= |o| && |prior| == len && o[..c0] == Flat(done, n, alpha)
    && (if j == 0 then prior == Zeros(len) else c0 >= stride && o[c0 - stride..c0] == Stored(prior, n, alpha))
  }

  lemma Begin(raw: seq<byte>, n: nat, len: nat, y: nat, imgLen: nat, image: Image)
    requires imgLen <= |raw| && imgLen == DataSize(len, y)
    requires image == ReconImage(raw[..imgLen], n, len, y, Zeros(len))
    ensures ToDo(raw, 0, imgLen, n, len, y, Zeros(len), [], image)
  {
    hide ReconImage;
    assert raw[0..imgLen] == raw[..imgLen];
    assert image.Rows? ==> [] + image.rows == image.rows;
  }

  lemma RowOf(raw: seq<byte>, rawPos: nat, imgLen: nat, n: nat, len: nat, y: nat, prior: seq<byte>, done: seq<seq<byte>>, image: Image)
    requires ToDo(raw, rawPos, imgLen, n, len, y, prior, done, image) && y > 0
    ensures rawPos + 1 + len <= imgLen <= |raw| && |prior| == len
    ensures raw[rawPos] > 4 ==> image == BadFilter
    ensures raw[rawPos] <= 4 ==>
              var row := Recon(raw[rawPos], n, raw[rawPos + 1..rawPos + 1 + len], prior);
              ToDo(raw, rawPos + 1 + len, imgLen, n, len, y - 1, row, done + [row], image)
  {
    hide ReconImage;
    hide Recon;
    var rest := raw[rawPos..imgLen];
    NextRow(rest, n, len, y, prior, done);
    SliceOfSlice(raw, rawPos, imgLen, 1, len + 1);
    SliceOfSlice(raw, rawPos, imgLen, len + 1, |rest|);
  }

  lemma ImageDone(raw: seq<byte>, rawPos: nat, imgLen: nat, n: nat, len: nat, prior: seq<byte>, done: seq<seq<byte>>, image: Image)
    requires ToDo(raw, rawPos, imgLen, n, len, 0, prior, done, image)
    ensures image == Rows(done)
  {
    assert done + [] == done;
  }

  lemma NothingDrawn(o: seq<byte>, stride: nat, len: nat, n: nat, alpha: bool, y: nat)
    requires |o| == stride * y
    ensures Drawn(o, 0, stride, len, n, alpha, y, 0, Zeros(len), [])
  {
    TotalIs(stride, y);
    assert o[..0] == [];
  }

  /** There is room for the next row. */
  lemma RowFits(o: seq<byte>, c0: nat, x: nat, n: nat, outN: nat, y: nat, j: nat, prior: seq<byte>, done: seq<seq<byte>>)
    requires 1 <= n && (outN == n || outN == n + 1) && j < y && Drawn(o, c0, x * outN, x * n, n, outN != n, y, j, prior, done)
    ensures var stride := x * outN;
      && c0 + stride <= |o| && |prior| == x * n && |Stored(prior, n, outN != n)| == stride
      && (if j == 0 then prior == Zeros(x * n) else c0 >= stride && o[c0 - stride..c0] == Stored(prior, n, outN != n))
  {
    hide Flat;
    hide Alpha;
    AlphaLength(prior, n, x);
    TotalMono(x * outN, j + 1, y);
  }

  lemma RowDrawn(was: seq<byte>, o: seq<byte>, c0: nat, stride: nat, len: nat, n: nat, alpha: bool, y: nat, j: nat,
                 prior: seq<byte>, row: seq<byte>, done: seq<seq<byte>>)
    requires j < y && Drawn(was, c0, stride, len, n, alpha, y, j, prior, done) && |o| == |was| && |row| == len
    requires c0 + stride <= |o| && o[..c0] == was[..c0] && o[c0..c0 + stride] == Stored(row, n, alpha)
    ensures Drawn(o, c0 + stride, stride, len, n, alpha, y, j + 1, row, done + [row])
  {
    hide Flat;
    hide Stored;
    hide Zeros;
    hide Total;
    TotalNext(stride, j);
    FlatNext(done, row, n, alpha);
    assert o[..c0 + stride] == o[..c0] + o[c0..c0 + stride];
  }

  lemma AllDrawn(o: seq<byte>, c0: nat, stride: nat, len: nat, n: nat, alpha: bool, y: nat, prior: seq<byte>, done: seq<seq<byte>>)
    requires Drawn(o, c0, stride, len, n, alpha, y, y, prior, done)
    ensures o == Flat(done, n, alpha)
  {
    assert o[..c0] == o;
  }

  /** The sizes of a row that has a pixel. */
  lemma RowSizes(x: nat, n: nat, outN: nat)
    requires 1 <= x && 1 <= n && (outN == n || outN == n + 1)
    ensures n <= x * n && outN <= x * outN && Whole(x * n - n, n)
  {
    MulMono(1, x, n);
    MulMono(1, x, outN);
    MulDist(x - 1, 1, n);
    WholeProduct(x - 1, n);
  }

  /** The first pixel and its added byte are stored in front. */
  /** The first pixel with its added byte. */
  lemma FirstStored(r: seq<byte>, n: nat, x: nat, was: seq<byte>, o: seq<byte>, h: seq<byte>)
    requires 1 <= n && 1 <= x && |r| == x * n && |h| + n + 1 <= |was| && o == was[|h| + n := 255]
    requires was[..|h|] == h && was[|h|..|h| + n] == r[..n]
    ensures |Alpha(r[..n], n)| == n + 1 && RowSoFar(o, h, Alpha(r, n), n + 1)
  {
    hide Whole;
    RowSizes(x, n, n);
    MulDist(x - 1, 1, n);
    AlphaEnd(r, n, 0);
    assert r[..0] == [];
    var a := Alpha(r, n);
    forall j {:trigger a[j]} | 0 <= j < n ensures a[j] == r[..n][j] {
      AlphaNext(r, n, 0, j);
    }
    assert a[..n + 1] == r[..n] + [255];
    assert o[..|h| + n + 1] == was[..|h|] + was[|h|..|h| + n] + [255];
  }

  lemma FirstSoFar(o: seq<byte>, c0: nat, r: seq<byte>, n: nat)
    requires c0 + n <= |o| && n <= |r| && o[c0..c0 + n] == r[..n]
    ensures RowSoFar(o, o[..c0], r, n)
  {
    assert o[..c0 + n] == o[..c0] + o[c0..c0 + n];
  }

  lemma RowSoFarAt(o: seq<byte>, h: seq<byte>, a: seq<byte>, m: nat, i: nat)
    requires RowSoFar(o, h, a, m) && i < m
    ensures |h| + m <= |o| && m <= |a| && o[|h| + i] == a[i]
  {
    assert o[|h| + i] == o[..|h| + m][|h| + i] == (h + a[..m])[|h| + i];
  }

  lemma WriteNext(o: seq<byte>, h: seq<byte>, a: seq<byte>, m: nat)
    requires RowSoFar(o, h, a, m) && m < |a| && |h| + m < |o|
    ensures RowSoFar(o[|h| + m := a[m]], h, a, m + 1)
  {
    var o' := o[|h| + m := a[m]];
    assert o'[..|h| + m + 1] == o[..|h| + m] + [a[m]];
    assert a[..m + 1] == a[..m] + [a[m]];
  }

  lemma RowParts(o: seq<byte>, h: seq<byte>, a: seq<byte>, m: nat)
    requires RowSoFar(o, h, a, m)
    ensures |h| + m <= |o| && m <= |a| && o[..|h|] == h && o[|h|..|h| + m] == a[..m]
    ensures m == |a| ==> o[|h|..|h| + m] == a
  {
    var s := o[..|h| + m];
    assert o[..|h|] == s[..|h|] && o[|h|..|h| + m] == s[|h|..];
  }

  /** What is above position `i` of a row. */
  lemma AboveAt(o: seq<byte>, h: seq<byte>, a: seq<byte>, m: nat, stride: nat, prior: seq<byte>, n: nat, alpha: bool, first: bool, i: nat)
    requires RowSoFar(o, h, a, m) && IsAbove(h, stride, prior, n, alpha, first) && i < stride
    ensures |Stored(prior, n, alpha)| == stride && |h| <= |o|
    ensures if first then prior == Zeros(|prior|) else stride <= |h| && o[|h| - stride + i] == Stored(prior, n, alpha)[i]
  {
    hide Stored;
    if !first {
      assert o[|h| - stride + i] == o[..|h| + m][|h| - stride + i] == h[|h| - stride..][i];
    }
  }

  lemma PlainAbove(o: seq<byte>, h: seq<byte>, a: seq<byte>, m: nat, stride: nat, prior: seq<byte>, n: nat, first: bool, i: nat)
    requires RowSoFar(o, h, a, m) && IsAbove(h, stride, prior, n, false, first) && i < stride == |prior|
    ensures |h| <= |o| && if first then prior[i] == 0 else stride <= |h| && o[|h| - stride + i] == prior[i]
  {
    hide RowSoFar;
    hide IsAbove;
    AboveAt(o, h, a, m, stride, prior, n, false, first, i);
  }

  lemma AlphaAbove(o: seq<byte>, h: seq<byte>, a: seq<byte>, m: nat, stride: nat, prior: seq<byte>, n: nat, first: bool, i: nat, k: nat)
    requires RowSoFar(o, h, a, m) && IsAbove(h, stride, prior, n, true, first) && i < stride
    requires k < |prior| && |Alpha(prior, n)| == stride && Alpha(prior, n)[i] == prior[k]
    ensures |h| <= |o| && if first then prior[k] == 0 else stride <= |h| && o[|h| - stride + i] == prior[k]
  {
    hide RowSoFar;
    hide IsAbove;
    AboveAt(o, h, a, m, stride, prior, n, true, first, i);
  }

  /** What a stored byte behind the first pixel is, by the stored bytes around it. */
  lemma AlphaByte(t: nat, n: nat, f: seq<byte>, prior: seq<byte>, p: nat, k: nat)
    requires t <= 4 && 1 <= n <= p && p + n <= |f| == |prior| && k < n
    requires Whole(|f| - (p + n), n) && Whole(|f| - p, n)
    ensures var r := Recon(t, n, f, prior); var a, u, q := Alpha(r, n), Alpha(prior, n), |Alpha(r[..p], n)|;
      && n + 1 <= q && q + n + 1 <= |a| == |u|
      && u[q + k] == prior[p + k] && u[q - (n + 1) + k] == prior[p + k - n]
      && a[q + k] == Plus(f[p + k], Predict(t, a[q - (n + 1) + k], prior[p + k], prior[p + k - n]))
  {
    hide Recon;
    hide Alpha;
    hide Predict;
    hide Whole;
    var r := Recon(t, n, f, prior);
    AlphaSame(r, prior, n);
    AlphaSame(r[..p], prior[..p], n);
    AlphaSame(r[..p - n], prior[..p - n], n);
    PixelBefore(r, n, p);
    ReconAt(t, n, f, prior, p + k);
    AlphaNext(r, n, p, k);
    AlphaNext(r, n, p - n, k);
    AlphaNext(prior, n, p, k);
    AlphaNext(prior, n, p - n, k);
  }

  /** The pixel before position `p` is stored one pixel before. */
  lemma PixelBefore(r: seq<byte>, n: nat, p: nat)
    requires 1 <= n <= p <= |r| && Whole(|r| - p, n)
    ensures |Alpha(r[..p], n)| == |Alpha(r[..p - n], n)| + n + 1
  {
    hide Alpha;
    hide Whole;
    assert p - n + n == p;
    AlphaEnd(r, n, p - n);
  }

  /** A byte behind the first pixel. */
  lemma PlainByte(o: seq<byte>, h: seq<byte>, t: nat, n: nat, f: seq<byte>, prior: seq<byte>, first: bool, k: nat)
    requires t <= 4 && n >= 1 && |f| == |prior| && n + k < |f|
    requires RowSoFar(o, h, Recon(t, n, f, prior), n + k) && IsAbove(h, |prior|, prior, n, false, first)
    ensures |h| + n + k <= |o|
    ensures Recon(t, n, f, prior)[n + k] == Plus(f[n + k], Predict(t, o[|h| + k], prior[n + k], prior[k]))
    ensures if first then prior[n + k] == 0 && prior[k] == 0
            else |prior| <= |h| && o[|h| - |prior| + (n + k)] == prior[n + k] && o[|h| - |prior| + k] == prior[k]
  {
    hide Recon;
    hide Plus;
    hide Predict;
    hide RowSoFar;
    hide IsAbove;
    var r, m := Recon(t, n, f, prior), n + k;
    ReconPlain(t, n, f, prior, k);
    RowSoFarAt(o, h, r, m, k);
    PlainAbove(o, h, r, m, |prior|, prior, n, first, m);
    PlainAbove(o, h, r, m, |prior|, prior, n, first, k);
  }

  lemma ReconPlain(t: nat, n: nat, f: seq<byte>, prior: seq<byte>, k: nat)
    requires t <= 4 && n >= 1 && |f| <= |prior| && n + k < |f|
    ensures var r := Recon(t, n, f, prior); r[n + k] == Plus(f[n + k], Predict(t, r[k], prior[n + k], prior[k]))
  {
    hide Recon;
    hide Plus;
    hide Predict;
    ReconAt(t, n, f, prior, n + k);
  }

  lemma AboveFirst(prior: seq<byte>, n: nat, alpha: bool, k: nat)
    requires 1 <= n <= |prior| && k < n && (alpha ==> Whole(|prior| - n, n))
    ensures k < |Stored(prior, n, alpha)| && Stored(prior, n, alpha)[k] == prior[k]
  {
    if alpha {
      AlphaNext(prior, n, 0, k);
      assert prior[..0] == [];
    }
  }
}
