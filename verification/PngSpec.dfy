/** The filters of PNG images, section 6 of RFC 2083. */
module PngSpec {
  import opened Bits

  function Abs(a: int): nat {
    if a < 0 then -a else a
  }

  /** stbi__paeth: the neighbour nearest to a + b - c. */
  function Paeth(a: int, b: int, c: int): int {
    var p := a + b - c;
    var pa, pb, pc := Abs(p - a), Abs(p - b), Abs(p - c);
    if pa <= pb && pa <= pc then a
    else if pb <= pc then b
    else c
  }

  /** Of the three neighbours the Paeth predictor is the one that is nearest to their sum and difference; of those
      that are equally near, the one to the left comes first, and then the one above (section 6.6 of RFC 2083). */
  lemma PaethNearest(a: int, b: int, c: int)
    ensures Paeth(a, b, c) in {a, b, c}
    ensures var p := a + b - c; var d := Abs(p - Paeth(a, b, c)); d <= Abs(p - a) && d <= Abs(p - b) && d <= Abs(p - c)
    ensures var p := a + b - c; var d := Abs(p - Paeth(a, b, c));
      (Paeth(a, b, c) != a ==> d < Abs(p - a)) && (Paeth(a, b, c) != a && Paeth(a, b, c) != b ==> d < Abs(p - b))
  {
  }

  /** What a filter predicts from the bytes to the left, above, and above to the left. */
  function Predict(t: nat, left: byte, up: byte, upLeft: byte): (r: byte)
    requires t <= 4
  {
    if t == 0 then 0
    else if t == 1 then left
    else if t == 2 then up
    else if t == 3 then (left + up) / 2
    else Paeth(left, up, upLeft)
  }

  /** The byte one pixel of `n` bytes before position `k`, and zero in the first pixel. */
  function Back(row: seq<byte>, k: nat, n: nat): byte {
    if n <= k && k - n < |row| then row[k - n] else 0
  }

  function Plus(a: byte, b: byte): byte {
    (a + b) % 256
  }

  function Minus(a: byte, b: byte): byte {
    (a + 256 - b) % 256
  }

  /** The row that was filtered to `f`, below the row `prior`. */
  function Recon(t: nat, n: nat, f: seq<byte>, prior: seq<byte>): (r: seq<byte>)
    requires t <= 4 && |f| <= |prior|
    ensures |r| == |f|
    decreases |f|
  {
    if f == [] then []
    else
      var k := |f| - 1;
      var r := Recon(t, n, f[..k], prior);
      r + [Plus(f[k], Predict(t, Back(r, k, n), prior[k], Back(prior, k, n)))]
  }

  /** The filtered row: what is left when the prediction is subtracted. */
  function Filter(t: nat, n: nat, row: seq<byte>, prior: seq<byte>): (f: seq<byte>)
    requires t <= 4 && |row| <= |prior|
    ensures |f| == |row|
    decreases |row|
  {
    if row == [] then []
    else
      var k := |row| - 1;
      Filter(t, n, row[..k], prior) + [Minus(row[k], Predict(t, Back(row[..k], k, n), prior[k], Back(prior, k, n)))]
  }

  lemma PlusMinus(a: byte, b: byte)
    ensures Plus(Minus(a, b), b) == a
  {
  }

  /** Reconstructing a filtered row gives the row. */
  lemma {:induction false} ReconFilter(t: nat, n: nat, row: seq<byte>, prior: seq<byte>)
    requires t <= 4 && |row| <= |prior|
    ensures Recon(t, n, Filter(t, n, row, prior), prior) == row
    decreases |row|
  {
    hide Predict;
    hide Plus;
    hide Minus;
    hide Back;
    hide Recon;
    if row != [] {
      var k := |row| - 1;
      var up := Predict(t, Back(row[..k], k, n), prior[k], Back(prior, k, n));
      ReconFilter(t, n, row[..k], prior);
      ReconSnoc(t, n, Filter(t, n, row[..k], prior), Minus(row[k], up), prior);
      PlusMinus(row[k], up);
      assert row == row[..k] + [row[k]];
    } else {
      assert Filter(t, n, row, prior) == [];
      ReconNone(t, n, prior);
    }
  }

  lemma ReconSnoc(t: nat, n: nat, f: seq<byte>, b: byte, prior: seq<byte>)
    requires t <= 4 && |f| < |prior|
    ensures var r, k := Recon(t, n, f, prior), |f|;
      Recon(t, n, f + [b], prior) == r + [Plus(b, Predict(t, Back(r, k, n), prior[k], Back(prior, k, n)))]
  {
    hide Predict;
    hide Plus;
    hide Back;
    assert (f + [b])[..|f|] == f;
  }

  lemma ReconNone(t: nat, n: nat, prior: seq<byte>)
    requires t <= 4
    ensures Recon(t, n, [], prior) == []
  {
  }

  /** What has been reconstructed does not change. */
  lemma {:induction false} ReconPrefix(t: nat, n: nat, f: seq<byte>, prior: seq<byte>, k: nat)
    requires t <= 4 && |f| <= |prior| && k <= |f|
    ensures Recon(t, n, f, prior)[..k] == Recon(t, n, f[..k], prior)
    decreases |f|
  {
    hide Predict;
    hide Plus;
    if k < |f| {
      var m := |f| - 1;
      ReconPrefix(t, n, f[..m], prior, k);
      assert f[..m][..k] == f[..k];
    } else {
      assert f[..k] == f;
    }
  }

  // ---------- images ----------

  function Zeros(n: nat): (r: seq<byte>)
    ensures |r| == n && forall i {:trigger r[i]} :: 0 <= i < n ==> r[i] == 0
  {
    if n == 0 then [] else Zeros(n - 1) + [0]
  }

  datatype Image = Rows(rows: seq<seq<byte>>) | BadFilter

  /** The image of `y` rows of `len` bytes, each behind the number of its filter. */
  function ReconImage(raw: seq<byte>, n: nat, len: nat, y: nat, prior: seq<byte>): Image
    requires |raw| == DataSize(len, y) && |prior| == len
    decreases y
  {
    if y == 0 then Rows([])
    else if raw[0] > 4 then BadFilter
    else
      var row := Recon(raw[0], n, raw[1..len + 1], prior);
      match ReconImage(raw[len + 1..], n, len, y - 1, row)
      case Rows(rows) => Rows([row] + rows)
      case BadFilter => BadFilter
  }

  /** The bytes of `y` filtered rows. */
  function DataSize(len: nat, y: nat): (r: nat)
    ensures y > 0 ==> r >= len + 1
    decreases y
  {
    if y == 0 then 0 else len + 1 + DataSize(len, y - 1)
  }

  lemma {:induction false} DataSizeIs(len: nat, y: nat)
    ensures DataSize(len, y) == (len + 1) * y
    decreases y
  {
    if y > 0 {
      DataSizeIs(len, y - 1);
      MulDist(y - 1, 1, len + 1);
    }
  }

  /** Filter each row with a filter of its own. */
  function FilterImage(rows: seq<seq<byte>>, types: seq<nat>, n: nat, prior: seq<byte>): (raw: seq<byte>)
    requires |types| == |rows| && (forall i :: 0 <= i < |types| ==> types[i] <= 4)
    requires forall i :: 0 <= i < |rows| ==> |rows[i]| == |prior|
    ensures |raw| == DataSize(|prior|, |rows|)
    decreases |rows|
  {
    if rows == [] then []
    else [types[0]] + Filter(types[0], n, rows[0], prior) + FilterImage(rows[1..], types[1..], n, rows[0])
  }

  /** Whatever filters are chosen, the image comes back. */
  lemma {:induction false} ImageRoundTrip(rows: seq<seq<byte>>, types: seq<nat>, n: nat, prior: seq<byte>)
    requires |types| == |rows| && (forall i :: 0 <= i < |types| ==> types[i] <= 4)
    requires forall i :: 0 <= i < |rows| ==> |rows[i]| == |prior|
    ensures ReconImage(FilterImage(rows, types, n, prior), n, |prior|, |rows|, prior) == Rows(rows)
    decreases |rows|
  {
    hide Abs;
    hide Back;
    hide Filter;
    if rows != [] {
      var f, rest := Filter(types[0], n, rows[0], prior), FilterImage(rows[1..], types[1..], n, rows[0]);
      var raw := FilterImage(rows, types, n, prior);
      var len := |prior|;
      assert raw == [types[0]] + f + rest;
      assert raw[1..len + 1] == f && raw[len + 1..] == rest;
      ReconFilter(types[0], n, rows[0], prior);
      ImageRoundTrip(rows[1..], types[1..], n, rows[0]);
      assert [rows[0]] + rows[1..] == rows;
    }
  }

  // ---------- with an alpha byte ----------

  /** The row with 255 behind each pixel of `n` bytes. */
  function Alpha(row: seq<byte>, n: nat): seq<byte>
    decreases |row|
  {
    if n == 0 || |row| < n then []
    else Alpha(row[..|row| - n], n) + row[|row| - n..] + [255]
  }

  /** The row as it is stored. */
  function Stored(row: seq<byte>, n: nat, alpha: bool): seq<byte> {
    if alpha then Alpha(row, n) else row
  }

  function Flat(rows: seq<seq<byte>>, n: nat, alpha: bool): seq<byte> {
    if rows == [] then [] else Flat(rows[..|rows| - 1], n, alpha) + Stored(rows[|rows| - 1], n, alpha)
  }

  /** A length of whole pixels. */
  predicate Whole(m: nat, n: nat)
    decreases m
  {
    m == 0 || (n >= 1 && m >= n && Whole(m - n, n))
  }

  lemma {:induction false} WholeProduct(x: nat, n: nat)
    requires n >= 1
    ensures Whole(x * n, n)
    decreases x
  {
    if x > 0 {
      MulDist(x - 1, 1, n);
      MulMono(0, x - 1, n);
      WholeProduct(x - 1, n);
    }
  }

  lemma {:induction false} AlphaLength(row: seq<byte>, n: nat, x: nat)
    requires n >= 1 && |row| == x * n
    ensures |Alpha(row, n)| == x * (n + 1)
    decreases x
  {
    if x > 0 {
      MulDist(x - 1, 1, n);
      MulDist(x - 1, 1, n + 1);
      MulMono(0, x - 1, n);
      AlphaLength(row[..|row| - n], n, x - 1);
    }
  }

  /** The pixels up to `p` are stored in front. */
  lemma {:induction false} AlphaPrefix(row: seq<byte>, n: nat, p: nat)
    requires n >= 1 && p <= |row| && Whole(|row| - p, n)
    ensures Alpha(row[..p], n) <= Alpha(row, n)
    decreases |row|
  {
    if p < |row| {
      AlphaPrefix(row[..|row| - n], n, p);
      assert row[..|row| - n][..p] == row[..p];
    } else {
      assert row[..p] == row;
    }
  }

  /** The bytes of the next pixel come behind those of the pixels up to `p`. */
  lemma AlphaNext(row: seq<byte>, n: nat, p: nat, k: nat)
    requires n >= 1 && p + n <= |row| && Whole(|row| - (p + n), n) && k < n
    ensures var q := |Alpha(row[..p], n)|; q + n + 1 <= |Alpha(row, n)| && Alpha(row, n)[q + k] == row[p + k]
  {
    hide Alpha;
    hide Whole;
    AlphaPrefix(row, n, p + n);
    var b := row[..p + n];
    assert b[..p] == row[..p];
    AlphaStep(b, n, k);
    var a := Alpha(b, n);
    assert Alpha(row, n)[..|a|] == a;
  }

  lemma AlphaStep(row: seq<byte>, n: nat, k: nat)
    requires n >= 1 && |row| >= n && k < n
    ensures var q := |Alpha(row[..|row| - n], n)|;
      |Alpha(row, n)| == q + n + 1 && Alpha(row, n)[q + k] == row[|row| - n + k]
  {
  }

  lemma AlphaEnd(row: seq<byte>, n: nat, p: nat)
    requires n >= 1 && p + n <= |row| && Whole(|row| - (p + n), n)
    ensures var q := |Alpha(row[..p], n)|;
      && |Alpha(row[..p + n], n)| == q + n + 1 <= |Alpha(row, n)| && Alpha(row, n)[q + n] == 255
  {
    hide Whole;
    AlphaPrefix(row, n, p + n);
    var b := row[..p + n];
    assert b[..p] == row[..p];
    var a := Alpha(b, n);
    assert Alpha(row, n)[..|a|] == a;
  }

  lemma {:induction false} AlphaSame(a: seq<byte>, b: seq<byte>, n: nat)
    requires |a| == |b|
    ensures |Alpha(a, n)| == |Alpha(b, n)|
    decreases |a|
  {
    if n >= 1 && |a| >= n {
      AlphaSame(a[..|a| - n], b[..|b| - n], n);
    }
  }

  /** What a byte of the reconstructed row is. */
  lemma ReconAt(t: nat, n: nat, f: seq<byte>, prior: seq<byte>, k: nat)
    requires t <= 4 && n >= 1 && |f| <= |prior| && k < |f|
    ensures var r := Recon(t, n, f, prior);
      r[k] == Plus(f[k], Predict(t, Back(r, k, n), prior[k], Back(prior, k, n)))
  {
    hide Predict;
    hide Plus;
    var r := Recon(t, n, f, prior);
    ReconPrefix(t, n, f, prior, k);
    ReconPrefix(t, n, f, prior, k + 1);
    assert f[..k + 1][..k] == f[..k];
    assert r[..k + 1][k] == r[k];
    assert Back(r[..k], k, n) == Back(r, k, n);
  }

  /** The image with the rows `done` on top. */
  function OnTop(done: seq<seq<byte>>, i: Image): Image {
    match i
    case Rows(rows) => Rows(done + rows)
    case BadFilter => BadFilter
  }

  /** One more row of an image. */
  lemma NextRow(raw: seq<byte>, n: nat, len: nat, y: nat, prior: seq<byte>, done: seq<seq<byte>>)
    requires |raw| == DataSize(len, y) && |prior| == len && y > 0
    ensures raw[0] > 4 ==> OnTop(done, ReconImage(raw, n, len, y, prior)) == BadFilter
    ensures raw[0] <= 4 ==>
              var row := Recon(raw[0], n, raw[1..len + 1], prior);
              OnTop(done, ReconImage(raw, n, len, y, prior)) == OnTop(done + [row], ReconImage(raw[len + 1..], n, len, y - 1, row))
  {
    hide Recon;
    if raw[0] <= 4 {
      var row := Recon(raw[0], n, raw[1..len + 1], prior);
      var rest := ReconImage(raw[len + 1..], n, len, y - 1, row);
      assert rest.Rows? ==> done + ([row] + rest.rows) == done + [row] + rest.rows;
    }
  }

  lemma FlatNext(done: seq<seq<byte>>, row: seq<byte>, n: nat, alpha: bool)
    ensures Flat(done + [row], n, alpha) == Flat(done, n, alpha) + Stored(row, n, alpha)
  {
    assert (done + [row])[..|done|] == done;
  }
}
