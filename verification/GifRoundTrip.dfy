/** From an image to the bytes of a raster in a GIF file and back, for stbi__process_gif_raster in
    DuiLib/Utils/stb_image.c. */
module GifRoundTrip {
  import opened Bits
  import opened GifSpec
  import opened GifEncode
  import opened GifLzw

  /** Data in sub-blocks of up to 255 bytes, section 15 of the GIF89a specification. */
  function Blocks(data: seq<byte>): seq<byte>
    decreases |data|
  {
    if data == [] then [0]
    else
      var n := if |data| < 255 then |data| else 255;
      [n as byte] + data[..n] + Blocks(data[n..])
  }

  /** The code size and the data of an image. */
  function Raster(cs: nat, m: nat, image: seq<byte>): seq<byte>
    requires 2 <= cs <= 8 && Pow2(cs) <= 256 && forall i :: 0 <= i < |image| ==> image[i] < Pow2(cs)
  {
    [cs as byte] + Blocks(Bytes(Encode(cs, m, image)))
  }

  /** The codes in as many bytes as they need. */
  function Bytes(codes: seq<(nat, nat)>): seq<byte> {
    ToBytes(Pack(codes, 0), (Size(codes) + 7) / 8)
  }

  lemma {:induction false} ChunkIs(input: seq<byte>, pos: nat, s: seq<byte>)
    requires pos + |s| <= |input| && input[pos..pos + |s|] == s
    ensures Chunk(input, pos, |s|) == s
    decreases |s|
  {
    if s != [] {
      var part := input[pos..pos + |s|];
      assert part[0] == input[pos] == s[0] && part[1..] == input[pos + 1..pos + |s|];
      ChunkIs(input, pos + 1, s[1..]);
    }
  }

  lemma PartOf(input: seq<byte>, pos: nat, s: seq<byte>, i: nat, j: nat)
    requires pos + |s| <= |input| && input[pos..pos + |s|] == s && i <= j <= |s|
    ensures input[pos + i..pos + j] == s[i..j]
    ensures i < |s| ==> input[pos + i] == s[i]
  {
    var part := input[pos..pos + |s|];
    var sub := input[pos + i..pos + j];
    forall k {:trigger sub[k]} | 0 <= k < j - i ensures sub[k] == s[i..j][k] {
      assert sub[k] == input[pos + i + k] == part[i + k];
    }
    assert i < |s| ==> part[i] == input[pos + i];
  }

  lemma BlocksParts(data: seq<byte>)
    requires data != []
    ensures var n := if |data| < 255 then |data| else 255;
      var b := Blocks(data);
      |b| == 1 + n + |Blocks(data[n..])| && b[0] == n && b[1..1 + n] == data[..n] && b[1 + n..|b|] == Blocks(data[n..])
  {
  }

  lemma DataStep(input: seq<byte>, pos: nat)
    requires pos < |input| && input[pos] > 0
    ensures Data(input, pos) == Chunk(input, pos + 1, input[pos]) + Data(input, pos + 1 + input[pos])
    ensures EndOf(input, pos) == EndOf(input, pos + 1 + input[pos])
  {
  }

  lemma NoData(input: seq<byte>, pos: nat)
    requires pos < |input| && input[pos] == 0
    ensures Data(input, pos) == [] && EndOf(input, pos) == pos + 1 && Blocks([]) == [0]
  {
  }

  /** Sub-blocks are read as the data in them. */
  lemma {:induction false} BlocksRead(input: seq<byte>, pos: nat, data: seq<byte>)
    requires pos + |Blocks(data)| <= |input| && input[pos..pos + |Blocks(data)|] == Blocks(data)
    ensures Data(input, pos) == data && EndOf(input, pos) == pos + |Blocks(data)|
    decreases |data|
  {
    hide Data;
    hide EndOf;
    hide Chunk;
    var b := Blocks(data);
    if data == [] {
      PartOf(input, pos, b, 0, 0);
      NoData(input, pos);
    } else {
      hide Blocks;
      var n := if |data| < 255 then |data| else 255;
      BlocksParts(data);
      PartOf(input, pos, b, 0, 0);
      PartOf(input, pos, b, 1, 1 + n);
      PartOf(input, pos, b, 1 + n, |b|);
      DataStep(input, pos);
      ChunkIs(input, pos + 1, data[..n]);
      BlocksRead(input, pos + 1 + n, data[n..]);
      assert data[..n] + data[n..] == data;
    }
  }

  /** The bytes of an image show it. */
  lemma BytesShow(cs: nat, m: nat, image: seq<byte>, goOn: bool)
    requires 2 <= cs <= 8 && Pow2(cs) <= 256 && (forall i :: 0 <= i < |image| ==> image[i] < Pow2(cs))
    requires goOn || 1 <= m <= 4095 - Pow2(cs)
    ensures Shown(cs, Bytes(Encode(cs, m, image)), goOn) == (image, Complete)
  {
    hide Encode;
    hide Decode;
    hide Pack;
    hide Size;
    hide Pow2;
    var codes := Encode(cs, m, image);
    var size := Size(codes);
    var n := (size + 7) / 8;
    ImageBack(cs, m, image, goOn, 0, 8 * n);
    Pow2Mono(size, 8 * n);
    BytesOfStream(Pack(codes, 0), n);
  }

  /** What the decoder finds where a raster is. */
  lemma RasterRead(input: seq<byte>, pos: nat, cs: nat, m: nat, image: seq<byte>)
    requires 2 <= cs <= 8 && Pow2(cs) <= 256 && 1 <= m <= 4095 - Pow2(cs) && (forall i :: 0 <= i < |image| ==> image[i] < Pow2(cs))
    requires var raster := Raster(cs, m, image); pos + |raster| <= |input| && input[pos..pos + |raster|] == raster
    ensures ByteOf(input, pos) == cs && Shown(cs, Data(input, pos + 1), false) == (image, Complete)
    ensures EndOf(input, pos + 1) == pos + |Raster(cs, m, image)|
  {
    hide Encode;
    hide Shown;
    hide Bytes;
    hide Blocks;
    hide Data;
    hide EndOf;
    hide Pow2;
    var raster := Raster(cs, m, image);
    PartOf(input, pos, raster, 0, 0);
    PartOf(input, pos, raster, 1, |raster|);
    BlocksRead(input, pos + 1, Bytes(Encode(cs, m, image)));
    BytesShow(cs, m, image, false);
  }

  /** The decoder shows an image that has been encoded, if its encoder clears the table in time. */
  method ShowRaster(g: Gif, ghost cs: nat, ghost m: nat, ghost image: seq<byte>) returns (r: GifLzw.Raster)
    requires g.codes.Length == TABLE_SIZE && 2 <= cs <= 8 && Pow2(cs) <= 256 && 1 <= m <= 4095 - Pow2(cs)
    requires forall i :: 0 <= i < |image| ==> image[i] < Pow2(cs)
    requires var raster := Raster(cs, m, image); g.pos + |raster| <= |g.input| && g.input[g.pos..g.pos + |raster|] == raster
    modifies g`pos, g`out, g.codes
    ensures r == Image && g.out == old(g.out) + image
    ensures Stands(g.input, g.pos, old(g.pos) + |Raster(cs, m, image)|)
  {
    hide Raster;
    hide Shown;
    hide Data;
    hide EndOf;
    hide FewCodesIn;
    hide Pow2;
    RasterRead(g.input, g.pos, cs, m, image);
    r := g.ProcessRaster();
  }
}
