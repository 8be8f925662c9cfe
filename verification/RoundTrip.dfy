/** What has been encoded as DEFLATE blocks comes back from stb's decoder. */
module RoundTrip {
  import opened Bits
  import opened Canonical
  import opened Deflate
  import opened Encode
  import opened Headers
  import Stream
  import S = StbInflate

  // ---------- the size of an encoding ----------

  lemma PutBound(x: nat, n: nat, tail: nat, m: nat)
    requires x < Pow2(n) && tail < Pow2(m)
    ensures Put(x, n, tail) < Pow2(n + m)
  {
    hide Pow2;
    hide Shl;
    ShlMono(tail + 1, Pow2(m), n);
    ShlAdd(tail, 1, n);
    Pow2Shl(m, n);
    Pow2Shl(0, n);
    OnePower();
  }

  lemma OnePower()
    ensures Pow2(0) == 1
  {
  }

  lemma CodeBound(lens: seq<nat>, s: nat, tail: nat, m: nat)
    requires s < |lens| && tail < Pow2(m)
    ensures PutCode(lens, s, tail) < Pow2(lens[s] + m)
  {
    hide Pow2;
    hide Put;
    PutBound(Code(CodeOf(lens, s), lens[s]), lens[s], tail, m);
  }

  lemma TokenBound(litlens: seq<nat>, distlens: seq<nat>, t: Symbols, tail: nat, m: nat)
    requires t.Encodable(litlens, distlens) && tail < Pow2(m)
    ensures PutToken(litlens, distlens, t, tail) < Pow2(TokenBits(litlens, distlens, t) + m)
  {
    hide Pow2;
    hide Put;
    hide PutCode;
    hide LengthExtra;
    hide DistExtra;
    match t
    case Lit(b) => CodeBound(litlens, b, tail, m);
    case Match(li, lx, di, dx) =>
      var v3, m3 := Put(dx, DistExtra(di), tail), DistExtra(di) + m;
      PutBound(dx, DistExtra(di), tail, m);
      CodeBound(distlens, di, v3, m3);
      var v2, m2 := PutCode(distlens, di, v3), distlens[di] + m3;
      PutBound(lx, LengthExtra(li), v2, m2);
      CodeBound(litlens, 257 + li, Put(lx, LengthExtra(li), v2), LengthExtra(li) + m2);
  }

  lemma {:induction false} BlockBound(litlens: seq<nat>, distlens: seq<nat>, ts: seq<Symbols>, tail: nat, m: nat)
    requires AllEncodable(litlens, distlens, ts) && Used(litlens, END_OF_BLOCK) && tail < Pow2(m)
    ensures PutBlock(litlens, distlens, ts, tail) < Pow2(BlockBits(litlens, distlens, ts) + m)
    decreases |ts|
  {
    hide Pow2;
    hide PutToken;
    hide PutCode;
    hide TokenBits;
    if ts == [] {
      CodeBound(litlens, END_OF_BLOCK, tail, m);
    } else {
      BlockBound(litlens, distlens, ts[1..], tail, m);
      TokenBound(litlens, distlens, ts[0], PutBlock(litlens, distlens, ts[1..], tail), BlockBits(litlens, distlens, ts[1..]) + m);
    }
  }

  lemma {:induction false} BytesBound(data: seq<byte>, tail: nat, m: nat)
    requires tail < Pow2(m)
    ensures PutBytes(data, tail) < Pow2(8 * |data| + m)
    decreases |data|
  {
    hide Pow2;
    if data != [] {
      BytesBound(data[1..], tail, m);
      EightBits();
      Pow2Add(8, 8 * (|data| - 1) + m);
    }
  }

  lemma {:induction false} OpsBound(sizes: seq<nat>, ops: seq<Op>, tail: nat, m: nat)
    requires AllWritable(sizes, ops) && tail < Pow2(m)
    ensures PutOps(sizes, ops, tail) < Pow2(OpsBits(sizes, ops) + m)
    decreases |ops|
  {
    hide Pow2;
    hide Put;
    hide PutCode;
    hide Stream.RunBits;
    if ops != [] {
      var c, n := ops[0].c, OpsBits(sizes, ops[1..]) + m;
      OpsBound(sizes, ops[1..], tail, m);
      PutBound(ops[0].x, Stream.RunBits(c), PutOps(sizes, ops[1..], tail), n);
      CodeBound(sizes, c, Put(ops[0].x, Stream.RunBits(c), PutOps(sizes, ops[1..], tail)), Stream.RunBits(c) + n);
    }
  }

  lemma {:induction false} SizesBound(sizes: seq<nat>, i: nat, n: nat, tail: nat, m: nat)
    requires i <= n <= 19 && |sizes| == 19 && (forall j :: 0 <= j < 19 ==> sizes[j] < 8) && tail < Pow2(m)
    ensures PutSizes(sizes, i, n, tail) < Pow2(3 * (n - i) + m)
    decreases n - i
  {
    hide Pow2;
    hide Put;
    if i < n {
      SizesBound(sizes, i + 1, n, tail, m);
      SmallPowers();
      PutBound(sizes[Stream.ORDER[i]], 3, PutSizes(sizes, i + 1, n, tail), 3 * (n - i - 1) + m);
    }
  }

  lemma HeaderBound(p: Plan, tail: nat, m: nat)
    requires p.Good() && tail < Pow2(m)
    ensures PutHeader(p, tail) < Pow2(p.Bits() + m)
  {
    hide Pow2;
    hide Put;
    hide PutOps;
    hide PutSizes;
    hide OpsBits;
    hide Fills;
    hide AllWritable;
    hide NotOversubscribed;
    var v1, m1 := PutOps(p.sizes, p.ops, tail), OpsBits(p.sizes, p.ops) + m;
    OpsBound(p.sizes, p.ops, tail, m);
    SizesBound(p.sizes, 0, p.hclen, v1, m1);
    var v2, m2 := PutSizes(p.sizes, 0, p.hclen, v1), 3 * p.hclen + m1;
    SmallPowers();
    PutBound(p.hclen - 4, 4, v2, m2);
    PutBound(p.hdist - 1, 5, Put(p.hclen - 4, 4, v2), 4 + m2);
    PutBound(p.hlit - 257, 5, Put(p.hdist - 1, 5, Put(p.hclen - 4, 4, v2)), 9 + m2);
  }

  /** A block is no longer than its size says. */
  lemma BlkBound(b: Blk, at: nat, final: bool, tail: nat, m: nat)
    requires b.Encodable() && tail < Pow2(m)
    ensures AfterBlk(b, at) >= at && PutBlk(b, at, final, tail) < Pow2(AfterBlk(b, at) - at + m)
  {
    hide Pow2;
    hide Put;
    hide PutBody;
    hide BlockBits;
    hide Stream.FixedLit;
    hide Stream.FixedDist;
    hide AllEncodable;
    BodyBound(b, at + 3, tail, m);
    var n := AfterBlk(b, at) - (at + 3) + m;
    SmallPowers();
    PutBound(b.Kind(), 2, PutBody(b, at + 3, tail), n);
    PutBound(if final then 1 else 0, 1, Put(b.Kind(), 2, PutBody(b, at + 3, tail)), 2 + n);
  }

  lemma BodyBound(b: Blk, at: nat, tail: nat, m: nat)
    requires b.Encodable() && tail < Pow2(m) && at >= 3
    ensures AfterBlk(b, at - 3) >= at && PutBody(b, at, tail) < Pow2(AfterBlk(b, at - 3) - at + m)
  {
    hide Pow2;
    hide Put;
    hide PutBlock;
    hide PutBytes;
    hide BlockBits;
    hide Stream.FixedLit;
    hide Stream.FixedDist;
    match b
    case StoredBlk(data) =>
      SmallPowers();
      var v1, m1 := PutBytes(data, tail), 8 * |data| + m;
      BytesBound(data, tail, m);
      PutBound(0xffff - |data|, 16, v1, m1);
      PutBound(|data|, 16, Put(0xffff - |data|, 16, v1), 16 + m1);
      var pad := Stream.Align(at) - at;
      PowPositive(pad);
      PutBound(0, pad, Put(|data|, 16, Put(0xffff - |data|, 16, v1)), 32 + m1);
    case FixedBlk(ts) =>
      FixedUsed();
      BlockBound(Stream.FixedLit(), Stream.FixedDist(), ts, tail, m);
    case DynamicBlk(plan, ts) =>
      BlockBound(PlanLit(plan), PlanDist(plan), ts, tail, m);
      HeaderBound(plan, PutBlock(PlanLit(plan), PlanDist(plan), ts, tail), BlockBits(PlanLit(plan), PlanDist(plan), ts) + m);
  }

  lemma {:induction false} StreamBound(bs: seq<Blk>, at: nat)
    requires AllBlksEncodable(bs)
    ensures AfterStream(bs, at) >= at && PutStream(bs, at) < Pow2(AfterStream(bs, at) - at)
    decreases |bs|
  {
    hide Pow2;
    hide PutBlk;
    hide AfterBlk;
    if bs == [] {
      OnePower();
    } else {
      var at' := AfterBlk(bs[0], at);
      StreamBound(bs[1..], at');
      BlkBound(bs[0], at, |bs| == 1, PutStream(bs[1..], at'), AfterStream(bs[1..], at') - at');
    }
  }

  // ---------- from blocks to bytes ----------

  /** `input` holds the blocks from bit `at` on. */
  ghost predicate Holds(input: seq<byte>, at: nat, bs: seq<Blk>) {
    && bs != [] && AllBlksEncodable(bs)
    && 8 * |input| >= AfterStream(bs, at) && Drop(BytesVal(input), at) == PutStream(bs, at)
  }

  /** Where the blocks begin. */
  function Start(header: bool): nat {
    if header then 16 else 0
  }

  /** All blocks can be written in as many bytes as they need, behind a zlib header or without one. */
  lemma SomeBytes(bs: seq<Blk>, header: bool) returns (input: seq<byte>)
    requires bs != [] && AllBlksEncodable(bs)
    ensures Holds(input, Start(header), bs) && (header ==> Stream.ZlibHeader(input))
    ensures |input| == (AfterStream(bs, Start(header)) + 7) / 8
  {
    hide Pow2;
    hide Drop;
    hide BytesVal;
    hide PutBlk;
    hide AfterBlk;
    var at := Start(header);
    var end := (AfterStream(bs, at) + 7) / 8;
    StreamBound(bs, at);
    var v, n := PutStream(bs, at), end - at / 8;
    Pow2Mono(AfterStream(bs, at) - at, 8 * n);
    BytesOfStream(v, n);
    input := (if header then [0x78, 0x01] else []) + ToBytes(v, n);
    DropBytes(input, at / 8);
    assert input[at / 8..] == ToBytes(v, n);
  }

  // ---------- from strings to blocks ----------

  /** A part of a string: bytes to be stored, or literals and copies. */
  datatype Piece = Raw(data: seq<byte>) | Coded(ts: seq<Token>) {
    /** Stored blocks are no longer than 65535 bytes, and copies are those that DEFLATE has. */
    predicate Fits(out: seq<byte>) {
      match this
      case Raw(data) => |data| <= 0xffff
      case Coded(ts) =>
        && Valid(out, ts)
        && forall i :: 0 <= i < |ts| && ts[i].Copy? ==> 3 <= ts[i].len <= 258 && 1 <= ts[i].dist <= 32768
    }

    function Append(out: seq<byte>): seq<byte>
      requires Fits(out)
    {
      match this
      case Raw(data) => out + data
      case Coded(ts) => Expand(out, ts)
    }
  }

  /** Each piece can be written behind the string of those before; its copies may reach into them. */
  predicate PiecesFit(ps: seq<Piece>, out: seq<byte>) {
    ps == [] || (ps[0].Fits(out) && PiecesFit(ps[1..], ps[0].Append(out)))
  }

  function Text(ps: seq<Piece>, out: seq<byte>): seq<byte>
    requires PiecesFit(ps, out)
  {
    if ps == [] then out else Text(ps[1..], ps[0].Append(out))
  }

  lemma SomeBlock(p: Piece, out: seq<byte>) returns (b: Blk)
    requires p.Fits(out)
    ensures b.Encodable() && b.Fits(out) && b.Output(out) == p.Append(out)
  {
    hide Valid;
    hide Expand;
    hide Stream.FixedLit;
    hide Stream.FixedDist;
    match p
    case Raw(data) => b := StoredBlk(data);
    case Coded(ts) =>
      var r := TokensForm(ts);
      b := FixedBlk(r);
  }

  /** Every string, cut into pieces in any way, can be written as blocks. */
  lemma {:induction false} SomeBlocks(ps: seq<Piece>, out: seq<byte>) returns (bs: seq<Blk>)
    requires PiecesFit(ps, out)
    ensures |bs| == |ps| && AllBlksEncodable(bs) && AllFit(bs, out) && AllOutput(bs, out) == Text(ps, out)
    decreases |ps|
  {
    bs := [];
    if ps != [] {
      var b := SomeBlock(ps[0], out);
      var rest := SomeBlocks(ps[1..], ps[0].Append(out));
      bs := [b] + rest;
      assert bs[1..] == rest;
    }
  }

  /** Every string, cut into pieces in any way, has an encoding that decodes to it; behind the last bit
      there are fewer than eight. */
  lemma EndToEnd(ps: seq<Piece>, header: bool) returns (input: seq<byte>, end: nat)
    requires ps != [] && PiecesFit(ps, [])
    ensures header ==> Stream.ZlibHeader(input)
    ensures Stream.Inflate(input, Start(header), []) == Stream.Finished(Text(ps, []), end)
    ensures end <= 8 * |input| < end + 8
  {
    hide Drop;
    hide BytesVal;
    hide Stream.Inflate;
    hide PiecesFit;
    hide PutStream;
    hide AfterStream;
    hide AllOutput;
    var bs := SomeBlocks(ps, []);
    input := SomeBytes(bs, header);
    StreamRoundTrip(input, bs, Start(header), []);
    end := AfterStream(bs, Start(header));
  }

  /** Decode what has been encoded: no byte is lost, added or changed, if only there is room. */
  method Decode(input: seq<byte>, header: bool, room: nat, expandable: bool, memory: nat, ghost bs: seq<Blk>)
    returns (ok: bool, data: seq<byte>)
    requires Holds(input, Start(header), bs) && AllFit(bs, []) && (header ==> Stream.ZlibHeader(input))
    requires expandable ==> room > 0
    ensures ok <==> |AllOutput(bs, [])| <= room || (expandable && S.Grown(room, |AllOutput(bs, [])|) <= memory)
    ensures ok ==> data == AllOutput(bs, [])
  {
    hide Drop;
    hide BytesVal;
    hide PutStream;
    hide AllOutput;
    hide AllFit;
    hide Stream.Inflate;
    hide S.Grown;
    StreamRoundTrip(input, bs, Start(header), []);
    var obuf := new byte[room];
    var z := new S.ZBuf(input, obuf, expandable, memory);
    assert z.out[..z.zout] == [];
    ok := z.ParseZlib(header);
    data := z.out[..z.zout];
  }
}
