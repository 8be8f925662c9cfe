/** Encoding bytes as a DEFLATE stream of stored blocks and of blocks with fixed or dynamic codes (sections
    3.2.4 to 3.2.7 of RFC 1951), and the proof that decoding gives them back.
  */
module Encode {
  import opened Bits
  import opened Canonical
  import opened Deflate
  import opened Stream
  import opened Headers

  datatype Blk = StoredBlk(data: seq<byte>) | FixedBlk(ts: seq<Symbols>) | DynamicBlk(plan: Plan, ts: seq<Symbols>) {
    ghost predicate Encodable() {
      match this
      case StoredBlk(data) => |data| <= 0xffff
      case FixedBlk(ts) => AllEncodable(FixedLit(), FixedDist(), ts)
      case DynamicBlk(plan, ts) => HasCodes(plan) && AllEncodable(PlanLit(plan), PlanDist(plan), ts)
    }

    /** The block makes sense after the output `out`. */
    predicate Fits(out: seq<byte>) {
      match this
      case StoredBlk(_) => true
      case FixedBlk(ts) => Valid(out, Meanings(ts))
      case DynamicBlk(_, ts) => Valid(out, Meanings(ts))
    }

    function Output(out: seq<byte>): seq<byte>
      requires Fits(out)
    {
      match this
      case StoredBlk(data) => out + data
      case FixedBlk(ts) => Expand(out, Meanings(ts))
      case DynamicBlk(_, ts) => Expand(out, Meanings(ts))
    }

    function Kind(): nat {
      if StoredBlk? then 0 else if FixedBlk? then 1 else 2
    }
  }

  /** The header gives two codes, and the first has a code for the end of the block. */
  ghost predicate HasCodes(p: Plan) {
    && p.Good() && |p.All()| == p.hlit + p.hdist
    && ValidLengths(PlanLit(p)) && NotOversubscribed(PlanLit(p)) && Used(PlanLit(p), END_OF_BLOCK)
    && ValidLengths(PlanDist(p)) && NotOversubscribed(PlanDist(p))
  }

  function PlanLit(p: Plan): seq<nat> {
    if Fills(p.ops, [], p.hlit + p.hdist) && p.hlit <= |p.All()| then p.All()[..p.hlit] else []
  }

  function PlanDist(p: Plan): seq<nat> {
    if Fills(p.ops, [], p.hlit + p.hdist) && p.hlit <= |p.All()| then p.All()[p.hlit..] else []
  }

  // ---------- sizes ----------

  /** The position after block `b`, whose header is at `at`. */
  function AfterBlk(b: Blk, at: nat): nat {
    match b
    case StoredBlk(data) => Align(at + 3) + 32 + 8 * |data|
    case FixedBlk(ts) => at + 3 + BlockBits(FixedLit(), FixedDist(), ts)
    case DynamicBlk(plan, ts) => at + 3 + plan.Bits() + BlockBits(PlanLit(plan), PlanDist(plan), ts)
  }

  // ---------- encoding ----------

  function PutBytes(data: seq<byte>, tail: nat): nat {
    if data == [] then tail else data[0] + 256 * PutBytes(data[1..], tail)
  }

  ghost function PutBody(b: Blk, at: nat, tail: nat): nat
    requires b.Encodable()
  {
    FixedUsed();
    match b
    case StoredBlk(data) =>
      Put(0, Align(at) - at, Put(|data|, 16, Put(0xffff - |data|, 16, PutBytes(data, tail))))
    case FixedBlk(ts) => PutBlock(FixedLit(), FixedDist(), ts, tail)
    case DynamicBlk(plan, ts) => PutHeader(plan, PutBlock(PlanLit(plan), PlanDist(plan), ts, tail))
  }

  ghost function PutBlk(b: Blk, at: nat, final: bool, tail: nat): nat
    requires b.Encodable()
  {
    Put(if final then 1 else 0, 1, Put(b.Kind(), 2, PutBody(b, at + 3, tail)))
  }

  ghost predicate AllBlksEncodable(bs: seq<Blk>) {
    forall i :: 0 <= i < |bs| ==> bs[i].Encodable()
  }

  /** The stream of blocks `bs`, the first at bit position `at`. */
  ghost function PutStream(bs: seq<Blk>, at: nat): nat
    requires AllBlksEncodable(bs)
  {
    if bs == [] then 0
    else PutBlk(bs[0], at, |bs| == 1, PutStream(bs[1..], AfterBlk(bs[0], at)))
  }

  function AfterStream(bs: seq<Blk>, at: nat): nat {
    if bs == [] then at else AfterStream(bs[1..], AfterBlk(bs[0], at))
  }

  predicate AllFit(bs: seq<Blk>, out: seq<byte>) {
    bs == [] || (bs[0].Fits(out) && AllFit(bs[1..], bs[0].Output(out)))
  }

  function AllOutput(bs: seq<Blk>, out: seq<byte>): seq<byte>
    requires AllFit(bs, out)
  {
    if bs == [] then out else AllOutput(bs[1..], bs[0].Output(out))
  }

  lemma {:induction false} FixedLitAt(s: nat)
    requires s < 288
    ensures 1 <= FixedLit()[s] <= MAX_BITS
  {
  }

  lemma FixedUsed()
    ensures Used(FixedLit(), END_OF_BLOCK)
    ensures forall s: nat {:trigger Used(FixedLit(), s)} :: s < 288 ==> Used(FixedLit(), s)
    ensures forall s: nat {:trigger Used(FixedDist(), s)} :: s < 32 ==> Used(FixedDist(), s)
  {
    forall s: nat {:trigger Used(FixedLit(), s)} | s < 288 ensures Used(FixedLit(), s) {
      FixedLitAt(s);
    }
  }

  /** Every token with a length of 3 to 258 and a distance of 1 to 32768 has an encodable form. */
  lemma TokenForm(t: Token) returns (s: Symbols)
    requires t.Copy? ==> 3 <= t.len <= 258 && 1 <= t.dist <= 32768
    ensures s.Encodable(FixedLit(), FixedDist()) && s.Meaning() == t
  {
    hide FixedLit;
    hide FixedDist;
    FixedUsed();
    match t
    case Literal(b) => s := Lit(b);
    case Copy(len, dist) =>
      var li, lx := LengthSymbol(len);
      var di, dx := DistSymbol(dist);
      s := Match(li, lx, di, dx);
  }

  /** So has every list of such tokens. */
  lemma {:induction false} TokensForm(ts: seq<Token>) returns (r: seq<Symbols>)
    requires forall i :: 0 <= i < |ts| && ts[i].Copy? ==> 3 <= ts[i].len <= 258 && 1 <= ts[i].dist <= 32768
    ensures AllEncodable(FixedLit(), FixedDist(), r) && Meanings(r) == ts
  {
    hide FixedLit;
    hide FixedDist;
    r := [];
    if ts != [] {
      var s := TokenForm(ts[0]);
      var rest := TokensForm(ts[1..]);
      r := [s] + rest;
      assert r[1..] == rest;
    }
  }

  // ---------- bytes ----------

  lemma BytesCons(s: seq<byte>)
    requires s != []
    ensures BytesVal(s) == s[0] + 256 * BytesVal(s[1..])
  {
  }

  /** Input from byte `i` on. */
  lemma {:induction false} DropBytes(s: seq<byte>, i: nat)
    requires i <= |s|
    ensures Drop(BytesVal(s), 8 * i) == BytesVal(s[i..])
    decreases i
  {
    hide *;
    if i == 0 {
      assert s[0..] == s;
      DropNone(BytesVal(s));
    } else {
      BytesCons(s);
      ByteFirst(s[0], BytesVal(s[1..]));
      DropBytes(s[1..], i - 1);
      DropDrop(BytesVal(s), 8, 8 * (i - 1));
      assert s[1..][i - 1..] == s[i..];
    }
  }

  lemma DropNone(v: nat)
    ensures Drop(v, 0) == v
  {
  }

  lemma {:induction false} GetBytes(s: seq<byte>, data: seq<byte>, tail: nat)
    requires BytesVal(s) == PutBytes(data, tail) && |data| <= |s|
    ensures s[..|data|] == data && BytesVal(s[|data|..]) == tail
    decreases |data|
  {
    if data == [] {
      assert s[0..] == s;
    } else {
      assert BytesVal(s) % 256 == s[0] && BytesVal(s) / 256 == BytesVal(s[1..]);
      assert PutBytes(data, tail) % 256 == data[0] && PutBytes(data, tail) / 256 == PutBytes(data[1..], tail);
      GetBytes(s[1..], data[1..], tail);
      assert s[1..][|data| - 1..] == s[|data|..];
      assert s[1..][..|data| - 1] == s[1..|data|];
    }
  }

  // ---------- decoding inverts encoding ----------

  /** The header of a stored block. */
  lemma GetStoredHeader(v: nat, at: nat, len: nat, rest: nat)
    requires len <= 0xffff
    requires Drop(v, at) == Put(0, Align(at) - at, Put(len, 16, Put(0xffff - len, 16, rest)))
    ensures var a := Align(at);
      Low(Drop(v, a), 16) == len && Low(Drop(v, a + 16), 16) == 0xffff - len && Drop(v, a + 32) == rest
  {
    hide Low;
    hide Drop;
    hide Put;
    hide Pow2;
    SixteenBits();
    var a := Align(at);
    var v2 := Put(0xffff - len, 16, rest);
    PowPositive(a - at);
    GetPut(0, a - at, Put(len, 16, v2));
    GetPut(len, 16, v2);
    GetPut(0xffff - len, 16, rest);
    DropDrop(v, at, a - at);
    DropDrop(v, a, 16);
    DropDrop(v, a + 16, 16);
  }

  lemma SixteenBits()
    ensures Pow2(16) == 0x10000
  {
    SmallPowers();
  }

  lemma GetStored(input: seq<byte>, at: nat, data: seq<byte>, tail: nat, out: seq<byte>)
    requires |data| <= 0xffff && 8 * |input| >= Align(at) + 32 + 8 * |data|
    requires Drop(BytesVal(input), at) == PutBody(StoredBlk(data), at, tail)
    ensures var r := Stored(input, at, out);
      r == Finished(out + data, Align(at) + 32 + 8 * |data|) && Drop(BytesVal(input), r.at) == tail
  {
    hide CodeOf;
    hide PutHeader;
    hide Low;
    hide Drop;
    hide Put;
    hide PutBytes;
    hide BytesVal;
    hide FixedLit;
    hide FixedDist;
    hide Pow2;
    hide Align;
    AlignWhole(at);
    var first := Align(at) / 8 + 4;
    GetStoredHeader(BytesVal(input), at, |data|, PutBytes(data, tail));
    DropBytes(input, first);
    GetBytes(input[first..], data, tail);
    assert input[first..][..|data|] == input[first..first + |data|];
    DropBytes(input, first + |data|);
    assert input[first..][|data|..] == input[first + |data|..];
  }

  lemma AlignWhole(at: nat)
    ensures Align(at) >= at && Align(at) == 8 * (Align(at) / 8)
  {
  }

  lemma PowPositive(n: nat)
    ensures 0 < Pow2(n)
  {
  }

  /** One block, decoded from its encoding. */
  lemma GetBlk(input: seq<byte>, b: Blk, at: nat, final: bool, tail: nat, out: seq<byte>)
    requires b.Encodable() && b.Fits(out)
    requires 8 * |input| >= AfterBlk(b, at)
    requires Drop(BytesVal(input), at) == PutBlk(b, at, final, tail)
    ensures BlockAt(input, at, out) == Finished(b.Output(out), AfterBlk(b, at))
    ensures IsFinal(input, at) == final
    ensures Drop(BytesVal(input), AfterBlk(b, at)) == tail
  {
    hide Low;
    hide Drop;
    hide BytesVal;
    hide PutBody;
    hide Stored;
    hide Compressed;
    hide BlockBits;
    hide FixedLit;
    hide FixedDist;
    hide Deflate.Expand;
    hide Valid;
    hide ReadHeader;
    hide Align;
    hide AllEncodable;
    hide Meanings;
    hide Put;
    hide PlanLit;
    hide PlanDist;
    hide HasCodes;
    PutBlkIs(b, at, final, tail);
    GetBlkHeader(BytesVal(input), at, final, b.Kind(), PutBody(b, at + 3, tail));
    match b
    case StoredBlk(data) =>
      GetStored(input, at + 3, data, tail, out);
    case FixedBlk(ts) =>
      GetFixed(input, at + 3, ts, tail, out);
    case DynamicBlk(plan, ts) =>
      GetDynamic(input, at + 3, plan, ts, tail, out);
  }

  lemma PutBlkIs(b: Blk, at: nat, final: bool, tail: nat)
    requires b.Encodable()
    ensures PutBlk(b, at, final, tail) == Put(if final then 1 else 0, 1, Put(b.Kind(), 2, PutBody(b, at + 3, tail)))
  {
    hide PutBody;
    hide Put;
  }

  lemma GetBlkHeader(v: nat, at: nat, final: bool, kind: nat, body: nat)
    requires kind < 3 && Drop(v, at) == Put(if final then 1 else 0, 1, Put(kind, 2, body))
    ensures Low(Drop(v, at), 1) == (if final then 1 else 0) && Low(Drop(v, at + 1), 2) == kind && Drop(v, at + 3) == body
  {
    hide Low;
    hide Drop;
    hide Put;
    SmallPowers();
    GetPut(if final then 1 else 0, 1, Put(kind, 2, body));
    GetPut(kind, 2, body);
    DropDrop(v, at, 1);
    DropDrop(v, at + 1, 2);
  }

  lemma GetFixed(input: seq<byte>, at: nat, ts: seq<Symbols>, tail: nat, out: seq<byte>)
    requires AllEncodable(FixedLit(), FixedDist(), ts) && Valid(out, Meanings(ts))
    requires Drop(BytesVal(input), at) == PutBody(FixedBlk(ts), at, tail)
    ensures var bits := BlockBits(FixedLit(), FixedDist(), ts);
      && Compressed(input, at, FixedLit(), FixedDist(), out) == Finished(Deflate.Expand(out, Meanings(ts)), at + bits)
      && Drop(BytesVal(input), at + bits) == tail
  {
    hide Low;
    hide Drop;
    hide BytesVal;
    hide PutBlock;
    hide DecodeBlock;
    hide BlockBits;
    hide EndCode;
    hide Pow2;
    hide FixedLit;
    hide FixedDist;
    hide AllEncodable;
    hide Meanings;
    hide Valid;
    hide Deflate.Expand;
    FixedCodes();
    FixedUsed();
    RoundTrip(FixedLit(), FixedDist(), ts, tail);
    DropDrop(BytesVal(input), at, BlockBits(FixedLit(), FixedDist(), ts));
  }

  lemma GetDynamic(input: seq<byte>, at: nat, p: Plan, ts: seq<Symbols>, tail: nat, out: seq<byte>)
    requires HasCodes(p) && AllEncodable(PlanLit(p), PlanDist(p), ts) && Valid(out, Meanings(ts))
    requires Drop(BytesVal(input), at) == PutBody(DynamicBlk(p, ts), at, tail)
    ensures var end := at + p.Bits() + BlockBits(PlanLit(p), PlanDist(p), ts);
      && Block(input, at, 2, out) == Finished(Deflate.Expand(out, Meanings(ts)), end)
      && Drop(BytesVal(input), end) == tail
  {
    hide Low;
    hide Drop;
    hide BytesVal;
    hide PutBlock;
    hide PutHeader;
    hide DecodeBlock;
    hide BlockBits;
    hide ValidLengths;
    hide NotOversubscribed;
    hide Pow2;
    hide PlanLit;
    hide PlanDist;
    hide AllEncodable;
    hide Meanings;
    hide Valid;
    hide Deflate.Expand;
    hide ReadHeader;
    hide HeaderLengths;
    hide Fills;
    hide Filled;
    hide OpsBits;
    var rest := PutBlock(PlanLit(p), PlanDist(p), ts, tail);
    GetHeader(input, at, p, rest);
    RoundTrip(PlanLit(p), PlanDist(p), ts, tail);
    DropDrop(BytesVal(input), at + p.Bits(), BlockBits(PlanLit(p), PlanDist(p), ts));
    PlanCodes(p, at + p.Bits());
  }

  lemma PlanCodes(p: Plan, end: nat)
    requires HasCodes(p)
    ensures |p.All()| <= MAX_LENGTHS && SplitLengths(Lengths(p.All(), end), p.hlit, p.hdist) == Codes(PlanLit(p), PlanDist(p), end)
  {
    hide NotOversubscribed;
    hide ValidLengths;
    hide Filled;
    hide AllWritable;
  }

  lemma {:induction false} AfterStreamMono(bs: seq<Blk>, at: nat)
    ensures AfterStream(bs, at) >= at
    decreases |bs|
  {
    if bs != [] {
      AfterStreamMono(bs[1..], AfterBlk(bs[0], at));
    }
  }

  /** Decoding an encoded stream gives the encoded bytes: nothing lost, nothing added. */
  lemma {:induction false} StreamRoundTrip(input: seq<byte>, bs: seq<Blk>, at: nat, out: seq<byte>)
    requires bs != [] && AllBlksEncodable(bs) && AllFit(bs, out)
    requires 8 * |input| >= AfterStream(bs, at)
    requires Drop(BytesVal(input), at) == PutStream(bs, at)
    ensures Inflate(input, at, out) == Finished(AllOutput(bs, out), AfterStream(bs, at))
    decreases |bs|
  {
    hide Low;
    hide Drop;
    hide BytesVal;
    hide BlockAt;
    hide IsFinal;
    hide PutBlk;
    hide AfterBlk;
    var at' := AfterBlk(bs[0], at);
    AfterStreamMono(bs[1..], at');
    GetBlk(input, bs[0], at, |bs| == 1, PutStream(bs[1..], at'), out);
    if |bs| == 1 {
      assert bs[1..] == [];
    } else {
      StreamRoundTrip(input, bs[1..], at', bs[0].Output(out));
    }
  }
}
