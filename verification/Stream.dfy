/** Whole DEFLATE streams: section 3.2 of RFC 1951.

    `input` is the compressed data and `at` a position in it, in bits; zeros follow the end of the
    input, as they do for the one-shot decoder.
  */
module Stream {
  import opened Bits
  import opened Canonical
  import opened Deflate

  // ---------- the fixed codes, section 3.2.6 ----------

  function FixedLit(): (r: seq<nat>)
    ensures |r| == 288
  {
    seq(144, _ => 8) + seq(112, _ => 9) + seq(24, _ => 7) + seq(8, _ => 8)
  }

  function FixedDist(): (r: seq<nat>)
    ensures |r| == 32
  {
    seq(32, _ => 5)
  }

  // ---------- the lengths of dynamic codes, section 3.2.7 ----------

  const ORDER: seq<nat> := [16, 17, 18, 0, 8, 7, 9, 6, 10, 5, 11, 4, 12, 3, 13, 2, 14, 1, 15]

  /** The sizes of the code length code come in this order: those of the repetitions, of zero, and then of eight and
      of its neighbours on either side, nearest first. */
  lemma OrderIs(i: nat)
    requires i < 19
    ensures ORDER[i] == if i < 3 then 16 + i else if i == 3 then 0 else if i % 2 == 0 then 6 + i / 2 else (19 - i) / 2
  {
  }

  /** How many code lengths there is room for. */
  const MAX_LENGTHS: nat := 455

  datatype Lengths = Lengths(lens: seq<nat>, at: nat) | BadLengths | NoPrevious | TooMany

  /** The code lengths of the code length alphabet: `n` of them are given. */
  function CodeLengthSizes(input: seq<byte>, at: nat, n: nat): (r: seq<nat>)
    requires n <= 19
    ensures |r| == 19
  {
    if n == 0 then seq(19, _ => 0)
    else CodeLengthSizes(input, at, n - 1)[ORDER[n - 1] := Low(Drop(BytesVal(input), at + 3 * (n - 1)), 3)]
  }

  function Repeat(x: nat, n: nat): (r: seq<nat>)
    ensures |r| == n && forall i :: 0 <= i < n ==> r[i] == x
  {
    seq(n, _ => x)
  }

  /** How many bits follow a code length symbol. */
  function RunBits(c: nat): nat {
    if c < 16 then 0 else if c == 16 then 2 else if c == 17 then 3 else 7
  }

  /** What a code length symbol, followed by `x`, adds to the lengths `acc`. */
  function RunFor(c: nat, acc: seq<nat>, x: nat): (r: seq<nat>)
    requires c == 16 ==> acc != []
    ensures |r| >= 1
  {
    if c < 16 then [c]
    else if c == 16 then Repeat(acc[|acc| - 1], 3 + x)
    else if c == 17 then Repeat(0, 3 + x)
    else Repeat(0, 11 + x)
  }

  /** Symbol 16 repeats the length before 3 to 6 times, 17 and 18 repeat zero 3 to 10 and 11 to 138 times, in 2, 3 and
      7 more bits. */
  lemma RunRanges(c: nat, acc: seq<nat>, n: nat)
    requires c < 19 && (c == 16 ==> acc != [])
    ensures (exists x: nat {:trigger RunFor(c, acc, x)} :: x < Pow2(RunBits(c)) && |RunFor(c, acc, x)| == n)
       <==> (if c < 16 then n == 1 else if c == 16 then 3 <= n <= 6 else if c == 17 then 3 <= n <= 10 else 11 <= n <= 138)
    ensures forall x: nat, i {:trigger RunFor(c, acc, x)[i]} :: 0 <= i < |RunFor(c, acc, x)| ==>
              RunFor(c, acc, x)[i] == if c < 16 then c else if c == 16 then acc[|acc| - 1] else 0
  {
    SmallPowers();
    var x := if c < 16 then 0 else if c == 18 then n - 11 else n - 3;
    if x >= 0 {
      assert |RunFor(c, acc, x)| == if c < 16 then 1 else n;
    }
  }

  /** What it adds when the stream goes on with `v`. */
  function RunOf(c: nat, acc: seq<nat>, v: nat): (r: seq<nat>)
    requires c == 16 ==> acc != []
    ensures |r| >= 1
  {
    RunFor(c, acc, Low(v, RunBits(c)))
  }

  /** Read code lengths, with their repetitions, until there are at least `need`. */
  ghost function ReadLengths(sizes: seq<nat>, input: seq<byte>, at: nat, need: nat, acc: seq<nat>): Lengths
    decreases need - |acc|
  {
    if |acc| > MAX_LENGTHS then TooMany
    else if |acc| >= need then Lengths(acc, at)
    else
      var v := Drop(BytesVal(input), at);
      match Decode(sizes, v)
      case NoCode => BadLengths
      case Symbol(c, k) =>
        if c == 16 && acc == [] then NoPrevious
        else ReadLengths(sizes, input, at + k + RunBits(c), need, acc + RunOf(c, acc, Drop(v, k)))
  }

  datatype Header = Codes(litlens: seq<nat>, distlens: seq<nat>, at: nat) | BadHeader | UnspecifiedHeader

  /** The two codes, given all their lengths. */
  ghost function SplitLengths(r: Lengths, hlit: nat, hdist: nat): Header {
    match r
    case BadLengths => BadHeader
    case NoPrevious => UnspecifiedHeader
    case TooMany => UnspecifiedHeader
    case Lengths(lens, at) =>
      if |lens| != hlit + hdist || !NotOversubscribed(lens[..hlit]) || !NotOversubscribed(lens[hlit..]) then BadHeader
      else Codes(lens[..hlit], lens[hlit..], at)
  }

  /** How many lengths of each kind the header at `at` announces, and how many sizes it gives. */
  function Hlit(v: nat, at: nat): nat {
    Low(Drop(v, at), 5) + 257
  }

  function Hdist(v: nat, at: nat): nat {
    Low(Drop(v, at + 5), 5) + 1
  }

  function Hclen(v: nat, at: nat): (n: nat)
    ensures n <= 19
  {
    SmallPowers();
    Low(Drop(v, at + 10), 4) + 4
  }

  function HeaderSizes(input: seq<byte>, at: nat): (r: seq<nat>)
    ensures |r| == 19
  {
    CodeLengthSizes(input, at + 14, Hclen(BytesVal(input), at))
  }

  ghost function HeaderLengths(input: seq<byte>, at: nat): Lengths {
    var v := BytesVal(input);
    ReadLengths(HeaderSizes(input, at), input, at + 14 + 3 * Hclen(v, at), Hlit(v, at) + Hdist(v, at), [])
  }

  ghost function ReadHeader(input: seq<byte>, at: nat): Header {
    if !NotOversubscribed(HeaderSizes(input, at)) then BadHeader
    else SplitLengths(HeaderLengths(input, at), Hlit(BytesVal(input), at), Hdist(BytesVal(input), at))
  }

  // ---------- blocks ----------

  /** How decoding ends: with the output and the position behind it, with an error, after some output
      with something that has no meaning, or never. */
  datatype Result = Finished(out: seq<byte>, at: nat) | Corrupt | NotSpecified(out: seq<byte>) | Unending

  /** The next byte boundary. */
  function Align(at: nat): nat {
    (at + 7) / 8 * 8
  }

  /** A stored block: its length, the complement of its length, and its bytes. */
  function Stored(input: seq<byte>, at: nat, out: seq<byte>): Result {
    var v, a := BytesVal(input), Align(at);
    var len := Low(Drop(v, a), 16);
    var first := a / 8 + 4;
    if Low(Drop(v, a + 16), 16) != 0xffff - len || first + len > |input| then Corrupt
    else Finished(out + input[first..first + len], a + 32 + 8 * len)
  }

  ghost function Compressed(input: seq<byte>, at: nat, litlens: seq<nat>, distlens: seq<nat>, out: seq<byte>): Result {
    match DecodeBlock(litlens, distlens, Drop(BytesVal(input), at))
    case Done(ts, bits) => if Valid(out, ts) then Finished(Expand(out, ts), at + bits) else Corrupt
    case Bad(_) => Corrupt
    case Unspecified(ts) => if Valid(out, ts) then NotSpecified(Expand(out, ts)) else Corrupt
    case Endless => Unending
  }

  /** One block, after its header of three bits. */
  ghost function Block(input: seq<byte>, at: nat, kind: nat, out: seq<byte>): Result {
    if kind == 0 then Stored(input, at, out)
    else if kind == 1 then Compressed(input, at, FixedLit(), FixedDist(), out)
    else if kind == 2 then
      match ReadHeader(input, at)
      case Codes(litlens, distlens, at') => Compressed(input, at', litlens, distlens, out)
      case BadHeader => Corrupt
      case UnspecifiedHeader => NotSpecified(out)
    else Corrupt
  }

  /** The block whose header is at `at`. */
  ghost function BlockAt(input: seq<byte>, at: nat, out: seq<byte>): Result {
    Block(input, at + 3, Low(Drop(BytesVal(input), at + 1), 2), out)
  }

  predicate IsFinal(input: seq<byte>, at: nat) {
    Low(Drop(BytesVal(input), at), 1) == 1
  }

  /** Decode a stream, block by block. */
  ghost function Inflate(input: seq<byte>, at: nat, out: seq<byte>): Result
    decreases if at < 8 * |input| then 8 * |input| - at else 0
  {
    match BlockAt(input, at, out)
    case Finished(out', at') =>
      if IsFinal(input, at) then Finished(out', at')
      else
        BlockAdvances(input, at, out);
        Inflate(input, at', out')
    case r => r
  }

  /** A block that ends begins within the input, takes bits, and keeps the output before it. */
  lemma BlockAdvances(input: seq<byte>, at: nat, out: seq<byte>)
    ensures var r := BlockAt(input, at, out); r.Finished? ==> at < 8 * |input| && at + 3 <= r.at && out <= r.out
  {
    hide Low;
    hide Drop;
    hide DecodeBlock;
    hide ReadHeader;
    if at >= 8 * |input| {
      NothingBehind(input, at, out);
    }
    if ReadHeader(input, at + 3).Codes? {
      HeaderAdvances(input, at + 3);
    }
  }

  // ---------- counting code lengths ----------

  lemma {:induction false} CountAppend(a: seq<nat>, b: seq<nat>, k: nat)
    ensures Count(a + b, k) == Count(a, k) + Count(b, k)
  {
    if b == [] {
      assert a + b == a;
    } else {
      var n := |b| - 1;
      assert (a + b)[..|a| + n] == a + b[..n];
      CountAppend(a, b[..n], k);
    }
  }

  lemma {:induction false} CountRepeat(n: nat, x: nat, k: nat)
    ensures Count(seq(n, _ => x), k) == if x == k then n else 0
  {
    if n > 0 {
      var s := seq(n, _ => x);
      assert s[..n - 1] == seq(n - 1, _ => x);
      CountRepeat(n - 1, x, k);
    }
  }

  lemma FixedLitCounts(k: nat)
    ensures Count(FixedLit(), k) == if k == 7 then 24 else if k == 8 then 152 else if k == 9 then 112 else 0
  {
    hide Count;
    var a, b, c, d := seq(144, _ => 8), seq(112, _ => 9), seq(24, _ => 7), seq(8, _ => 8);
    CountRepeat(144, 8, k);
    CountRepeat(112, 9, k);
    CountRepeat(24, 7, k);
    CountRepeat(8, 8, k);
    CountAppend(a + b + c, d, k);
    CountAppend(a + b, c, k);
    CountAppend(a, b, k);
  }

  lemma {:induction false} SumDone(lens: seq<nat>, g: nat, k: nat)
    requires 1 <= g <= k && EndCode(lens, g) == Pow2(g)
    requires forall j: nat {:trigger Count(lens, j)} :: g < j <= k ==> Count(lens, j) == 0
    ensures EndCode(lens, k) == Pow2(k)
  {
    if g < k {
      SumDone(lens, g, k - 1);
    }
  }

  lemma {:induction false} NoneYet(lens: seq<nat>, k: nat)
    requires forall j: nat {:trigger Count(lens, j)} :: 1 <= j < k ==> Count(lens, j) == 0
    ensures FirstCode(lens, k) == 0
  {
    if k > 1 {
      NoneYet(lens, k - 1);
    }
  }

  /** The fixed codes are complete codes: their Kraft sums are one. */
  lemma FixedCodes()
    ensures ValidLengths(FixedLit()) && EndCode(FixedLit(), MAX_BITS) == Pow2(MAX_BITS)
    ensures ValidLengths(FixedDist()) && EndCode(FixedDist(), MAX_BITS) == Pow2(MAX_BITS)
  {
    hide Count;
    SmallPowers();
    var l, d := FixedLit(), FixedDist();
    forall k: nat {:trigger Count(l, k)}
      ensures Count(l, k) == if k == 7 then 24 else if k == 8 then 152 else if k == 9 then 112 else 0
    {
      FixedLitCounts(k);
    }
    forall k: nat {:trigger Count(d, k)} ensures Count(d, k) == if k == 5 then 32 else 0 {
      CountRepeat(32, 5, k);
    }
    NoneYet(l, 7);
    assert EndCode(l, 7) == 24;
    assert EndCode(l, 8) == 200;
    assert EndCode(l, 9) == 512;
    SumDone(l, 9, MAX_BITS);
    NoneYet(d, 5);
    assert EndCode(d, 5) == 32;
    SumDone(d, 5, MAX_BITS);
  }

  /** The table of section 3.2.6: how many bits the fixed code of a literal or length has, and what they are. */
  function FixedCode(s: nat): (nat, nat)
    requires s < 288
  {
    if s <= 143 then (8, 0x30 + s)
    else if s <= 255 then (9, 0x190 + s - 144)
    else if s <= 279 then (7, s - 256)
    else (8, 0xC0 + s - 280)
  }

  /** How many symbols before `s` have a code of `k` bits. */
  lemma FixedBefore(s: nat, k: nat)
    requires s < 288
    ensures FixedLit()[s] == FixedCode(s).0
    ensures k == FixedCode(s).0 ==> Count(FixedLit()[..s], k) == if s <= 143 then s else if s <= 255 then s - 144 else if s <= 279 then s - 256 else s - 136
  {
    hide Count;
    var a, b, c := seq(144, _ => 8), seq(112, _ => 9), seq(24, _ => 7);
    CountRepeat(144, 8, k);
    CountRepeat(112, 9, k);
    CountRepeat(24, 7, k);
    if s <= 143 {
      assert FixedLit()[..s] == seq(s, _ => 8);
      CountRepeat(s, 8, k);
    } else if s <= 255 {
      assert FixedLit()[..s] == a + seq(s - 144, _ => 9);
      CountRepeat(s - 144, 9, k);
      CountAppend(a, seq(s - 144, _ => 9), k);
    } else if s <= 279 {
      assert FixedLit()[..s] == a + b + seq(s - 256, _ => 7);
      CountRepeat(s - 256, 7, k);
      CountAppend(a + b, seq(s - 256, _ => 7), k);
      CountAppend(a, b, k);
    } else {
      assert FixedLit()[..s] == a + b + c + seq(s - 280, _ => 8);
      CountRepeat(s - 280, 8, k);
      CountAppend(a + b + c, seq(s - 280, _ => 8), k);
      CountAppend(a + b, c, k);
      CountAppend(a, b, k);
    }
  }

  lemma FixedFirst()
    ensures FirstCode(FixedLit(), 7) == 0 && FirstCode(FixedLit(), 8) == 48 && FirstCode(FixedLit(), 9) == 400
    ensures FirstCode(FixedDist(), 5) == 0
  {
    hide Count;
    hide FixedLit;
    hide FixedDist;
    forall k: nat {:trigger Count(FixedLit(), k)} ensures Count(FixedLit(), k) == if k == 7 then 24 else if k == 8 then 152 else if k == 9 then 112 else 0 {
      FixedLitCounts(k);
    }
    forall k: nat {:trigger Count(FixedDist(), k)} ensures Count(FixedDist(), k) == if k == 5 then 32 else 0 {
      FixedDistCounts(k);
    }
    NoneYet(FixedLit(), 7);
    NoneYet(FixedDist(), 5);
  }

  lemma FixedDistCounts(k: nat)
    ensures Count(FixedDist(), k) == if k == 5 then 32 else 0
  {
    CountRepeat(32, 5, k);
  }

  /** The fixed code of literals and lengths is that of the table: symbol `s` is read exactly where the stream
      goes on with its bits. */
  lemma FixedLitTable(s: nat, v: nat)
    requires s < 288
    ensures CodeOf(FixedLit(), s) == FixedCode(s).1
    ensures Decode(FixedLit(), v) == Symbol(s, FixedCode(s).0) <==> Code(v, FixedCode(s).0) == FixedCode(s).1
  {
    hide Count;
    hide Code;
    hide Decode;
    hide FixedLit;
    hide FixedCode;
    FixedRank(s);
    FixedValid();
    DecodeIff(FixedLit(), v, s, FixedCode(s).0);
  }

  lemma FixedRank(s: nat)
    requires s < 288
    ensures FixedLit()[s] == FixedCode(s).0 >= 1 && CodeOf(FixedLit(), s) == FixedCode(s).1
  {
    hide Count;
    hide FirstCode;
    hide FixedLit;
    FixedFirst();
    FixedBefore(s, FixedCode(s).0);
  }

  lemma FixedValid()
    ensures ValidLengths(FixedLit()) && ValidLengths(FixedDist())
  {
  }

  /** The fixed code of distances is the number of the symbol, in five bits. */
  lemma FixedDistTable(s: nat, v: nat)
    requires s < 32
    ensures CodeOf(FixedDist(), s) == s && (Decode(FixedDist(), v) == Symbol(s, 5) <==> Code(v, 5) == s)
  {
    hide Count;
    hide Code;
    hide Decode;
    hide FirstCode;
    FixedFirst();
    assert FixedDist()[..s] == seq(s, _ => 5);
    CountRepeat(s, 5, 5);
    DecodeIff(FixedDist(), v, s, 5);
  }

  // ---------- the zlib header, section 2.2 of RFC 1950 ----------

  function ByteOr0(input: seq<byte>, i: nat): byte {
    if i < |input| then input[i] else 0
  }

  /** Compression method 8, no preset dictionary, and a valid check. */
  predicate ZlibHeader(input: seq<byte>) {
    var cmf: int, flg: int := ByteOr0(input, 0), ByteOr0(input, 1);
    (cmf * 256 + flg) % 31 == 0 && flg / 32 % 2 == 0 && cmf % 16 == 8
  }

  /** A header of two bytes, by its fields: it is accepted when the method is 8, there is no preset dictionary, and
      the check bits make it a multiple of 31. */
  lemma ZlibFields(cm: nat, cinfo: nat, fcheck: nat, fdict: nat, flevel: nat, rest: seq<byte>)
    requires cm < 16 && cinfo < 16 && fcheck < 32 && fdict < 2 && flevel < 4
    ensures var cmf: byte, flg: byte := cm + 16 * cinfo, fcheck + 32 * fdict + 64 * flevel;
      ZlibHeader([cmf, flg] + rest) <==> cm == 8 && fdict == 0 && (256 * (cm + 16 * cinfo) + fcheck + 64 * flevel) % 31 == 0
  {
    var flg := fcheck + 32 * fdict + 64 * flevel;
    assert flg / 32 == fdict + 2 * flevel;
    assert (cm + 16 * cinfo) % 16 == cm;
  }

  // ---------- streams of several blocks ----------

  lemma {:induction false} LengthsAdvance(sizes: seq<nat>, input: seq<byte>, at: nat, need: nat, acc: seq<nat>)
    ensures var r := ReadLengths(sizes, input, at, need, acc); r.Lengths? ==> r.at >= at
    decreases need - |acc|
  {
    hide Low;
    hide Drop;
    hide Decode;
    hide RunFor;
    if |acc| <= MAX_LENGTHS && |acc| < need {
      var v := Drop(BytesVal(input), at);
      match Decode(sizes, v)
      case NoCode =>
      case Symbol(c, k) =>
        if c != 16 || acc != [] {
          LengthsAdvance(sizes, input, at + k + RunBits(c), need, acc + RunOf(c, acc, Drop(v, k)));
        }
    }
  }

  lemma HeaderAdvances(input: seq<byte>, at: nat)
    ensures var h := ReadHeader(input, at); h.Codes? ==> h.at >= at
  {
    hide Low;
    hide Drop;
    hide ReadLengths;
    hide NotOversubscribed;
    hide Hclen;
    var v := BytesVal(input);
    LengthsAdvance(HeaderSizes(input, at), input, at + 14 + 3 * Hclen(v, at), Hlit(v, at) + Hdist(v, at), []);
  }

  /** Behind the end of the input there are only zeros. */
  lemma {:induction false} DropEnd(input: seq<byte>, at: nat)
    requires at >= 8 * |input|
    ensures Drop(BytesVal(input), at) == 0
    decreases |input|
  {
    if input == [] {
      DropZero(at);
    } else {
      ByteFirst(input[0], BytesVal(input[1..]));
      DropEnd(input[1..], at - 8);
      DropDrop(BytesVal(input), 8, at - 8);
    }
  }

  /** There is no block behind the end: zeros are no header of a stored block. */
  lemma NothingBehind(input: seq<byte>, at: nat, out: seq<byte>)
    requires at >= 8 * |input|
    ensures BlockAt(input, at, out) == Corrupt
  {
    hide Drop;
    var a := Align(at + 3);
    DropEnd(input, at + 1);
    DropEnd(input, a);
    DropEnd(input, a + 16);
    LowZero(2);
    LowZero(16);
  }

  /** The output of a stream begins with the output of its first block. */
  lemma {:induction false} InflateGrows(input: seq<byte>, at: nat, out: seq<byte>)
    ensures var r := Inflate(input, at, out); r.Finished? || r.NotSpecified? ==> out <= r.out
    decreases if at < 8 * |input| then 8 * |input| - at else 0
  {
    hide BlockAt;
    hide IsFinal;
    var r := BlockAt(input, at, out);
    BlockAdvances(input, at, out);
    BlockGrows(input, at, out);
    if r.Finished? {
      InflateGrows(input, r.at, r.out);
    }
  }

  lemma BlockGrows(input: seq<byte>, at: nat, out: seq<byte>)
    ensures var r := BlockAt(input, at, out); r.NotSpecified? ==> out <= r.out
  {
    hide Low;
    hide Drop;
    hide DecodeBlock;
    hide ReadHeader;
  }

  /** The next block of a stream. */
  lemma InflateNext(input: seq<byte>, at: nat, out: seq<byte>)
    ensures var r, b := Inflate(input, at, out), BlockAt(input, at, out);
      if b.Finished? then
        && at < 8 * |input| && at < b.at && |out| <= |b.out|
        && (r == if IsFinal(input, at) then b else Inflate(input, b.at, b.out))
        && (r.Finished? || r.NotSpecified? ==> |b.out| <= |r.out|)
      else r == b
  {
    hide BlockAt;
    hide IsFinal;
    var b := BlockAt(input, at, out);
    BlockAdvances(input, at, out);
    if b.Finished? {
      InflateGrows(input, b.at, b.out);
    }
  }
}
