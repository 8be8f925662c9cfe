/** Inputs that stb's decoder has no room for, or no end. */
module HeaderExamples {
  import opened Bits
  import opened Canonical
  import opened Deflate
  import opened Stream
  import opened Headers

  // ---------- the room for code lengths ----------

  lemma {:induction false} EnoughRoom(sizes: seq<nat>, input: seq<byte>, at: nat, need: nat, acc: seq<nat>)
    requires need <= 318 && |acc| <= MAX_LENGTHS
    ensures !ReadLengths(sizes, input, at, need, acc).TooMany?
    decreases need - |acc|
  {
    hide Drop;
    hide Decode;
    hide RunOf;
    if |acc| < need {
      var v := Drop(BytesVal(input), at);
      match Decode(sizes, v)
      case NoCode =>
      case Symbol(c, k) =>
        if c != 16 || acc != [] {
          LongestRun(c, acc, Drop(v, k));
          EnoughRoom(sizes, input, at + k + RunBits(c), need, acc + RunOf(c, acc, Drop(v, k)));
        }
    }
  }

  lemma LongestRun(c: nat, acc: seq<nat>, v: nat)
    requires c == 16 ==> acc != []
    ensures |RunOf(c, acc, v)| <= 138
  {
    SmallPowers();
  }

  /** The code with one bit each for the length zero and the longest repetition. */
  function TwoCodes(): (r: seq<nat>)
    ensures |r| == 19 && r[0] == 1 && r[18] == 1 && forall i :: 1 <= i < 18 ==> r[i] == 0
  {
    [1] + seq(17, _ => 0) + [1]
  }

  lemma TwoCodesCount(k: nat)
    requires k >= 1
    ensures Count(TwoCodes(), k) == if k == 1 then 2 else 0
  {
    var zeros := seq(17, _ => 0);
    CountAppend([1] + zeros, [1], k);
    CountAppend([1], zeros, k);
    CountRepeat(17, 0, k);
    assert [1][..0] == [];
  }

  lemma TwoCodesFit()
    ensures ValidLengths(TwoCodes()) && NotOversubscribed(TwoCodes()) && Given(TwoCodes(), 4)
  {
    hide Count;
    forall k: nat {:trigger Count(TwoCodes(), k)} | k >= 1 ensures Count(TwoCodes(), k) == if k == 1 then 2 else 0 {
      TwoCodesCount(k);
    }
    SmallPowers();
    assert EndCode(TwoCodes(), 1) == 2;
    SumDone(TwoCodes(), 1, MAX_BITS);
  }

  /** `n` zero lengths, and then a repetition of 138 more. */
  function LongOps(n: nat): seq<Op> {
    if n == 0 then [Op(18, 127)] else [Op(0, 0)] + LongOps(n - 1)
  }

  lemma {:induction false} LongFills(n: nat, acc: seq<nat>, need: nat)
    requires |acc| + n == need - 1 && need <= 320
    ensures AllWritable(TwoCodes(), LongOps(n)) && Fills(LongOps(n), acc, need)
    ensures |Filled(LongOps(n), acc, need)| == need + 137
    decreases n
  {
    SmallPowers();
    if n > 0 {
      LongFills(n - 1, acc + [0], need);
      assert LongOps(n)[1..] == LongOps(n - 1);
    } else {
      assert LongOps(0)[1..] == [];
    }
  }

  /** A header that announces 319 or 320 lengths and gives more than there is room for. */
  lemma LongHeader(need: nat) returns (input: seq<byte>)
    requires 319 <= need <= 320
    ensures Hlit(BytesVal(input), 0) + Hdist(BytesVal(input), 0) == need
    ensures HeaderLengths(input, 0) == TooMany && ReadHeader(input, 0) == UnspecifiedHeader
  {
    hide PutHeader;
    hide ReadHeader;
    hide HeaderLengths;
    hide NotOversubscribed;
    hide TwoCodes;
    hide AllWritable;
    hide Fills;
    hide Filled;
    TwoCodesFit();
    LongFills(need - 1, [], need);
    var p := Plan(288, need - 288, 4, TwoCodes(), LongOps(need - 1));
    var v := PutHeader(p, 0);
    input := BytesOf(v);
    GetHeader(input, 0, p, 0);
  }

  /** Any bits are the bits of some bytes. */
  lemma BytesOf(v: nat) returns (input: seq<byte>)
    ensures BytesVal(input) == v && Drop(BytesVal(input), 0) == v
  {
    hide Pow2;
    Pow2Exceeds(v);
    Pow2Mono(v, 8 * v);
    BytesOfStream(v, v);
    DropNothing(v);
    input := ToBytes(v, v);
  }

  /** There is room for the lengths of every header that announces `need` of them exactly when these are at
      most 318. */
  lemma RoomForLengths(need: nat)
    requires 258 <= need <= 320
    ensures (forall input: seq<byte>, at: nat {:trigger HeaderLengths(input, at)} ::
               Hlit(BytesVal(input), at) + Hdist(BytesVal(input), at) == need ==> HeaderLengths(input, at) != TooMany)
       <==> need <= 318
  {
    hide ReadLengths;
    hide HeaderSizes;
    hide Hlit;
    hide Hdist;
    hide Hclen;
    if need <= 318 {
      forall input: seq<byte>, at: nat {:trigger HeaderLengths(input, at)} | Hlit(BytesVal(input), at) + Hdist(BytesVal(input), at) == need
        ensures HeaderLengths(input, at) != TooMany
      {
        EnoughRoom(HeaderSizes(input, at), input, at + 14 + 3 * Hclen(BytesVal(input), at), need, []);
      }
    } else {
      var input := LongHeader(need);
      assert HeaderLengths(input, 0) == TooMany;
    }
  }

  // ---------- a block without an end ----------

  /** One bit for the length one, two bits for the length zero and for the longest repetition. */
  function Sizes(): (r: seq<nat>)
    ensures |r| == 19 && r[0] == 2 && r[1] == 1 && r[18] == 2 && forall i :: 2 <= i < 18 ==> r[i] == 0
  {
    [2, 1] + seq(16, _ => 0) + [2]
  }

  lemma SizesCount(k: nat)
    requires k >= 1
    ensures Count(Sizes(), k) == if k == 1 then 1 else if k == 2 then 2 else 0
  {
    var zeros := seq(16, _ => 0);
    CountAppend([2, 1] + zeros, [2], k);
    CountAppend([2, 1], zeros, k);
    CountRepeat(16, 0, k);
    assert [2, 1][..1] == [2] && [2][..0] == [];
  }

  lemma SizesFit()
    ensures ValidLengths(Sizes()) && NotOversubscribed(Sizes()) && Given(Sizes(), 18)
  {
    hide Count;
    forall k: nat {:trigger Count(Sizes(), k)} | k >= 1 ensures Count(Sizes(), k) == if k == 1 then 1 else if k == 2 then 2 else 0 {
      SizesCount(k);
    }
    SmallPowers();
    assert EndCode(Sizes(), 1) == 1;
    assert EndCode(Sizes(), 2) == 4;
    SumDone(Sizes(), 2, MAX_BITS);
  }

  const OPS: seq<Op> := [Op(1, 0), Op(18, 127), Op(18, 106), Op(1, 0), Op(0, 0)]

  /** One bit for the literal 0, and one for the end of the block. */
  function LitLens(): (r: seq<nat>)
    ensures |r| == 257 && r[0] == 1 && r[256] == 1
  {
    [1] + seq(255, _ => 0) + [1]
  }

  lemma LitLensCount(k: nat)
    requires k >= 1
    ensures Count(LitLens(), k) == if k == 1 then 2 else 0
  {
    var zeros := seq(255, _ => 0);
    CountAppend([1] + zeros, [1], k);
    CountAppend([1], zeros, k);
    CountRepeat(255, 0, k);
    assert [1][..0] == [];
  }

  lemma LitLensFit()
    ensures ValidLengths(LitLens()) && NotOversubscribed(LitLens()) && Decode(LitLens(), 0) == Symbol(0, 1)
  {
    hide Count;
    forall k: nat {:trigger Count(LitLens(), k)} | k >= 1 ensures Count(LitLens(), k) == if k == 1 then 2 else 0 {
      LitLensCount(k);
    }
    SmallPowers();
    assert EndCode(LitLens(), 1) == 2;
    SumDone(LitLens(), 1, MAX_BITS);
    assert Rank(LitLens(), 0) == 0 by {
      assert LitLens()[..0] == [];
      assert Count([], 1) == 0 by { CountNothing(1); }
    }
    assert Code(0, 1) == 0;
    DecodeIff(LitLens(), 0, 0, 1);
  }

  lemma CountNothing(k: nat)
    ensures Count([], k) == 0
  {
  }

  lemma NoDistances()
    ensures ValidLengths([0]) && NotOversubscribed([0])
  {
    assert [0][..0] == [];
    SmallPowers();
    assert EndCode([0], 1) == 0;
    hide Count;
    forall k: nat {:trigger Count([0], k)} | k >= 1 ensures Count([0], k) == 0 {
      NoOnes(k);
    }
    NoneYet([0], MAX_BITS);
  }

  lemma NoOnes(k: nat)
    requires k >= 1
    ensures Count([0], k) == 0
  {
    assert [0][..0] == [];
  }

  /** When nothing but zeros is left, this block goes on for ever. */
  lemma EndlessBlock()
    ensures DecodeBlock(LitLens(), [0], 0) == Endless
  {
    hide LitLens;
    LitLensFit();
  }

  lemma OpsFill()
    ensures AllWritable(Sizes(), OPS) && Fills(OPS, [], 258) && Filled(OPS, [], 258) == LitLens() + [0]
  {
    SmallPowers();
    var a, b, c, d := [1], [1] + Repeat(0, 138), [1] + Repeat(0, 255), LitLens();
    assert Repeat(0, 255) == Repeat(0, 138) + Repeat(0, 117);
    assert OPS[1..] == [Op(18, 127), Op(18, 106), Op(1, 0), Op(0, 0)];
    assert OPS[1..][1..] == [Op(18, 106), Op(1, 0), Op(0, 0)];
    assert OPS[1..][1..][1..] == [Op(1, 0), Op(0, 0)];
    assert OPS[1..][1..][1..][1..] == [Op(0, 0)];
    assert OPS[1..][1..][1..][1..][1..] == [];
    assert b + Repeat(0, 117) == c;
    assert c + [1] == d;
  }

  lemma PlanIs()
    ensures var p := Plan(257, 1, 18, Sizes(), OPS);
      p.Good() && |p.All()| <= MAX_LENGTHS && SplitLengths(Lengths(p.All(), 0), 257, 1) == Codes(LitLens(), [0], 0)
  {
    hide Fills;
    hide Filled;
    hide AllWritable;
    hide NotOversubscribed;
    hide Sizes;
    hide LitLens;
    SizesFit();
    OpsFill();
    LitLensFit();
    NoDistances();
    var all := LitLens() + [0];
    assert all[..257] == LitLens() && all[257..] == [0];
  }

  /** A whole stream that never ends: a dynamic block of which only the header is there. */
  lemma EndlessInput() returns (input: seq<byte>)
    ensures Inflate(input, 0, []) == Unending
  {
    hide PutHeader;
    hide NotOversubscribed;
    hide LitLens;
    hide Sizes;
    hide Fills;
    hide Filled;
    hide AllWritable;
    hide HeaderLengths;
    hide ReadHeader;
    hide DecodeBlock;
    hide OpsBits;
    PlanIs();
    var p := Plan(257, 1, 18, Sizes(), OPS);
    var v := Put(1, 1, Put(2, 2, PutHeader(p, 0)));
    input := BytesOf(v);
    SmallPowers();
    GetPut(1, 1, Put(2, 2, PutHeader(p, 0)));
    GetPut(2, 2, PutHeader(p, 0));
    DropDrop(v, 1, 2);
    GetHeader(input, 3, p, 0);
    EndlessBlock();
    BlockIs(input, p.All(), 3 + p.Bits());
  }

  lemma BlockIs(input: seq<byte>, all: seq<nat>, end: nat)
    requires Low(Drop(BytesVal(input), 1), 2) == 2 && Drop(BytesVal(input), end) == 0
    requires ReadHeader(input, 3) == SplitLengths(Lengths(all, end), 257, 1)
    requires SplitLengths(Lengths(all, 0), 257, 1) == Codes(LitLens(), [0], 0)
    ensures BlockAt(input, 0, []) == Unending
  {
    hide ReadHeader;
    hide DecodeBlock;
    hide LitLens;
    hide NotOversubscribed;
    hide Low;
    hide Drop;
    EndlessBlock();
  }
}
