/** Streams whose content is known from elsewhere, read by the specifications. */
module KnownAnswers {
  import opened Bits
  import opened Canonical
  import opened Deflate
  import opened Stream
  import opened HeaderExamples

  // ---------- a block with the fixed codes, section 3.2.6 of RFC 1951 ----------

  /** Three bits of header, the code 01110001, and the code 0000000 of the end. */
  lemma FixedBlock()
    ensures Inflate([0x73, 0x04, 0x00], 0, []) == Finished([0x41], 18)
  {
    hide DecodeBlock;
    hide FixedLit;
    hide FixedDist;
    var input: seq<byte> := [0x73, 0x04, 0x00];
    FixedBytes(input);
    FixedTokens();
    OneLiteral();
  }

  lemma FixedBytes(input: seq<byte>)
    requires input == [0x73, 0x04, 0x00]
    ensures BytesVal(input) == 0x473 && Low(0x473, 1) == 1 && Low(Drop(0x473, 1), 2) == 1 && Drop(0x473, 3) == 142 && Drop(0x473, 0) == 0x473
  {
    assert input[1..] == [0x04, 0x00] && input[1..][1..] == [0x00] && input[1..][1..][1..] == [];
    assert BytesVal([0x00]) == 0;
    assert BytesVal([0x04, 0x00]) == 4;
  }

  lemma FixedTokens()
    ensures DecodeBlock(FixedLit(), FixedDist(), 142) == Done([Literal(65)], 15)
  {
    hide FixedLit;
    hide FixedDist;
    hide Decode;
    hide DecodeBlock;
    FixedLitTable(65, 142);
    FixedLitTable(256, 0);
    FixedBits();
    FirstToken(FixedLit(), FixedDist(), 142);
    FirstToken(FixedLit(), FixedDist(), 0);
  }

  lemma FixedBits()
    ensures Code(142, 8) == 0x71 && Code(0, 7) == 0 && Drop(142, 8) == 0
  {
    hide Code;
    hide Drop;
    hide Pow2;
    hide Reversed;
    Powers();
    EightBitsOf(142);
    CodeOnce(142, 8);
    CodeOnce(71, 7);
    CodeOnce(35, 6);
    CodeOnce(17, 5);
    CodeOnce(8, 4);
    CodeOnce(4, 3);
    CodeOnce(2, 2);
    CodeOnce(1, 1);
    ZeroCode();
  }

  lemma ZeroCode()
    ensures Code(0, 7) == 0
  {
  }

  lemma OneLiteral()
    ensures Valid([], [Literal(65)]) && Expand([], [Literal(65)]) == [65]
  {
  }
  // ---------- the same with a copy ----------

  /** The literals a, b, c, a and a copy of eight bytes from three back. */
  lemma FixedCopy()
    ensures Inflate([0x4b, 0x4c, 0x4a, 0x4e, 0x84, 0x21, 0x00], 0, []) ==
            Finished([0x61, 0x62, 0x63, 0x61, 0x62, 0x63, 0x61, 0x62, 0x63, 0x61, 0x62, 0x63], 54)
  {
    hide DecodeBlock;
    hide Expand;
    hide Valid;
    hide Low;
    hide Drop;
    hide FixedLit;
    hide FixedDist;
    hide BytesVal;
    CopyBytesVal([0x4b, 0x4c, 0x4a, 0x4e, 0x84, 0x21, 0x00]);
    CopyTokens();
    CopyExpanded();
  }

  const COPY_STREAM: nat := 36852132891723
  const COPY_TOKENS: seq<Token> := [Literal(0x61), Literal(0x62), Literal(0x63), Literal(0x61), Copy(8, 3)]

  lemma CopyBytesVal(input: seq<byte>)
    requires input == [0x4b, 0x4c, 0x4a, 0x4e, 0x84, 0x21, 0x00]
    ensures BytesVal(input) == COPY_STREAM && Drop(COPY_STREAM, 0) == COPY_STREAM
    ensures Low(COPY_STREAM, 1) == 1 && Low(Drop(COPY_STREAM, 1), 2) == 1 && Drop(COPY_STREAM, 3) == 4606516611465
  {
    assert BytesVal(input[6..]) == 0;
    assert input[5..][1..] == input[6..] && input[4..][1..] == input[5..] && input[3..][1..] == input[4..];
    assert input[2..][1..] == input[3..] && input[1..][1..] == input[2..];
    assert BytesVal(input[5..]) == 0x21;
    assert BytesVal(input[4..]) == 0x2184;
    assert BytesVal(input[3..]) == 0x21844e;
    assert BytesVal(input[2..]) == 0x21844e4a;
    assert BytesVal(input[1..]) == 0x21844e4a4c;
    DropSteps3(COPY_STREAM);
  }

  lemma DropSteps3(v: nat)
    ensures Drop(v, 1) == v / 2 && Drop(v, 3) == v / 8 && Low(v, 1) == v % 2 && Low(v / 2, 2) == v / 2 % 4
  {
    hide Low;
    hide Drop;
    var a, b := v / 2, v / 4;
    assert a / 2 == b && b / 2 == v / 8 && a % 4 == a % 2 + 2 * (b % 2);
    OneBit(v, 3);
    OneBit(v, 1);
    OneBit(a, 2);
    OneBit(b, 1);
    NoBits(a);
    NoBits(b);
    NoBits(b / 2);
  }

  lemma OneBit(v: nat, k: nat)
    requires k >= 1
    ensures Drop(v, k) == Drop(v / 2, k - 1) && Low(v, k) == v % 2 + 2 * Low(v / 2, k - 1)
  {
  }

  lemma NoBits(v: nat)
    ensures Drop(v, 0) == v && Low(v, 0) == 0
  {
  }

  lemma CopyTokens()
    ensures DecodeBlock(FixedLit(), FixedDist(), 4606516611465) == Done(COPY_TOKENS, 51)
  {
    hide FixedLit;
    hide FixedDist;
    hide Decode;
    hide DecodeBlock;
    hide Drop;
    hide Code;
    Letter(0x61, 4606516611465, 17994205513);
    Letter(0x62, 17994205513, 70289865);
    Letter(0x63, 70289865, 274569);
    Letter(0x61, 274569, 1072);
    CopyToken();
    Ending();
  }

  /** A literal from 0 to 143 comes first, and `rest` after it. */
  lemma Letter(b: byte, v: nat, rest: nat)
    requires b <= 143 && v / 256 == rest && Reversed(v % 256) == 0x30 + b
    ensures DecodeBlock(FixedLit(), FixedDist(), v) == After([Literal(b)], 8, DecodeBlock(FixedLit(), FixedDist(), rest))
  {
    hide FixedLit;
    hide FixedDist;
    hide Decode;
    hide DecodeBlock;
    hide Reversed;
    EightBitsOf(v);
    FixedLitTable(b, v);
    FirstToken(FixedLit(), FixedDist(), v);
  }

  /** Eight bits, the first one most significant. */
  function Reversed(b: nat): nat {
    var c, d, e, f, g, h, i := b / 2, b / 4, b / 8, b / 16, b / 32, b / 64, b / 128;
    b % 2 * 128 + c % 2 * 64 + d % 2 * 32 + e % 2 * 16 + f % 2 * 8 + g % 2 * 4 + h % 2 * 2 + i % 2
  }

  lemma EightBitsOf(v: nat)
    ensures Code(v, 8) == Reversed(v % 256) && Drop(v, 8) == v / 256
  {
    hide *;
    EightBits();
    Split(v, 8);
    LowRange(v, 8);
    ShlIsProduct(Drop(v, 8), 8);
    QuotientUnique(v, 256, Drop(v, 8), Low(v, 8));
    CodeLow(v, 8);
    CodeOfByte(Low(v, 8));
  }

  lemma LowRange(v: nat, k: nat)
    ensures Low(v, k) < Pow2(k)
  {
  }

  lemma CodeOfByte(b: nat)
    requires b < 256
    ensures Code(b, 8) == Reversed(b)
  {
    hide Code;
    hide Pow2;
    Powers();
    var c := b / 2;
    var d := c / 2;
    var e := d / 2;
    var f := e / 2;
    var g := f / 2;
    var h := g / 2;
    var i := h / 2;
    assert d == b / 4 && e == b / 8 && f == b / 16 && g == b / 32 && h == b / 64 && i == b / 128;
    CodeOnce(b, 8);
    CodeOnce(c, 7);
    CodeOnce(d, 6);
    CodeOnce(e, 5);
    CodeOnce(f, 4);
    CodeOnce(g, 3);
    CodeOnce(h, 2);
    CodeOnce(i, 1);
  }

  lemma CodeOnce(v: nat, k: nat)
    requires k >= 1
    ensures Code(v, k) == v % 2 * Pow2(k - 1) + (if k == 1 then 0 else Code(v / 2, k - 1))
  {
  }

  lemma Powers()
    ensures Pow2(0) == 1 && Pow2(1) == 2 && Pow2(2) == 4 && Pow2(3) == 8 && Pow2(4) == 16 && Pow2(5) == 32 && Pow2(6) == 64 && Pow2(7) == 128
  {
    assert Pow2(4) == 16;
  }

  lemma CopyToken()
    ensures DecodeBlock(FixedLit(), FixedDist(), 1072) == After([Copy(8, 3)], 12, DecodeBlock(FixedLit(), FixedDist(), 0))
  {
    hide FixedLit;
    hide FixedDist;
    hide Decode;
    hide DecodeBlock;
    CopyBits();
    CopySymbols();
    FixedLitTable(262, 1072);
    FixedDistTable(2, 8);
    FirstToken(FixedLit(), FixedDist(), 1072);
  }

  lemma CopyBits()
    ensures Code(1072, 7) == 6 && Drop(1072, 7) == 8 && Code(8, 5) == 2 && Drop(1072, 12) == 0
    ensures Low(Drop(8, 5), 0) == 0
  {
    hide Code;
    hide Drop;
    hide Low;
    hide Pow2;
    Powers();
    SevenDropped();
    NoBits(Drop(8, 5));
    CodeOnce(1072, 7);
    CodeOnce(536, 6);
    CodeOnce(268, 5);
    CodeOnce(134, 4);
    CodeOnce(67, 3);
    CodeOnce(33, 2);
    CodeOnce(16, 1);
    CodeOnce(8, 5);
    CodeOnce(4, 4);
    CodeOnce(2, 3);
    CodeOnce(1, 2);
    CodeOnce(0, 1);
  }

  lemma CopySymbols()
    ensures LengthBase(5) == 8 && LengthExtra(5) == 0 && DistBase(2) == 3 && DistExtra(2) == 0
  {
  }

  lemma SevenDropped()
    ensures Drop(1072, 7) == 8 && Drop(1072, 12) == 0
  {
    assert Drop(1072, 7) == Drop(134, 4) == 8;
    DropDrop(1072, 7, 5);
    assert Drop(8, 5) == 0;
  }

  lemma Ending()
    ensures DecodeBlock(FixedLit(), FixedDist(), 0) == Done([], 7)
  {
    hide FixedLit;
    hide FixedDist;
    hide Decode;
    hide DecodeBlock;
    FixedLitTable(256, 0);
    FixedBits();
    FirstToken(FixedLit(), FixedDist(), 0);
  }

  lemma CopyExpanded()
    ensures Valid([], COPY_TOKENS)
    ensures Expand([], COPY_TOKENS) == [0x61, 0x62, 0x63, 0x61, 0x62, 0x63, 0x61, 0x62, 0x63, 0x61, 0x62, 0x63]
  {
    var ts := COPY_TOKENS;
    var a: seq<byte> := [0x61];
    var b: seq<byte> := [0x61, 0x62];
    var c: seq<byte> := [0x61, 0x62, 0x63];
    var d: seq<byte> := [0x61, 0x62, 0x63, 0x61];
    assert Apply([], ts[0]) == a && Apply(a, ts[1]) == b && Apply(b, ts[2]) == c && Apply(c, ts[3]) == d;
    EightBytes();
    assert ts[1..][1..] == ts[2..] && ts[2..][1..] == ts[3..] && ts[3..][1..] == ts[4..] && ts[4..][1..] == [];
    var e := Apply(d, ts[4]);
    assert Valid(e, []) && Expand(e, []) == e;
    assert Valid(d, ts[4..]) && Expand(d, ts[4..]) == e;
    assert Valid(c, ts[3..]) && Expand(c, ts[3..]) == e;
    assert Valid(b, ts[2..]) && Expand(b, ts[2..]) == e;
    assert Valid(a, ts[1..]) && Expand(a, ts[1..]) == e;
  }

  lemma EightBytes()
    ensures CopyBytes([0x61, 0x62, 0x63, 0x61], 8, 3) == [0x61, 0x62, 0x63, 0x61, 0x62, 0x63, 0x61, 0x62, 0x63, 0x61, 0x62, 0x63]
  {
    hide CopyBytes;
    var o: seq<byte> := [0x61, 0x62, 0x63, 0x61];
    CopyNext(o, 8);
    CopyNext(o + [0x62], 7);
    CopyNext(o + [0x62] + [0x63], 6);
    CopyNext(o + [0x62] + [0x63] + [0x61], 5);
    var p: seq<byte> := [0x61, 0x62, 0x63, 0x61, 0x62, 0x63, 0x61, 0x62];
    assert o + [0x62] + [0x63] + [0x61] + [0x62] == p;
    CopyNext(p, 4);
    CopyNext(p + [0x63], 3);
    CopyNext(p + [0x63] + [0x61], 2);
    CopyNext(p + [0x63] + [0x61] + [0x62], 1);
    CopyNext(p + [0x63] + [0x61] + [0x62] + [0x63], 0);
  }

  lemma CopyNext(out: seq<byte>, len: nat)
    requires |out| >= 3
    ensures CopyBytes(out, len, 3) == if len == 0 then out else CopyBytes(out + [out[|out| - 3]], len - 1, 3)
  {
  }

  // ---------- a stored block, section 3.2.4 of RFC 1951 ----------

  lemma StoredBlock()
    ensures Inflate([0x01, 0x01, 0x00, 0xfe, 0xff, 0x41], 0, []) == Finished([0x41], 48)
  {
    var input: seq<byte> := [0x01, 0x01, 0x00, 0xfe, 0xff, 0x41];
    StoredBytes(input);
    assert input[5..6] == [0x41];
  }

  lemma StoredBytes(input: seq<byte>)
    requires input == [0x01, 0x01, 0x00, 0xfe, 0xff, 0x41]
    ensures var v := BytesVal(input);
      Low(Drop(v, 0), 1) == 1 && Low(Drop(v, 1), 2) == 0 && Low(Drop(v, 8), 16) == 1 && Low(Drop(v, 24), 16) == 0xfffe
  {
    hide Low;
    hide Drop;
    hide BytesVal;
    TwoBytes(input, 1);
    TwoBytes(input, 3);
    FirstByte(input);
  }

  lemma TwoBytes(input: seq<byte>, i: nat)
    requires i + 1 < |input|
    ensures var a: int, b: int := input[i], input[i + 1]; Low(Drop(BytesVal(input), 8 * i), 16) == a + 256 * b
  {
    hide Low;
    hide Drop;
    hide BytesVal;
    var v := Drop(BytesVal(input), 8 * i);
    ByteAt(input, i);
    ByteAt(input, i + 1);
    DropDrop(BytesVal(input), 8 * i, 8);
    LowAppend(v, 8, 8);
    ShlIsProduct(Low(Drop(v, 8), 8), 8);
    EightBits();
  }

  lemma FirstByte(input: seq<byte>)
    requires input != [] && input[0] == 1
    ensures var v := BytesVal(input); Low(Drop(v, 0), 1) == 1 && Low(Drop(v, 1), 2) == 0
  {
    ByteFirst(input[0], BytesVal(input[1..]));
    DropSteps3(BytesVal(input));
  }

  // ---------- a block with codes of its own, section 3.2.7 of RFC 1951 ----------

  const DYNAMIC: seq<byte> := [0x05, 0xc7, 0x37, 0x01, 0x00, 0x00, 0x00, 0x02, 0x20, 0xfa, 0x07, 0xfe, 0x71, 0x4b]
  const STREAM: nat := 1530212121474144571536932735534853

  /** The three bits of each size given, and what follows from the first, the second, and so on. */
  const GIVEN: seq<nat> := [3, 3, 2, 0, 0, 0, 0, 0, 0, 0, 0, 0, 0, 2, 0, 0, 0, 2]
  const BEHIND: seq<nat> := [
    11674591991227299282355749019, 1459323998903412410294468627, 182415499862926551286808578, 22801937482865818910851072, 2850242185358227363856384,
    356280273169778420482048, 44535034146222302560256, 5566879268277787820032, 695859908534723477504, 86982488566840434688,
    10872811070855054336, 1359101383856881792, 169887672982110224, 21235959122763778, 2654494890345472, 331811861293184, 41476482661648, 5184560332706, 648070041588]

  /** Two literals 0, in a block with 257 and 8 lengths, which are written with all three repetitions. */
  lemma DynamicBlock()
    ensures Inflate(DYNAMIC, 0, []) == Finished([0x00, 0x00], 111)
  {
    hide DecodeBlock;
    hide ReadHeader;
    hide BytesVal;
    hide Low;
    hide Drop;
    hide LitLens;
    hide Expand;
    hide Valid;
    DynamicVal();
    DynamicStart();
    DynamicHeader();
    DynamicTokens();
    TwoZeros();
  }

  lemma DynamicVal()
    ensures BytesVal(DYNAMIC) == STREAM
  {
    hide BytesVal;
    var s := DYNAMIC;
    EmptyVal(s[14..]);
    ByteAhead(s, 13);
    ByteAhead(s, 12);
    ByteAhead(s, 11);
    ByteAhead(s, 10);
    ByteAhead(s, 9);
    ByteAhead(s, 8);
    ByteAhead(s, 7);
    ByteAhead(s, 6);
    ByteAhead(s, 5);
    ByteAhead(s, 4);
    ByteAhead(s, 3);
    ByteAhead(s, 2);
    ByteAhead(s, 1);
    ByteAhead(s, 0);
    assert s[0..] == s;
  }

  lemma EmptyVal(s: seq<byte>)
    requires s == []
    ensures BytesVal(s) == 0
  {
  }

  lemma ByteAhead(s: seq<byte>, i: nat)
    requires i < |s|
    ensures BytesVal(s[i..]) == s[i] as int + 256 * BytesVal(s[i + 1..])
  {
    assert s[i..][1..] == s[i + 1..];
  }

  /** The stream goes on with `w` bits of value `lo`, and with `hi` behind them. */
  lemma Next(v: nat, at: nat, w: nat, lo: nat, hi: nat)
    requires Drop(v, at) == lo + hi * Pow2(w) && lo < Pow2(w)
    ensures Low(Drop(v, at), w) == lo && Drop(v, at + w) == hi
  {
    hide Low;
    hide Drop;
    hide Pow2;
    ShlIsProduct(hi, w);
    Join(lo, hi, w);
    DropDrop(v, at, w);
  }

  lemma DynamicStart()
    ensures Low(Drop(STREAM, 0), 1) == 1 && Low(Drop(STREAM, 1), 2) == 2
    ensures Low(Drop(STREAM, 3), 5) == 0 && Low(Drop(STREAM, 8), 5) == 7 && Low(Drop(STREAM, 13), 4) == 14
    ensures Drop(STREAM, 17) == BEHIND[0]
  {
    hide Low;
    hide Drop;
    hide Pow2;
    Powers();
    DropNothing(STREAM);
    Next(STREAM, 0, 1, 1, 765106060737072285768466367767426);
    Next(STREAM, 1, 2, 2, 191276515184268071442116591941856);
    Next(STREAM, 3, 5, 0, 5977391099508377232566143498183);
    Next(STREAM, 8, 5, 7, 186793471859636788517691984318);
    Next(STREAM, 13, 4, 14, 11674591991227299282355749019);
  }

  lemma GivenNext(j: nat)
    requires j < 18
    ensures BEHIND[j] == GIVEN[j] + BEHIND[j + 1] * 8 && GIVEN[j] < 8
  {
  }

  lemma {:induction false} GivenBits(j: nat)
    requires j <= 18
    ensures Drop(STREAM, 17 + 3 * j) == BEHIND[j]
    ensures j < 18 ==> Low(Drop(STREAM, 17 + 3 * j), 3) == GIVEN[j]
  {
    hide Low;
    hide Drop;
    hide Pow2;
    Powers();
    if j == 0 {
      DynamicStart();
    } else {
      GivenBits(j - 1);
      GivenNext(j - 1);
      Next(STREAM, 17 + 3 * (j - 1), 3, GIVEN[j - 1], BEHIND[j]);
    }
    if j < 18 {
      GivenNext(j);
      Next(STREAM, 17 + 3 * j, 3, GIVEN[j], BEHIND[j + 1]);
    }
  }

  /** The code length code when the first `n` sizes have been read. */
  function SizesAfter(n: nat): (r: seq<nat>)
    ensures |r| == 19
  {
    seq(19, i => if (i == 16 && n > 0) || (i == 17 && n > 1) then 3
                 else if (i == 18 && n > 2) || (i == 3 && n > 13) || (i == 1 && n > 17) then 2
                 else 0)
  }

  lemma {:induction false} SizesRead(n: nat)
    requires n <= 18
    ensures CodeLengthSizes(DYNAMIC, 17, n) == SizesAfter(n)
  {
    hide SizesAfter;
    hide CodeLengthSizes;
    hide Low;
    hide Drop;
    hide BytesVal;
    DynamicVal();
    NextSize(DYNAMIC, 17, n);
    if n > 0 {
      SizesRead(n - 1);
      GivenBits(n - 1);
      OneSize(n);
    } else {
      NoSizes();
    }
  }

  lemma NextSize(input: seq<byte>, at: nat, n: nat)
    requires n <= 19
    ensures CodeLengthSizes(input, at, n) ==
            if n == 0 then seq(19, _ => 0)
            else CodeLengthSizes(input, at, n - 1)[ORDER[n - 1] := Low(Drop(BytesVal(input), at + 3 * (n - 1)), 3)]
  {
    hide Low;
    hide Drop;
    hide BytesVal;
  }

  lemma NoSizes()
    ensures SizesAfter(0) == seq(19, _ => 0)
  {
  }

  lemma OneSize(n: nat)
    requires 1 <= n <= 18
    ensures ORDER[n - 1] < 19 && SizesAfter(n - 1)[ORDER[n - 1] := GIVEN[n - 1]] == SizesAfter(n)
  {
  }

  // ---------- its code length code ----------

  function Sizes(): (r: seq<nat>)
    ensures |r| == 19
  {
    SizesAfter(18)
  }

  /** How many of the first `i` sizes are 2 and 3. */
  lemma {:induction false} SizesBefore(i: nat)
    requires i <= 19
    ensures Count(Sizes()[..i], 2) == if i <= 1 then 0 else if i <= 3 then 1 else if i <= 18 then 2 else 3
    ensures Count(Sizes()[..i], 3) == if i <= 16 then 0 else if i == 17 then 1 else 2
    ensures forall k: nat {:trigger Count(Sizes()[..i], k)} :: 1 <= k && k != 2 && k != 3 ==> Count(Sizes()[..i], k) == 0
  {
    hide Sizes;
    var s := Sizes();
    if i > 0 {
      SizesBefore(i - 1);
      SizeIs(i - 1);
      assert s[..i][..i - 1] == s[..i - 1] && s[..i][i - 1] == s[i - 1];
    } else {
      assert s[..0] == [];
    }
  }

  lemma SizeIs(i: nat)
    requires i < 19
    ensures Sizes()[i] == if i == 16 || i == 17 then 3 else if i == 18 || i == 3 || i == 1 then 2 else 0
  {
  }

  lemma SizesCodes()
    ensures ValidLengths(Sizes()) && NotOversubscribed(Sizes())
    ensures CodeOf(Sizes(), 1) == 0 && CodeOf(Sizes(), 3) == 1 && CodeOf(Sizes(), 18) == 2
    ensures CodeOf(Sizes(), 16) == 6 && CodeOf(Sizes(), 17) == 7
  {
    hide Count;
    hide Sizes;
    hide Pow2;
    var s := Sizes();
    assert s[..19] == s;
    SizesBefore(19);
    forall i: nat | i < 19 ensures s[i] == if i == 16 || i == 17 then 3 else if i == 18 || i == 3 || i == 1 then 2 else 0 {
      SizeIs(i);
    }
    SizesBefore(1);
    SizesBefore(3);
    SizesBefore(16);
    SizesBefore(17);
    SizesBefore(18);
    Powers();
    assert FirstCode(s, 1) == 0 && FirstCode(s, 2) == 0 && FirstCode(s, 3) == 6;
    assert EndCode(s, 3) == 8;
    SumDone(s, 3, MAX_BITS);
  }

  /** Symbol `c` of the code length code, whose code is `code`, at the head of `v`. */
  lemma SizeDecoded(v: nat, c: nat, k: nat)
    requires c < 19 && Sizes()[c] == k >= 1 && Code(v, k) == CodeOf(Sizes(), c)
    ensures Decode(Sizes(), v) == Symbol(c, k)
  {
    hide Sizes;
    hide Code;
    hide CodeOf;
    hide Decode;
    SizesCodes();
    DecodeIff(Sizes(), v, c, k);
  }

  lemma ReadOne(at: nat, acc: seq<nat>, c: nat, k: nat)
    requires Decode(Sizes(), Drop(STREAM, at)) == Symbol(c, k) && |acc| < 265 && (c == 16 ==> acc != [])
    ensures ReadLengths(Sizes(), DYNAMIC, at, 265, acc) ==
            ReadLengths(Sizes(), DYNAMIC, at + k + RunBits(c), 265, acc + RunOf(c, acc, Drop(STREAM, at + k)))
  {
    hide Sizes;
    hide Decode;
    hide Low;
    hide Drop;
    hide BytesVal;
    hide RunFor;
    DynamicVal();
    DropDrop(STREAM, at, k);
  }

  // ---------- its lengths ----------

  function Eight(): (r: seq<nat>)
    ensures |r| == 8 && forall i :: 0 <= i < 8 ==> r[i] == 3
  {
    seq(8, _ => 3)
  }

  /** The symbol at bit `at`, and the repetition behind it. */
  lemma SymbolAt(at: nat, v: nat, c: nat, k: nat, x: nat, rest: nat)
    requires Drop(STREAM, at) == v && c in {1, 3, 16, 17, 18} && k == Sizes()[c]
    requires v / Pow2(k) == x + rest * Pow2(RunBits(c)) && x < Pow2(RunBits(c)) && Code(v, k) == CodeOf(Sizes(), c)
    ensures Decode(Sizes(), Drop(STREAM, at)) == Symbol(c, k)
    ensures Low(Drop(STREAM, at + k), RunBits(c)) == x && Drop(STREAM, at + k + RunBits(c)) == rest
  {
    hide Sizes;
    hide Low;
    hide Drop;
    hide Pow2;
    hide Code;
    hide CodeOf;
    hide Decode;
    SizeIs(c);
    SizeDecoded(v, c, k);
    Powers();
    var hi := v / Pow2(k);
    assert v == v % Pow2(k) + hi * Pow2(k);
    Next(STREAM, at, k, v % Pow2(k), hi);
    Next(STREAM, at + k, RunBits(c), x, rest);
  }

  lemma CodeHeads()
    ensures Code(648070041588, 2) == 0 && Code(162017510397, 2) == 2 && Code(316440449, 2) == 2 && Code(618047, 3) == 7
    ensures Code(9656, 2) == 0 && Code(2414, 2) == 1 && Code(603, 3) == 6 && Code(18, 2) == 1
  {
    hide Code;
    Powers();
    TwoBits(648070041588);
    TwoBits(162017510397);
    TwoBits(316440449);
    TwoBits(9656);
    TwoBits(2414);
    TwoBits(18);
    ThreeBits(618047);
    ThreeBits(603);
  }

  lemma TwoBits(v: nat)
    ensures Code(v, 2) == 2 * (v % 2) + v / 2 % 2
  {
    hide Code;
    Powers();
    CodeOnce(v, 2);
    CodeOnce(v / 2, 1);
  }

  lemma ThreeBits(v: nat)
    ensures Code(v, 3) == 4 * (v % 2) + 2 * (v / 2 % 2) + v / 4 % 2
  {
    hide Code;
    Powers();
    assert v / 2 / 2 == v / 4;
    CodeOnce(v, 3);
    CodeOnce(v / 2, 2);
    CodeOnce(v / 4, 1);
  }

  lemma SymbolsAt()
    ensures Decode(Sizes(), Drop(STREAM, 71)) == Symbol(1, 2)
    ensures Decode(Sizes(), Drop(STREAM, 73)) == Symbol(18, 2) && Low(Drop(STREAM, 75), 7) == 127
    ensures Decode(Sizes(), Drop(STREAM, 82)) == Symbol(18, 2) && Low(Drop(STREAM, 84), 7) == 96
    ensures Decode(Sizes(), Drop(STREAM, 91)) == Symbol(17, 3) && Low(Drop(STREAM, 94), 3) == 7
    ensures Decode(Sizes(), Drop(STREAM, 97)) == Symbol(1, 2)
    ensures Decode(Sizes(), Drop(STREAM, 99)) == Symbol(3, 2)
    ensures Decode(Sizes(), Drop(STREAM, 101)) == Symbol(16, 3) && Low(Drop(STREAM, 104), 2) == 3
    ensures Decode(Sizes(), Drop(STREAM, 106)) == Symbol(3, 2) && Drop(STREAM, 108) == 4
  {
    hide Sizes;
    hide Low;
    hide Drop;
    hide Pow2;
    hide Code;
    hide CodeOf;
    hide Decode;
    Powers();
    SizesCodes();
    CodeHeads();
    SizeIs(1);
    SizeIs(3);
    SizeIs(16);
    SizeIs(17);
    SizeIs(18);
    GivenBits(18);
    SymbolAt(71, 648070041588, 1, 2, 0, 162017510397);
    SymbolAt(73, 162017510397, 18, 2, 127, 316440449);
    SymbolAt(82, 316440449, 18, 2, 96, 618047);
    SymbolAt(91, 618047, 17, 3, 7, 9656);
    SymbolAt(97, 9656, 1, 2, 0, 2414);
    SymbolAt(99, 2414, 3, 2, 0, 603);
    SymbolAt(101, 603, 16, 3, 3, 18);
    SymbolAt(106, 18, 3, 2, 0, 4);
  }

  lemma DynamicLengths()
    ensures ReadLengths(Sizes(), DYNAMIC, 71, 265, []) == Lengths(LitLens() + Eight(), 108)
  {
    hide Sizes;
    hide Low;
    hide Drop;
    hide Decode;
    hide ReadLengths;
    SymbolsAt();
    ReadOne(71, [], 1, 2);
    var a := [] + RunOf(1, [], Drop(STREAM, 73));
    ReadOne(73, a, 18, 2);
    var b := a + RunOf(18, a, Drop(STREAM, 75));
    ReadOne(82, b, 18, 2);
    var c := b + RunOf(18, b, Drop(STREAM, 84));
    ReadOne(91, c, 17, 3);
    var d := c + RunOf(17, c, Drop(STREAM, 94));
    ReadOne(97, d, 1, 2);
    var e := d + RunOf(1, d, Drop(STREAM, 99));
    ReadOne(99, e, 3, 2);
    var f := e + RunOf(3, e, Drop(STREAM, 101));
    ReadOne(101, f, 16, 3);
    var g := f + RunOf(16, f, Drop(STREAM, 104));
    ReadOne(106, g, 3, 2);
    var h := g + RunOf(3, g, Drop(STREAM, 108));
    assert h == LitLens() + Eight();
    ReadEnough(h);
  }

  lemma ReadEnough(lens: seq<nat>)
    requires |lens| == 265
    ensures ReadLengths(Sizes(), DYNAMIC, 108, 265, lens) == Lengths(lens, 108)
  {
  }

  lemma EightFit()
    ensures ValidLengths(Eight()) && NotOversubscribed(Eight())
  {
    hide Count;
    forall k: nat {:trigger Count(Eight(), k)} | k >= 1 ensures Count(Eight(), k) == if k == 3 then 8 else 0 {
      CountRepeat(8, 3, k);
    }
    NoneYet(Eight(), 3);
    Powers();
    assert EndCode(Eight(), 3) == 8;
    SumDone(Eight(), 3, MAX_BITS);
  }

  lemma DynamicHeader()
    ensures ReadHeader(DYNAMIC, 3) == Codes(LitLens(), Eight(), 108)
  {
    hide *;
    DynamicCounts();
    SizesCodes();
    DynamicLengths();
    BothCodes(LitLens() + Eight());
    HeaderIs(DYNAMIC, 3, Sizes(), 257, 8, 18);
  }

  lemma DynamicCounts()
    ensures Hlit(BytesVal(DYNAMIC), 3) == 257 && Hdist(BytesVal(DYNAMIC), 3) == 8 && Hclen(BytesVal(DYNAMIC), 3) == 18
    ensures HeaderSizes(DYNAMIC, 3) == Sizes()
  {
    hide Low;
    hide Drop;
    hide BytesVal;
    hide CodeLengthSizes;
    hide SizesAfter;
    hide Sizes;
    DynamicVal();
    DynamicStart();
    SizesRead(18);
    SizesAreAll();
  }

  lemma HeaderIs(input: seq<byte>, at: nat, sizes: seq<nat>, hlit: nat, hdist: nat, hclen: nat)
    requires var v := BytesVal(input); Hlit(v, at) == hlit && Hdist(v, at) == hdist && Hclen(v, at) == hclen
    requires HeaderSizes(input, at) == sizes && NotOversubscribed(sizes)
    ensures ReadHeader(input, at) == SplitLengths(ReadLengths(sizes, input, at + 14 + 3 * hclen, hlit + hdist, []), hlit, hdist)
  {
    hide Hlit;
    hide Hdist;
    hide Hclen;
    hide BytesVal;
    hide HeaderSizes;
    hide NotOversubscribed;
    hide ReadLengths;
    hide SplitLengths;
  }

  lemma BothCodes(lens: seq<nat>)
    requires lens == LitLens() + Eight()
    ensures SplitLengths(Lengths(lens, 108), 257, 8) == Codes(LitLens(), Eight(), 108)
  {
    hide NotOversubscribed;
    hide LitLens;
    hide Eight;
    LitLensFit();
    EightFit();
    assert lens[..257] == LitLens() && lens[257..] == Eight();
  }

  lemma SizesAreAll()
    ensures Sizes() == SizesAfter(18)
  {
  }

  // ---------- its data ----------

  lemma DynamicTokens()
    ensures DecodeBlock(LitLens(), Eight(), 4) == Done([Literal(0), Literal(0)], 3) && Drop(STREAM, 108) == 4
  {
    hide LitLens;
    hide Eight;
    hide Decode;
    hide DecodeBlock;
    hide Drop;
    SymbolsAt();
    OneBitCodes(4);
    OneBitCodes(2);
    OneBitCodes(1);
    FirstToken(LitLens(), Eight(), 4);
    FirstToken(LitLens(), Eight(), 2);
    FirstToken(LitLens(), Eight(), 1);
  }

  lemma OneBitCodes(v: nat)
    ensures Decode(LitLens(), v) == Symbol(if v % 2 == 0 then 0 else 256, 1) && Drop(v, 1) == v / 2
  {
    hide LitLens;
    hide Decode;
    hide Count;
    LitLensFit();
    var s := if v % 2 == 0 then 0 else 256;
    OneBitCode(s);
    CodeOnce(v, 1);
    Powers();
    DecodeIff(LitLens(), v, s, 1);
    OneBit(v, 1);
    NoBits(v / 2);
  }

  lemma OneBitCode(s: nat)
    requires s == 0 || s == 256
    ensures LitLens()[s] == 1 && CodeOf(LitLens(), s) == if s == 0 then 0 else 1
  {
    hide Count;
    if s == 0 {
      assert LitLens()[..0] == [];
      CountNothing(1);
    } else {
      var zeros := seq(255, _ => 0);
      assert LitLens()[..256] == [1] + zeros;
      CountAppend([1], zeros, 1);
      CountRepeat(255, 0, 1);
      SingleOne();
    }
  }

  lemma SingleOne()
    ensures Count([1], 1) == 1
  {
    assert [1][..0] == [];
  }

  lemma TwoZeros()
    ensures Valid([], [Literal(0), Literal(0)]) && Expand([], [Literal(0), Literal(0)]) == [0, 0]
  {
    var ts := [Literal(0), Literal(0)];
    assert ts[1..][1..] == [];
    assert Apply([], ts[0]) == [0] && Apply([0], ts[1]) == [0, 0];
    assert Valid([0], ts[1..]) && Expand([0], ts[1..]) == Expand([0, 0], []);
  }
}
