/** What the modes of inflate_codes in DuiLib/Utils/XUnzip.cpp mean: how far the decoder has come
    with the token it is reading, in terms of the bit-at-a-time decoder.
  */
module CodesSpec {
  import opened Bits
  import opened Canonical
  import opened Deflate
  import opened HuftSpec
  import opened Trees

  const WSIZE: nat := 32768

  datatype Mode = START | LEN | LENEXT | DIST | DISTEXT | COPY | LIT | WASH | END | BADCODE

  /** The submode: the table to look in next, a literal to write, or a copy to make. */
  datatype Sub = InTree(tree: nat, need: nat) | GotLiteral(lit: byte) | Copying(get: nat, dist: nat)

  /** The tables of a block, and the bits of the first table of either code. */
  datatype Tables = Tables(hufts: seq<Entry>, ltree: nat, lbits: nat, dtree: nat, dbits: nat)

  /** The tables are right for the code lengths; without length codes there need be no distances. */
  ghost predicate TablesOK(tb: Tables, litlens: seq<nat>, distlens: seq<nat>) {
    && tb.lbits <= 9 && tb.dbits <= 9
    && Decodes(tb.hufts, tb.ltree, tb.lbits, LIT_VALUES, litlens)
    && (|litlens| > 257 ==> Decodes(tb.hufts, tb.dtree, tb.dbits, DIST_VALUES, distlens))
  }

  /** `c` bits into a walk for stream `v`, the rest of the walk begins at `tree`. */
  ghost predicate Walking(t: seq<Entry>, root: nat, bits: nat, v: nat, c: nat, tree: nat, need: nat) {
    && c <= BMAX
    && Longer(c, Walk(t, tree, need, Drop(v, c), BMAX - c)) == Walk(t, root, bits, v, BMAX)
    && Narrow(t, tree, need, Drop(v, c), BMAX - c, bits)
  }

  lemma WalkStart(t: seq<Entry>, root: nat, bits: nat, vals: Values, lens: seq<nat>, v: nat)
    requires Decodes(t, root, bits, vals, lens)
    ensures Walking(t, root, bits, v, 0, root, bits)
    ensures Agrees(vals, Decode(lens, v), Walk(t, root, bits, v, BMAX)) && Walk(t, root, bits, v, BMAX).Leaf?
  {
    hide Decode;
    DropNothing(v);
    assert NarrowFrom(t, root, bits, v);
  }

  /** The next table entry of a walk. */
  lemma WalkOne(t: seq<Entry>, root: nat, bits: nat, v: nat, c: nat, tree: nat, need: nat)
    requires Walking(t, root, bits, v, c, tree, need) && Walk(t, root, bits, v, BMAX).Leaf?
    ensures var i := tree + Low(Drop(v, c), need);
      && need <= bits && i < |t| && 1 <= t[i].bits <= need <= BMAX - c
      && (IsLink(t[i]) ==> Walking(t, root, bits, v, c + t[i].bits, i + t[i].base, t[i].exop))
      && (!IsLink(t[i]) ==> Walk(t, root, bits, v, BMAX) == Leaf(t[i].exop, t[i].base, c + t[i].bits))
  {
    hide Low;
    hide Drop;
    hide Pow2;
    var i := tree + Low(Drop(v, c), need);
    if need <= BMAX - c && i < |t| && 1 <= t[i].bits <= need {
      DropDrop(v, c, t[i].bits);
    }
  }

  /** The bits of the operation of a base with `x` extra bits. */
  lemma BaseExop(x: nat)
    requires x <= 13
    ensures (80 + x) / 16 % 2 == 1 && (80 + x) % 16 == x
  {
  }

  /** The entries of the literal/length code. */
  lemma LitEntry(s: nat, k: nat)
    requires LIT_VALUES.Covers(s + 1)
    ensures var e := SymbolEntry(LIT_VALUES, s, k);
      if s < 256 then e.exop == 0 && e.base == s
      else if s == END_OF_BLOCK then e.exop == 96
      else if s - 257 < LENGTH_CODES then e.exop == 80 + LengthExtra(s - 257) <= 85 && e.base == LengthBase(s - 257)
      else e.exop == INVALID
  {
    if 257 <= s < 257 + LENGTH_CODES {
      LengthBaseTable(s - 257);
      LengthTables(s - 257);
    }
  }

  lemma LengthTables(i: nat)
    requires i < LENGTH_CODES
    ensures CPLENS[i] == LENGTH_BASE[i] && CPLEXT[i] == LengthExtra(i) <= 5
  {
  }

  /** The entries of the distance code. */
  lemma DistEntry(s: nat, k: nat)
    requires DIST_VALUES.Covers(s + 1)
    ensures s < DIST_CODES && SymbolEntry(DIST_VALUES, s, k) == Entry(80 + DistExtra(s), k, DistBase(s)) && DistExtra(s) <= 13
  {
    DistBaseTable(s);
    DistTables(s);
  }

  lemma DistTables(i: nat)
    requires i < DIST_CODES
    ensures CPDIST[i] == DIST_BASE[i] && CPDEXT[i] == DistExtra(i) <= 13
  {
  }

  /** The next table entry of a walk for a code whose tables are right. */
  lemma LookUp(t: seq<Entry>, root: nat, bits: nat, vals: Values, lens: seq<nat>, v: nat, c: nat, tree: nat, need: nat)
    requires Decodes(t, root, bits, vals, lens) && Walking(t, root, bits, v, c, tree, need)
    ensures var i := tree + Low(Drop(v, c), need);
      && need <= bits && i < |t| && 1 <= t[i].bits <= need <= BMAX - c
      && (IsLink(t[i]) ==> Walking(t, root, bits, v, c + t[i].bits, i + t[i].base, t[i].exop))
      && (!IsLink(t[i]) ==> Agrees(vals, Decode(lens, v), Leaf(t[i].exop, t[i].base, c + t[i].bits)))
  {
    hide Decodes;
    hide Decode;
    hide Agrees;
    hide Walking;
    WalkStart(t, root, bits, vals, lens, v);
    WalkOne(t, root, bits, v, c, tree, need);
  }

  lemma LinkExop(e: Entry)
    ensures IsLink(e) <==> e.exop != 0 && e.exop / 16 % 2 == 0 && e.exop / 64 % 2 == 0 && e.exop < 64 && e.exop / 32 % 2 == 0
  {
  }

  /** What a leaf of the literal/length code says, by the bits of its operation. */
  lemma LitLeaf(litlens: seq<nat>, distlens: seq<nat>, v: nat, exop: nat, base: nat, k: nat)
    requires Agrees(LIT_VALUES, Decode(litlens, v), Leaf(exop, base, k))
    ensures exop == 0 ==> base < 256 && DecodeStep(litlens, distlens, v) == Tok(Literal(base), k)
    ensures exop / 16 % 2 == 1 ==>
              && |litlens| > 257 && exop % 16 <= 5
              && DecodeStep(litlens, distlens, v) == DecodeDist(distlens, v, base + Low(Drop(v, k), exop % 16), k + exop % 16)
    ensures exop != 0 && exop / 16 % 2 == 0 ==> exop / 64 % 2 == 1
    ensures exop != 0 && exop / 16 % 2 == 0 && exop / 32 % 2 == 1 ==> DecodeStep(litlens, distlens, v) == EndOfBlock(k)
    ensures exop != 0 && exop / 16 % 2 == 0 && exop / 32 % 2 == 0 ==>
              DecodeStep(litlens, distlens, v) in {BadCode, Reserved}
  {
    hide DecodeFrom;
    hide DecodeDist;
    hide Low;
    hide Drop;
    hide LengthBase;
    hide LengthExtra;
    hide SymbolEntry;
    if Decode(litlens, v).Symbol? {
      var s := Decode(litlens, v).sym;
      DecodeWithin(litlens, v, 0, 0);
      LitEntry(s, k);
      if 257 <= s < 257 + LENGTH_CODES {
        BaseExop(exop - 80);
      }
    }
  }

  /** What a leaf of the distance code says. */
  lemma DistLeaf(distlens: seq<nat>, v: nat, len: nat, b: nat, exop: nat, base: nat, k: nat)
    requires Agrees(DIST_VALUES, Decode(distlens, Drop(v, b)), Leaf(exop, base, k))
    ensures exop / 16 % 2 == 1 ==>
              && exop % 16 <= 13
              && DecodeDist(distlens, v, len, b)
                 == Tok(Copy(len, base + Low(Drop(v, b + k), exop % 16)), b + k + exop % 16)
    ensures exop / 16 % 2 == 0 ==> exop / 64 % 2 == 1 && DecodeDist(distlens, v, len, b) == BadCode
  {
    hide Decode;
    hide Low;
    hide Drop;
    hide DistBase;
    hide DistExtra;
    hide SymbolEntry;
    if Decode(distlens, Drop(v, b)).Symbol? {
      DistEntry(Decode(distlens, Drop(v, b)).sym, k);
      BaseExop(exop - 80);
    }
  }

  /** No distance is greater than the window, and none is zero; a copy has 3 to 258 bytes. */
  lemma CopyRange(litlens: seq<nat>, distlens: seq<nat>, v: nat)
    requires DecodeStep(litlens, distlens, v).Tok? && DecodeStep(litlens, distlens, v).t.Copy?
    ensures var t := DecodeStep(litlens, distlens, v).t; 3 <= t.len <= 258 && 1 <= t.dist <= WSIZE
  {
    hide Decode;
    hide Low;
    hide Drop;
    hide LengthBase;
    hide DecodeDist;
    hide Pow2;
    var i := Decode(litlens, v).sym - 257;
    var k := Decode(litlens, v).len;
    var x := Low(Drop(v, k), LengthExtra(i));
    LengthBaseTable(i);
    LengthTop(i, x);
    DistRange(distlens, v, LengthBase(i) + x, k + LengthExtra(i));
  }

  lemma DistRange(distlens: seq<nat>, v: nat, len: nat, b: nat)
    requires DecodeDist(distlens, v, len, b).Tok?
    ensures DecodeDist(distlens, v, len, b).t.Copy? && DecodeDist(distlens, v, len, b).t.len == len
    ensures 1 <= DecodeDist(distlens, v, len, b).t.dist <= WSIZE
  {
    hide Decode;
    hide Low;
    hide Drop;
    hide DistBase;
    hide Pow2;
    var s := Decode(distlens, Drop(v, b)).sym;
    DistBaseTable(s);
    DistTop(s, Low(Drop(v, b + Decode(distlens, Drop(v, b)).len), DistExtra(s)));
  }

  lemma LengthTop(i: nat, x: nat)
    requires i < LENGTH_CODES && x < Pow2(LengthExtra(i))
    ensures 3 <= LENGTH_BASE[i] + x <= 258
  {
    SmallPowers();
    hide Pow2;
    if i < 27 {
      LengthStep(i);
    } else if i == 27 {
      assert LengthExtra(27) == 5;
    }
  }

  lemma DistTop(i: nat, x: nat)
    requires i < DIST_CODES && x < Pow2(DistExtra(i))
    ensures 1 <= DIST_BASE[i] + x <= WSIZE
  {
    SmallPowers();
    hide Pow2;
    if i < 29 {
      DistStep(i);
    } else {
      assert DistExtra(29) == 13;
    }
  }

  /** What the mode says: `v` is the stream from the token being read on, of which `c` bits have been
      taken, the distance beginning after `b` of them; `h` is the output before the token and `hist`
      the output so far. */
  ghost predicate ModeOK(mode: Mode, sub: Sub, len: nat, tb: Tables, litlens: seq<nat>, distlens: seq<nat>,
                         v: nat, c: nat, b: nat, h: seq<byte>, hist: seq<byte>) {
    var step := DecodeStep(litlens, distlens, v);
    match mode
    case START => c == 0 && hist == h
    case LEN => hist == h && sub.InTree? && Walking(tb.hufts, tb.ltree, tb.lbits, v, c, sub.tree, sub.need)
    case LENEXT =>
      && hist == h && sub.Copying? && |litlens| > 257 && sub.get <= 5 && c <= BMAX
      && step == DecodeDist(distlens, v, len + Low(Drop(v, c), sub.get), c + sub.get)
    case DIST =>
      && hist == h && sub.InTree? && |litlens| > 257 && b <= c && b <= BMAX + 5 && step == DecodeDist(distlens, v, len, b)
      && Walking(tb.hufts, tb.dtree, tb.dbits, Drop(v, b), c - b, sub.tree, sub.need)
    case DISTEXT =>
      && hist == h && sub.Copying? && sub.get <= 13 && c <= 2 * BMAX + 5
      && step == Tok(Copy(len, sub.dist + Low(Drop(v, c), sub.get)), c + sub.get)
    case COPY =>
      && sub.Copying? && step.Tok? && step.bits == c && CopyLeft(step.t, sub.dist, len, h, hist)
    case LIT => hist == h && sub.GotLiteral? && step == Tok(Literal(sub.lit), c)
    case WASH => hist == h && step == EndOfBlock(c)
    case END => hist == h && step == EndOfBlock(c)
    case BADCODE => hist == h && step in {BadCode, Reserved}
  }

  /** Of the copy `t`, all but `len` bytes have been made. */
  ghost predicate CopyLeft(t: Token, dist: nat, len: nat, h: seq<byte>, hist: seq<byte>) {
    && t.Copy? && t.dist == dist && len <= t.len && 1 <= dist <= |h| && dist <= WSIZE
    && hist == CopyBytes(h, t.len - len, dist)
  }

  /** Every distance in the block reaches back to output that exists. */
  ghost predicate DistancesOK(litlens: seq<nat>, distlens: seq<nat>, v: nat, hist: seq<byte>) {
    forall us: seq<Token>, k: nat {:trigger Reads(litlens, distlens, v, us, k)} ::
      Reads(litlens, distlens, v, us, k) ==> Valid(hist, us)
  }

  /** A token that has been read can be applied. */
  lemma NextToken(litlens: seq<nat>, distlens: seq<nat>, v: nat, hist: seq<byte>, done: seq<Token>, k: nat)
    requires DistancesOK(litlens, distlens, v, hist) && Reads(litlens, distlens, v, done, k)
    requires DecodeStep(litlens, distlens, Drop(v, k)).Tok?
    ensures var r := DecodeStep(litlens, distlens, Drop(v, k));
      && Reads(litlens, distlens, v, done + [r.t], k + r.bits)
      && Valid(hist, done) && Valid(hist, done + [r.t]) && Applicable(Expand(hist, done), r.t)
      && Expand(hist, done + [r.t]) == Apply(Expand(hist, done), r.t)
  {
    hide DecodeStep;
    hide Applicable;
    hide Apply;
    var r := DecodeStep(litlens, distlens, Drop(v, k));
    ReadsSnoc(litlens, distlens, v, done, k);
    assert Reads(litlens, distlens, v, done + [r.t], k + r.bits);
    ExpandSnoc(hist, done, r.t);
  }

  /** The bits say which tokens there are: whoever reads up to the same bit has read the same tokens. */
  lemma {:induction false} ReadsUnique(litlens: seq<nat>, distlens: seq<nat>, v: nat, ts: seq<Token>, us: seq<Token>, k: nat)
    requires Reads(litlens, distlens, v, ts, k) && Reads(litlens, distlens, v, us, k)
    ensures ts == us
    decreases |ts|
  {
    hide DecodeStep;
    if ts != [] && us != [] {
      var r := DecodeStep(litlens, distlens, v);
      ReadsUnique(litlens, distlens, Drop(v, r.bits), ts[1..], us[1..], k - r.bits);
      assert ts == [ts[0]] + ts[1..] && us == [us[0]] + us[1..];
    } else if ts != [] {
      ReadsBits(litlens, distlens, v, ts, k);
    } else if us != [] {
      ReadsBits(litlens, distlens, v, us, k);
    }
  }

  lemma ReadsBits(litlens: seq<nat>, distlens: seq<nat>, v: nat, ts: seq<Token>, k: nat)
    requires Reads(litlens, distlens, v, ts, k) && ts != []
    ensures k > 0
  {
    hide Reads;
    ReadsFirst(litlens, distlens, v, ts, k);
    StepBits(litlens, distlens, v);
  }

  lemma ReadsFirst(litlens: seq<nat>, distlens: seq<nat>, v: nat, ts: seq<Token>, k: nat)
    requires Reads(litlens, distlens, v, ts, k) && ts != []
    ensures DecodeStep(litlens, distlens, v).Tok? && DecodeStep(litlens, distlens, v).bits <= k
  {
  }

  /** No token takes no bits. */
  lemma StepBits(litlens: seq<nat>, distlens: seq<nat>, v: nat)
    requires DecodeStep(litlens, distlens, v).Tok?
    ensures DecodeStep(litlens, distlens, v).bits > 0
  {
    hide DecodeFrom;
    DecodeWithin(litlens, v, 0, 0);
  }

  lemma {:induction false} DecodeWithin(lens: seq<nat>, v: nat, k: nat, code: nat)
    requires DecodeFrom(lens, v, k, code).Symbol?
    ensures DecodeFrom(lens, v, k, code).sym < |lens| && DecodeFrom(lens, v, k, code).len > k
    decreases MAX_BITS - k
  {
    var k', code' := k + 1, 2 * code + v % 2;
    if !exists s :: HasCode(lens, s, k', code') {
      DecodeWithin(lens, v / 2, k', code');
    }
  }

  // ---------- a block ----------

  /** A block being decoded: its code lengths, where its tokens begin and the output before them, the
      tokens done and where the next one begins, and after how many more bits its distance begins. */
  datatype Block = Block(litlens: seq<nat>, distlens: seq<nat>, start: nat, hist0: seq<byte>,
                         done: seq<Token>, ts: nat, mark: nat)

  /** The tables are right, the tokens done are what the stream `s` says, and every distance of the
      block is good. */
  ghost predicate BlockOK(tb: Tables, B: Block, s: nat) {
    && TablesOK(tb, B.litlens, B.distlens) && DistancesOK(B.litlens, B.distlens, Drop(s, B.start), B.hist0)
    && B.start <= B.ts && Reads(B.litlens, B.distlens, Drop(s, B.start), B.done, B.ts - B.start)
    && Valid(B.hist0, B.done)
  }

  /** The mode fits the `at` bits taken and the output made. */
  ghost predicate ModeAt(mode: Mode, sub: Sub, len: nat, tb: Tables, B: Block, s: nat, at: int, hist: seq<byte>) {
    && B.ts <= at && Valid(B.hist0, B.done)
    && ModeOK(mode, sub, len, tb, B.litlens, B.distlens, Drop(s, B.ts), at - B.ts, B.mark, Expand(B.hist0, B.done), hist)
  }

  /** The next token of the stream. */
  ghost function TokenAt(B: Block, s: nat): Step {
    DecodeStep(B.litlens, B.distlens, Drop(s, B.ts))
  }

  /** The block with one more token. */
  ghost function Grown(B: Block, t: Token, bits: nat): Block {
    B.(done := B.done + [t], ts := B.ts + bits)
  }

  lemma BlockTables(tb: Tables, B: Block, s: nat)
    requires BlockOK(tb, B, s)
    ensures TablesOK(tb, B.litlens, B.distlens)
  {
  }

  lemma BlockStep(tb: Tables, B: Block, s: nat)
    requires BlockOK(tb, B, s) && TokenAt(B, s).Tok?
    ensures var r := TokenAt(B, s); var B' := Grown(B, r.t, r.bits);
      && BlockOK(tb, B', s) && Valid(B.hist0, B.done) && Applicable(Expand(B.hist0, B.done), r.t)
      && Valid(B.hist0, B'.done) && Expand(B.hist0, B'.done) == Apply(Expand(B.hist0, B.done), r.t)
  {
    hide DecodeStep;
    hide TablesOK;
    hide Apply;
    DropDrop(s, B.start, B.ts - B.start);
    NextToken(B.litlens, B.distlens, Drop(s, B.start), B.hist0, B.done, B.ts - B.start);
  }

  // ---------- the steps between the modes ----------

  lemma StartAt(tb: Tables, B: Block, s: nat, at: int, sub: Sub, len: nat, hist: seq<byte>)
    requires BlockOK(tb, B, s) && ModeAt(START, sub, len, tb, B, s, at, hist)
    ensures forall n :: ModeAt(LEN, InTree(tb.ltree, tb.lbits), n, tb, B, s, at, hist)
  {
    WalkStart(tb.hufts, tb.ltree, tb.lbits, LIT_VALUES, B.litlens, Drop(s, B.ts));
  }

  /** Looking up the next bits in a table of the literal/length code. */
  lemma LenAt(tb: Tables, B: Block, s: nat, at: int, sub: Sub, len: nat, hist: seq<byte>)
    requires BlockOK(tb, B, s) && ModeAt(LEN, sub, len, tb, B, s, at, hist)
    ensures at >= B.ts && sub.InTree? && sub.need <= 9 && at + sub.need <= B.ts + BMAX
    ensures var i := sub.tree + Low(Drop(s, at), sub.need);
      && i < |tb.hufts| && 1 <= tb.hufts[i].bits <= sub.need
      && AfterLen(tb, B, s, at + tb.hufts[i].bits, len, i, hist)
  {
    hide Applicable;
    hide Apply;
    hide CopyLeft;
    hide DistancesOK;
    hide Pow2;
    hide Reads;
    hide Decodes;
    hide DecodeStep;
    hide DecodeDist;
    hide Decode;
    hide Agrees;
    hide Walking;
    hide Low;
    hide Drop;
    hide AfterLen;
    DropDrop(s, B.ts, at - B.ts);
    LookUp(tb.hufts, tb.ltree, tb.lbits, LIT_VALUES, B.litlens, Drop(s, B.ts), at - B.ts, sub.tree, sub.need);
    LenEntry(tb, B, s, at, len, sub.tree + Low(Drop(s, at), sub.need), hist);
  }

  lemma LenEntry(tb: Tables, B: Block, s: nat, at: int, len: nat, i: nat, hist: seq<byte>)
    requires i < |tb.hufts| && B.ts <= at && Valid(B.hist0, B.done) && hist == Expand(B.hist0, B.done)
    requires at + tb.hufts[i].bits <= B.ts + BMAX
    requires var e := tb.hufts[i]; var v, c := Drop(s, B.ts), at - B.ts;
      && (IsLink(e) ==> Walking(tb.hufts, tb.ltree, tb.lbits, v, c + e.bits, i + e.base, e.exop))
      && (!IsLink(e) ==> Agrees(LIT_VALUES, Decode(B.litlens, v), Leaf(e.exop, e.base, c + e.bits)))
    ensures AfterLen(tb, B, s, at + tb.hufts[i].bits, len, i, hist)
  {
    hide DecodeStep;
    hide DecodeDist;
    hide Decode;
    hide Agrees;
    hide Walking;
    hide Low;
    hide Drop;
    var e := tb.hufts[i];
    LinkExop(e);
    if !IsLink(e) {
      LitLeaf(B.litlens, B.distlens, Drop(s, B.ts), e.exop, e.base, at - B.ts + e.bits);
    }
  }

  lemma StartFacts(tb: Tables, B: Block, s: nat, at: int, sub: Sub, len: nat, hist: seq<byte>)
    requires BlockOK(tb, B, s) && ModeAt(START, sub, len, tb, B, s, at, hist)
    ensures at == B.ts && tb.lbits <= 9
  {
    hide Drop;
    hide DistancesOK;
    hide Reads;
    hide Expand;
    hide Agrees;
  }

  lemma CopyPrefix(out: seq<byte>, a: nat, b: nat, dist: nat)
    requires 1 <= dist <= |out| && a <= b
    ensures CopyBytes(out, a, dist) <= CopyBytes(out, b, dist)
    decreases b - a
  {
    if a < b {
      CopySnoc(out, a, dist);
      CopyPrefix(out, a + 1, b, dist);
    }
  }

  /** Half a copy has been put out. */
  lemma CopyOutput(tb: Tables, B: Block, s: nat, at: int, sub: Sub, len: nat, hist: seq<byte>)
    requires BlockOK(tb, B, s) && ModeAt(COPY, sub, len, tb, B, s, at, hist)
    ensures var step := TokenAt(B, s);
      step.Tok? && Valid(B.hist0, B.done + [step.t]) && Expand(B.hist0, B.done) <= hist <= Expand(B.hist0, B.done + [step.t])
  {
    hide BlockOK;
    hide DecodeStep;
    hide Drop;
    hide Expand;
    BlockStep(tb, B, s);
    CopyPrefix(Expand(B.hist0, B.done), TokenAt(B, s).t.len - len, TokenAt(B, s).t.len, sub.dist);
  }

  lemma FirstLookup(tb: Tables, B: Block, s: nat, at: int, sub: Sub, len: nat, hist: seq<byte>)
    requires BlockOK(tb, B, s) && ModeAt(START, sub, len, tb, B, s, at, hist)
    ensures at == B.ts && tb.lbits <= 9
    ensures var i := tb.ltree + Low(Drop(s, at), tb.lbits);
      && i < |tb.hufts| && 1 <= tb.hufts[i].bits <= tb.lbits && AfterLen(tb, B, s, at + tb.hufts[i].bits, 0, i, hist)
  {
    hide *;
    StartFacts(tb, B, s, at, sub, len, hist);
    StartAt(tb, B, s, at, sub, len, hist);
    LenAt(tb, B, s, at, InTree(tb.ltree, tb.lbits), 0, hist);
  }

  /** What entry `i` of a table of the literal/length code leads to. */
  ghost predicate AfterLen(tb: Tables, B: Block, s: nat, at: int, len: nat, i: nat, hist: seq<byte>)
    requires i < |tb.hufts|
  {
    var e := tb.hufts[i];
    if e.exop == 0 then e.base < 256 && ModeAt(LIT, GotLiteral(e.base), len, tb, B, s, at, hist)
    else if e.exop / 16 % 2 == 1 then
      forall d :: ModeAt(LENEXT, Copying(e.exop % 16, d), e.base, tb, B, s, at, hist)
    else if e.exop / 64 % 2 == 0 then
      ModeAt(LEN, InTree(i + e.base, e.exop), len, tb, B, s, at, hist)
    else if e.exop / 32 % 2 == 1 then forall u, n :: ModeAt(WASH, u, n, tb, B, s, at, hist)
    else forall u, n :: ModeAt(BADCODE, u, n, tb, B, s, at, hist)
  }

  /** Taking the extra bits of the length. */
  lemma LenextAt(tb: Tables, B: Block, s: nat, at: int, sub: Sub, len: nat, hist: seq<byte>)
    requires BlockOK(tb, B, s) && ModeAt(LENEXT, sub, len, tb, B, s, at, hist)
    ensures at >= B.ts && sub.Copying? && sub.get <= 5
    ensures var at' := at + sub.get; var len' := len + Low(Drop(s, at), sub.get); var B' := B.(mark := at' - B.ts);
      BlockOK(tb, B', s) && ModeAt(DIST, InTree(tb.dtree, tb.dbits), len', tb, B', s, at', hist)
  {
    hide BlockOK;
    hide TablesOK;
    hide DecodeStep;
    hide DecodeDist;
    hide Walking;
    hide Low;
    hide Drop;
    BlockTables(tb, B, s);
    DropDrop(s, B.ts, at - B.ts);
    StartDist(tb, B, s, at + sub.get);
    Marked(tb, B, s, at + sub.get - B.ts);
  }

  lemma Marked(tb: Tables, B: Block, s: nat, mark: nat)
    requires BlockOK(tb, B, s)
    ensures BlockOK(tb, B.(mark := mark), s)
  {
    hide TablesOK;
    hide DistancesOK;
    hide Reads;
    hide Valid;
  }

  lemma StartDist(tb: Tables, B: Block, s: nat, at: int)
    requires TablesOK(tb, B.litlens, B.distlens) && |B.litlens| > 257 && at >= B.ts
    ensures Walking(tb.hufts, tb.dtree, tb.dbits, Drop(Drop(s, B.ts), at - B.ts), 0, tb.dtree, tb.dbits)
  {
    hide Decodes;
    hide Walking;
    WalkStart(tb.hufts, tb.dtree, tb.dbits, DIST_VALUES, B.distlens, Drop(Drop(s, B.ts), at - B.ts));
  }

  /** Looking up the next bits in a table of the distance code. */
  lemma DistAt(tb: Tables, B: Block, s: nat, at: int, sub: Sub, len: nat, hist: seq<byte>)
    requires BlockOK(tb, B, s) && ModeAt(DIST, sub, len, tb, B, s, at, hist)
    ensures at >= B.ts && sub.InTree? && sub.need <= 9 && at + sub.need <= B.ts + B.mark + BMAX
    ensures var i := sub.tree + Low(Drop(s, at), sub.need);
      && i < |tb.hufts| && 1 <= tb.hufts[i].bits <= sub.need
      && AfterDist(tb, B, s, at + tb.hufts[i].bits, len, i, hist)
  {
    hide Decodes;
    hide DecodeStep;
    hide DecodeDist;
    hide Decode;
    hide Agrees;
    hide Walking;
    hide Low;
    hide Drop;
    hide AfterDist;
    hide BlockOK;
    BlockTables(tb, B, s);
    var v, c := Drop(s, B.ts), at - B.ts;
    DropDrop(s, B.ts, c);
    DropDrop(v, B.mark, c - B.mark);
    LookUp(tb.hufts, tb.dtree, tb.dbits, DIST_VALUES, B.distlens, Drop(v, B.mark), c - B.mark, sub.tree, sub.need);
    DistEntryAt(tb, B, s, at, len, sub.tree + Low(Drop(s, at), sub.need), hist);
  }

  lemma DistEntryAt(tb: Tables, B: Block, s: nat, at: int, len: nat, i: nat, hist: seq<byte>)
    requires i < |tb.hufts| && B.ts + B.mark <= at && Valid(B.hist0, B.done) && hist == Expand(B.hist0, B.done)
    requires B.mark <= BMAX + 5 && at + tb.hufts[i].bits <= B.ts + B.mark + BMAX
    requires |B.litlens| > 257 && TokenAt(B, s) == DecodeDist(B.distlens, Drop(s, B.ts), len, B.mark)
    requires var e := tb.hufts[i]; var w, c := Drop(Drop(s, B.ts), B.mark), at - B.ts - B.mark;
      && (IsLink(e) ==> Walking(tb.hufts, tb.dtree, tb.dbits, w, c + e.bits, i + e.base, e.exop))
      && (!IsLink(e) ==> Agrees(DIST_VALUES, Decode(B.distlens, w), Leaf(e.exop, e.base, c + e.bits)))
    ensures AfterDist(tb, B, s, at + tb.hufts[i].bits, len, i, hist)
  {
    hide DecodeStep;
    hide DecodeDist;
    hide Decode;
    hide Agrees;
    hide Walking;
    hide Low;
    hide Drop;
    var e := tb.hufts[i];
    LinkExop(e);
    if !IsLink(e) {
      DistLeaf(B.distlens, Drop(s, B.ts), len, B.mark, e.exop, e.base, at - B.ts - B.mark + e.bits);
    }
  }

  /** What entry `i` of a table of the distance code leads to. */
  ghost predicate AfterDist(tb: Tables, B: Block, s: nat, at: int, len: nat, i: nat, hist: seq<byte>)
    requires i < |tb.hufts|
  {
    var e := tb.hufts[i];
    if e.exop / 16 % 2 == 1 then ModeAt(DISTEXT, Copying(e.exop % 16, e.base), len, tb, B, s, at, hist)
    else if e.exop / 64 % 2 == 0 then ModeAt(DIST, InTree(i + e.base, e.exop), len, tb, B, s, at, hist)
    else forall u, n :: ModeAt(BADCODE, u, n, tb, B, s, at, hist)
  }

  /** Taking the extra bits of the distance. */
  lemma DistextAt(tb: Tables, B: Block, s: nat, at: int, sub: Sub, len: nat, hist: seq<byte>)
    requires BlockOK(tb, B, s) && ModeAt(DISTEXT, sub, len, tb, B, s, at, hist)
    ensures at >= B.ts && sub.Copying? && sub.get <= 13 && 3 <= len <= 258
    ensures ModeAt(COPY, Copying(sub.get, sub.dist + Low(Drop(s, at), sub.get)), len, tb, B, s, at + sub.get, hist)
  {
    hide BlockOK;
    hide DecodeStep;
    hide Low;
    hide Drop;
    BlockStep(tb, B, s);
    DropDrop(s, B.ts, at - B.ts);
    CopyRange(B.litlens, B.distlens, Drop(s, B.ts));
  }

  // ---------- waiting for input ----------

  /** How many bits the mode asks for. */
  function NeedOf(mode: Mode, sub: Sub): nat {
    if mode in {LEN, DIST} && sub.InTree? then sub.need
    else if mode in {LENEXT, DISTEXT} && sub.Copying? then sub.get
    else 0
  }

  /** The bits of the widest lookup. */
  function Lookup(tb: Tables): nat {
    if tb.lbits < tb.dbits then tb.dbits else tb.lbits
  }

  /** A walk that is not over has a bit to come. */
  lemma WalkGoesOn(t: seq<Entry>, root: nat, bits: nat, vals: Values, lens: seq<nat>, v: nat, c: nat, tree: nat, need: nat)
    requires Decodes(t, root, bits, vals, lens) && Walking(t, root, bits, v, c, tree, need)
    ensures need <= bits && c + need <= BMAX
    ensures Decode(lens, v).Symbol? ==> c < Decode(lens, v).len
  {
    hide Decode;
    hide Decodes;
    hide Walking;
    hide Walk;
    LookUp(t, root, bits, vals, lens, v, c, tree, need);
    WalkStart(t, root, bits, vals, lens, v);
    LeafLater(t, root, bits, v, c, tree, need);
  }

  lemma LeafLater(t: seq<Entry>, root: nat, bits: nat, v: nat, c: nat, tree: nat, need: nat)
    requires Walking(t, root, bits, v, c, tree, need)
    ensures Walk(t, root, bits, v, BMAX).Leaf? ==> c < Walk(t, root, bits, v, BMAX).len
  {
    hide Low;
    hide Drop;
  }

  /** What is asked for begins within the token and goes at most one lookup beyond its end; when there is no
      token it is not far from its beginning. */
  lemma WaitAt(mode: Mode, sub: Sub, len: nat, tb: Tables, B: Block, s: nat, at: int, hist: seq<byte>)
    requires BlockOK(tb, B, s) && mode in {LEN, LENEXT, DIST, DISTEXT} && ModeAt(mode, sub, len, tb, B, s, at, hist)
    ensures NeedOf(mode, sub) <= 15 && B.ts <= at && at + NeedOf(mode, sub) <= B.ts + 48
    ensures TokenAt(B, s).Tok? || TokenAt(B, s).EndOfBlock? ==> at + NeedOf(mode, sub) < B.ts + TokenAt(B, s).bits + Lookup(tb)
    ensures TokenAt(B, s) in {BadCode, Reserved} ==> at + NeedOf(mode, sub) <= B.ts + 35
  {
    hide Decodes;
    hide Decode;
    hide Walking;
    hide Low;
    hide Drop;
    hide LengthBase;
    hide LengthExtra;
    hide DistBase;
    hide DistExtra;
    hide BlockOK;
    hide Expand;
    BlockTables(tb, B, s);
    var v, c := Drop(s, B.ts), at - B.ts;
    LookupPositive(tb, B);
    match mode {
      case LEN => WalkGoesOn(tb.hufts, tb.ltree, tb.lbits, LIT_VALUES, B.litlens, v, c, sub.tree, sub.need);
      case LENEXT =>
      case DIST => WalkGoesOn(tb.hufts, tb.dtree, tb.dbits, DIST_VALUES, B.distlens, Drop(v, B.mark), c - B.mark, sub.tree, sub.need);
      case DISTEXT =>
    }
  }

  lemma LookupPositive(tb: Tables, B: Block)
    requires TablesOK(tb, B.litlens, B.distlens)
    ensures 1 <= tb.lbits <= Lookup(tb) <= 9
  {
    hide Decode;
    LookUpRoot(tb, B);
  }

  lemma LookUpRoot(tb: Tables, B: Block)
    requires TablesOK(tb, B.litlens, B.distlens)
    ensures tb.lbits >= 1
  {
    hide Decode;
    hide Decodes;
    hide Walking;
    WalkStart(tb.hufts, tb.ltree, tb.lbits, LIT_VALUES, B.litlens, 0);
    LookUp(tb.hufts, tb.ltree, tb.lbits, LIT_VALUES, B.litlens, 0, 0, tb.ltree, tb.lbits);
  }

  /** From `B0` to `B1` one token has been read. */
  ghost predicate OneToken(B0: Block, B1: Block, s: nat) {
    TokenAt(B0, s).Tok? && B1 == Grown(B0, TokenAt(B0, s).t, TokenAt(B0, s).bits).(mark := B1.mark)
  }

  // ---------- writing a token ----------

  /** A literal is written at once. */
  lemma LitAt(tb: Tables, B: Block, s: nat, at: int, sub: Sub, len: nat, hist: seq<byte>)
    requires BlockOK(tb, B, s) && ModeAt(LIT, sub, len, tb, B, s, at, hist)
    ensures at >= B.ts && sub.GotLiteral?
    ensures var B' := Grown(B, Literal(sub.lit), at - B.ts);
      BlockOK(tb, B', s) && forall u, n :: ModeAt(START, u, n, tb, B', s, at, hist + [sub.lit])
  {
    hide BlockOK;
    hide DecodeStep;
    hide Drop;
    BlockStep(tb, B, s);
  }

  /** One more byte of a copy; its source is `dist` back. */
  lemma CopyAt(tb: Tables, B: Block, s: nat, at: int, sub: Sub, len: nat, hist: seq<byte>)
    requires BlockOK(tb, B, s) && ModeAt(COPY, sub, len, tb, B, s, at, hist)
    ensures sub.Copying? && 1 <= sub.dist <= WSIZE && sub.dist <= |hist|
    ensures len > 0 ==> ModeAt(COPY, sub, len - 1, tb, B, s, at, hist + [hist[|hist| - sub.dist]])
  {
    hide BlockOK;
    hide DecodeStep;
    hide Drop;
    hide CopyBytes;
    var t := TokenAt(B, s).t;
    CopyHistory(t, sub.dist, len, Expand(B.hist0, B.done), hist);
    if len > 0 {
      CopyOne(t, sub.dist, len, Expand(B.hist0, B.done), hist);
    }
  }

  lemma CopyHistory(t: Token, dist: nat, len: nat, h: seq<byte>, hist: seq<byte>)
    requires CopyLeft(t, dist, len, h, hist)
    ensures dist <= |hist|
  {
  }

  lemma WashAt(tb: Tables, B: Block, s: nat, at: int, sub: Sub, len: nat, hist: seq<byte>)
    requires ModeAt(WASH, sub, len, tb, B, s, at, hist)
    ensures ModeAt(END, sub, len, tb, B, s, at, hist)
  {
  }

  /** All bytes have been copied. */
  lemma CopiedAt(tb: Tables, B: Block, s: nat, at: int, sub: Sub, hist: seq<byte>)
    requires BlockOK(tb, B, s) && ModeAt(COPY, sub, 0, tb, B, s, at, hist)
    ensures at >= B.ts && TokenAt(B, s).Tok?
    ensures var B' := Grown(B, TokenAt(B, s).t, at - B.ts);
      BlockOK(tb, B', s) && forall u, n :: ModeAt(START, u, n, tb, B', s, at, hist)
  {
    hide BlockOK;
    hide DecodeStep;
    hide Drop;
    BlockStep(tb, B, s);
    CopyDone(TokenAt(B, s).t, sub.dist, Expand(B.hist0, B.done), hist);
  }

  /** One more byte of a copy. */
  lemma CopyOne(t: Token, dist: nat, len: nat, h: seq<byte>, hist: seq<byte>)
    requires CopyLeft(t, dist, len, h, hist) && len > 0
    ensures dist <= |hist| && CopyLeft(t, dist, len - 1, h, hist + [hist[|hist| - dist]])
  {
    CopySnoc(h, t.len - len, dist);
    var c := CopyBytes(h, t.len - len, dist);
    assert CopyBytes(h, t.len - len + 1, dist)[..|c|] == c;
    assert CopyBytes(h, t.len - len + 1, dist)[|h| + (t.len - len) - dist] == c[|c| - dist];
  }

  /** The whole token has been written. */
  lemma CopyDone(t: Token, dist: nat, h: seq<byte>, hist: seq<byte>)
    requires CopyLeft(t, dist, 0, h, hist)
    ensures Applicable(h, t) && hist == Apply(h, t)
  {
  }
}
