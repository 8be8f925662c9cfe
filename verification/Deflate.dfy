/** Compressed blocks of DEFLATE: sections 3.2.3 and 3.2.5 of RFC 1951.

    A block is a list of tokens, each a literal byte or a copy of earlier output, written with one
    Huffman code for literals and lengths and another for distances.  This is the specification of
    both decoders.
  */
module Deflate {
  import opened Bits
  import opened Canonical

  datatype Token = Literal(b: byte) | Copy(len: nat, dist: nat)

  /** What a decoder finds at the head of a stream, and how many bits it takes. */
  datatype Step = Tok(t: Token, bits: nat) | EndOfBlock(bits: nat) | BadCode | Reserved

  const END_OF_BLOCK: nat := 256
  const LENGTH_CODES: nat := 29
  const DIST_CODES: nat := 30

  // ---------- lengths and distances ----------

  function LengthExtra(i: nat): nat {
    if i < 8 || i >= 28 then 0 else (i - 4) / 4
  }

  function LengthBase(i: nat): nat {
    if i == 0 then 3
    else if i >= 28 then 258
    else LengthBase(i - 1) + Pow2(LengthExtra(i - 1))
  }

  function DistExtra(i: nat): nat {
    if i < 4 then 0 else (i - 2) / 2
  }

  function DistBase(i: nat): nat {
    if i == 0 then 1 else DistBase(i - 1) + Pow2(DistExtra(i - 1))
  }

  // ---------- the bit-at-a-time decoder ----------

  ghost function DecodeStep(litlens: seq<nat>, distlens: seq<nat>, v: nat): Step {
    match Decode(litlens, v)
    case NoCode => BadCode
    case Symbol(s, k) =>
      if s < 256 then Tok(Literal(s), k)
      else if s == END_OF_BLOCK then EndOfBlock(k)
      else if s - 257 >= LENGTH_CODES then Reserved
      else
        var i := s - 257;
        var len := LengthBase(i) + Low(Drop(v, k), LengthExtra(i));
        DecodeDist(distlens, v, len, k + LengthExtra(i))
  }

  ghost function DecodeDist(distlens: seq<nat>, v: nat, len: nat, bits: nat): Step {
    match Decode(distlens, Drop(v, bits))
    case NoCode => BadCode
    case Symbol(s, k) =>
      if s >= DIST_CODES then Reserved
      else Tok(Copy(len, DistBase(s) + Low(Drop(v, bits + k), DistExtra(s))), bits + k + DistExtra(s))
  }

  /** How a block ends: with its end-of-block code, with a pattern without a code, with a symbol that is
      reserved, or never. */
  datatype BlockResult = Done(toks: seq<Token>, bits: nat) | Bad(toks: seq<Token>) | Unspecified(toks: seq<Token>) | Endless

  /** Decode a block.  When only zeros are left and they begin with a token, there is no end. */
  ghost function DecodeBlock(litlens: seq<nat>, distlens: seq<nat>, v: nat): BlockResult
    decreases v
  {
    match DecodeStep(litlens, distlens, v)
    case EndOfBlock(k) => Done([], k)
    case BadCode => Bad([])
    case Reserved => Unspecified([])
    case Tok(t, k) =>
      if v == 0 then Endless
      else
        StepTakes(litlens, distlens, v);
        After([t], k, DecodeBlock(litlens, distlens, Drop(v, k)))
  }

  /** Every token takes a bit. */
  lemma StepTakes(litlens: seq<nat>, distlens: seq<nat>, v: nat)
    ensures var r := DecodeStep(litlens, distlens, v);
      r.Tok? ==> r.bits >= 1 && (v > 0 ==> Drop(v, r.bits) < v)
  {
    hide LengthBase;
    hide LengthExtra;
    hide DistBase;
    hide DistExtra;
    hide Low;
    hide Drop;
    var r := DecodeStep(litlens, distlens, v);
    DecodeTakes(litlens, v, 0, 0);
    if r.Tok? && v > 0 {
      DropLess(v, r.bits);
    }
  }

  lemma {:induction false} DecodeTakes(lens: seq<nat>, v: nat, k: nat, code: nat)
    ensures var r := DecodeFrom(lens, v, k, code); r.Symbol? ==> r.len > k
    decreases MAX_BITS - k
  {
    if k < MAX_BITS {
      DecodeTakes(lens, v / 2, k + 1, 2 * code + v % 2);
    }
  }

  /** The result for a block whose first tokens `ts`, of `k` bits, have already been decoded. */
  function After(ts: seq<Token>, k: nat, r: BlockResult): BlockResult {
    match r
    case Done(us, bits) => Done(ts + us, k + bits)
    case Bad(us) => Bad(ts + us)
    case Unspecified(us) => Unspecified(ts + us)
    case Endless => Endless
  }

  /** Decoding the first token of a block. */
  lemma {:induction false} FirstToken(litlens: seq<nat>, distlens: seq<nat>, v: nat)
    ensures var r := DecodeStep(litlens, distlens, v);
      match r
      case EndOfBlock(_) => DecodeBlock(litlens, distlens, v) == Done([], r.bits)
      case BadCode => DecodeBlock(litlens, distlens, v) == Bad([])
      case Reserved => DecodeBlock(litlens, distlens, v) == Unspecified([])
      case Tok(_, _) => DecodeBlock(litlens, distlens, v) == After([r.t], r.bits, DecodeBlock(litlens, distlens, Drop(v, r.bits)))
  {
    hide DecodeStep;
    if v == 0 && DecodeStep(litlens, distlens, v).Tok? {
      DropZero(DecodeStep(litlens, distlens, v).bits);
    }
  }

  /** Decoding one more token of a block. */
  lemma {:induction false} AfterStep(litlens: seq<nat>, distlens: seq<nat>, v: nat, ts: seq<Token>, k: nat)
    ensures var r := DecodeStep(litlens, distlens, v);
      match r
      case EndOfBlock(_) => After(ts, k, DecodeBlock(litlens, distlens, v)) == Done(ts, k + r.bits)
      case BadCode => After(ts, k, DecodeBlock(litlens, distlens, v)) == Bad(ts)
      case Reserved => After(ts, k, DecodeBlock(litlens, distlens, v)) == Unspecified(ts)
      case Tok(_, _) =>
        After(ts, k, DecodeBlock(litlens, distlens, v)) == After(ts + [r.t], k + r.bits, DecodeBlock(litlens, distlens, Drop(v, r.bits)))
  {
    hide DecodeStep;
    hide DecodeBlock;
    FirstToken(litlens, distlens, v);
    assert ts + [] == ts;
    if DecodeStep(litlens, distlens, v).Tok? {
      var t, n := DecodeStep(litlens, distlens, v).t, DecodeStep(litlens, distlens, v).bits;
      var r := DecodeBlock(litlens, distlens, Drop(v, n));
      assert !r.Endless? ==> ts + ([t] + r.toks) == ts + [t] + r.toks;
    }
  }

  /** The bit-at-a-time decoder reads the tokens `ts` from the first `k` bits of `v`. */
  ghost predicate Reads(litlens: seq<nat>, distlens: seq<nat>, v: nat, ts: seq<Token>, k: nat)
    decreases |ts|
  {
    if ts == [] then k == 0
    else
      var r := DecodeStep(litlens, distlens, v);
      && r.Tok? && r.t == ts[0] && r.bits <= k
      && Reads(litlens, distlens, Drop(v, r.bits), ts[1..], k - r.bits)
  }

  /** One more token. */
  lemma {:induction false} ReadsSnoc(litlens: seq<nat>, distlens: seq<nat>, v: nat, ts: seq<Token>, k: nat)
    requires Reads(litlens, distlens, v, ts, k) && DecodeStep(litlens, distlens, Drop(v, k)).Tok?
    ensures var r := DecodeStep(litlens, distlens, Drop(v, k));
      Reads(litlens, distlens, v, ts + [r.t], k + r.bits)
    decreases |ts|
  {
    hide DecodeStep;
    hide Drop;
    var r := DecodeStep(litlens, distlens, Drop(v, k));
    DropNothing(v);
    if ts == [] {
      assert [r.t][1..] == [];
    } else {
      var n := DecodeStep(litlens, distlens, v).bits;
      DropDrop(v, n, k - n);
      ReadsSnoc(litlens, distlens, Drop(v, n), ts[1..], k - n);
      assert (ts + [r.t])[1..] == ts[1..] + [r.t];
    }
  }

  /** Decoding goes on behind the tokens read. */
  lemma {:induction false} ReadsRest(litlens: seq<nat>, distlens: seq<nat>, v: nat, ts: seq<Token>, k: nat)
    requires Reads(litlens, distlens, v, ts, k)
    ensures DecodeBlock(litlens, distlens, v) == After(ts, k, DecodeBlock(litlens, distlens, Drop(v, k)))
    decreases |ts|
  {
    hide DecodeStep;
    hide DecodeBlock;
    hide Drop;
    hide After;
    DropNothing(v);
    var r := DecodeBlock(litlens, distlens, Drop(v, k));
    if ts == [] {
      AfterNothing(r);
    } else {
      var n := DecodeStep(litlens, distlens, v).bits;
      DropDrop(v, n, k - n);
      ReadsRest(litlens, distlens, Drop(v, n), ts[1..], k - n);
      AfterCons(ts, n, k, r);
      FirstToken(litlens, distlens, v);
    }
  }

  /** Tokens read up to the end of a block are the tokens of the block. */
  lemma ReadsBlock(litlens: seq<nat>, distlens: seq<nat>, v: nat, ts: seq<Token>, k: nat)
    requires Reads(litlens, distlens, v, ts, k) && DecodeStep(litlens, distlens, Drop(v, k)).EndOfBlock?
    ensures DecodeBlock(litlens, distlens, v) == Done(ts, k + DecodeStep(litlens, distlens, Drop(v, k)).bits)
  {
    hide DecodeStep;
    hide Drop;
    ReadsRest(litlens, distlens, v, ts, k);
    assert ts + [] == ts;
  }

  /** More tokens take more bits. */
  lemma {:induction false} ReadsPrefix(litlens: seq<nat>, distlens: seq<nat>, v: nat, ts: seq<Token>, k: nat, us: seq<Token>, n: nat)
    requires Reads(litlens, distlens, v, ts, k) && Reads(litlens, distlens, v, us, n) && ts <= us
    ensures k <= n
    decreases |ts|
  {
    hide DecodeStep;
    hide Drop;
    if ts != [] {
      var b := DecodeStep(litlens, distlens, v).bits;
      ReadsPrefix(litlens, distlens, Drop(v, b), ts[1..], k - b, us[1..], n - b);
    }
  }

  /** The tokens of a block that ends are read from its first bits. */
  lemma {:induction false} BlockReads(litlens: seq<nat>, distlens: seq<nat>, v: nat) returns (k: nat)
    requires !DecodeBlock(litlens, distlens, v).Endless?
    ensures Reads(litlens, distlens, v, DecodeBlock(litlens, distlens, v).toks, k)
    decreases v
  {
    hide DecodeStep;
    hide Drop;
    k := 0;
    if DecodeStep(litlens, distlens, v).Tok? {
      StepTakes(litlens, distlens, v);
      var t, n := DecodeStep(litlens, distlens, v).t, DecodeStep(litlens, distlens, v).bits;
      var m := BlockReads(litlens, distlens, Drop(v, n));
      k := n + m;
      var us := DecodeBlock(litlens, distlens, Drop(v, n)).toks;
      assert ([t] + us)[1..] == us;
    }
  }

  /** A block without an end has any number of tokens, */
  lemma {:induction false} EndlessReads(litlens: seq<nat>, distlens: seq<nat>, v: nat, n: nat) returns (ts: seq<Token>, k: nat)
    requires DecodeBlock(litlens, distlens, v).Endless?
    ensures |ts| == n && Reads(litlens, distlens, v, ts, k)
    decreases n
  {
    hide DecodeStep;
    hide DecodeBlock;
    hide Drop;
    ts, k := [], 0;
    if n > 0 {
      FirstToken(litlens, distlens, v);
      var t, b := DecodeStep(litlens, distlens, v).t, DecodeStep(litlens, distlens, v).bits;
      var us, m := EndlessReads(litlens, distlens, Drop(v, b), n - 1);
      ts, k := [t] + us, b + m;
      assert ts[1..] == us;
    }
  }

  /** and a block that ends has no more than its own. */
  lemma EndingReads(litlens: seq<nat>, distlens: seq<nat>, v: nat, ts: seq<Token>, k: nat)
    requires Reads(litlens, distlens, v, ts, k) && !DecodeBlock(litlens, distlens, v).Endless?
    ensures ts <= DecodeBlock(litlens, distlens, v).toks
  {
    hide Reads;
    hide DecodeBlock;
    ReadsRest(litlens, distlens, v, ts, k);
  }

  /** The tokens of a block come to where only zeros are left. */
  ghost predicate RunsOut(litlens: seq<nat>, distlens: seq<nat>, v: nat) {
    exists ts, k :: Reads(litlens, distlens, v, ts, k) && Drop(v, k) == 0
  }

  lemma RunsOutAfter(litlens: seq<nat>, distlens: seq<nat>, v: nat)
    requires var r := DecodeStep(litlens, distlens, v); r.Tok? && RunsOut(litlens, distlens, Drop(v, r.bits))
    ensures RunsOut(litlens, distlens, v)
  {
    hide DecodeStep;
    hide Drop;
    var t, n := DecodeStep(litlens, distlens, v).t, DecodeStep(litlens, distlens, v).bits;
    var ts, k :| Reads(litlens, distlens, Drop(v, n), ts, k) && Drop(Drop(v, n), k) == 0;
    DropDrop(v, n, k);
    var us := [t] + ts;
    assert us[1..] == ts;
    assert Reads(litlens, distlens, v, us, n + k);
  }

  /** A block has no end exactly when its tokens come to where only zeros are left, and zeros begin with
      a token. */
  lemma {:induction false} EndlessIff(litlens: seq<nat>, distlens: seq<nat>, v: nat)
    ensures DecodeBlock(litlens, distlens, v).Endless? <==> DecodeStep(litlens, distlens, 0).Tok? && RunsOut(litlens, distlens, v)
    decreases v
  {
    hide DecodeStep;
    hide Drop;
    if v == 0 {
      DropNothing(v);
      assert Reads(litlens, distlens, v, [], 0);
    } else if DecodeBlock(litlens, distlens, v).Endless? {
      StepTakes(litlens, distlens, v);
      EndlessIff(litlens, distlens, Drop(v, DecodeStep(litlens, distlens, v).bits));
      RunsOutAfter(litlens, distlens, v);
    } else if DecodeStep(litlens, distlens, 0).Tok? {
      forall ts, k | Reads(litlens, distlens, v, ts, k) ensures Drop(v, k) != 0 {
        ReadsRest(litlens, distlens, v, ts, k);
      }
    }
  }

  lemma AfterNothing(r: BlockResult)
    ensures After([], 0, r) == r
  {
    assert !r.Endless? ==> [] + r.toks == r.toks;
  }

  lemma AfterCons(ts: seq<Token>, n: nat, k: nat, r: BlockResult)
    requires ts != [] && n <= k
    ensures After([ts[0]], n, After(ts[1..], k - n, r)) == After(ts, k, r)
  {
    assert !r.Endless? ==> [ts[0]] + (ts[1..] + r.toks) == ts + r.toks;
  }

  // ---------- the meaning of tokens ----------

  /** Copy `len` bytes from `dist` back, one after the other: the source may overlap the copy. */
  function CopyBytes(out: seq<byte>, len: nat, dist: nat): (r: seq<byte>)
    requires 1 <= dist <= |out|
    ensures |r| == |out| + len && out <= r
    decreases len
  {
    if len == 0 then out
    else CopyBytes(out + [out[|out| - dist]], len - 1, dist)
  }

  predicate Applicable(out: seq<byte>, t: Token) {
    t.Copy? ==> 1 <= t.dist <= |out|
  }

  function Apply(out: seq<byte>, t: Token): (r: seq<byte>)
    requires Applicable(out, t)
    ensures out <= r
  {
    match t
    case Literal(b) => out + [b]
    case Copy(len, dist) => CopyBytes(out, len, dist)
  }

  /** All tokens can be applied, one after the other. */
  predicate Valid(out: seq<byte>, ts: seq<Token>)
    decreases |ts|
  {
    ts == [] || (Applicable(out, ts[0]) && Valid(Apply(out, ts[0]), ts[1..]))
  }

  function Expand(out: seq<byte>, ts: seq<Token>): (r: seq<byte>)
    requires Valid(out, ts)
    ensures out <= r
    decreases |ts|
  {
    if ts == [] then out else Expand(Apply(out, ts[0]), ts[1..])
  }

  lemma {:induction false} ValidAppend(out: seq<byte>, ts: seq<Token>, us: seq<Token>)
    ensures Valid(out, ts + us) <==> Valid(out, ts) && Valid(Expand(out, ts), us)
    ensures Valid(out, ts + us) ==> Expand(out, ts + us) == Expand(Expand(out, ts), us)
    decreases |ts|
  {
    hide Apply;
    if ts == [] {
      assert ts + us == us;
    } else {
      assert (ts + us)[1..] == ts[1..] + us;
      if Applicable(out, ts[0]) {
        ValidAppend(Apply(out, ts[0]), ts[1..], us);
      }
    }
  }

  /** Copied bytes repeat with the period of the distance. */
  lemma {:induction false} CopyPeriod(out: seq<byte>, len: nat, dist: nat, k: nat)
    requires 1 <= dist <= |out| && k < len
    ensures CopyBytes(out, len, dist)[|out| + k] == out[|out| - dist + k % dist]
    decreases k
  {
    hide CopyBytes;
    CopyBack(out, len, dist, k);
    if k >= dist {
      ModBack(k, dist);
      CopyPeriod(out, len, dist, k - dist);
    } else {
      SmallMod(k, dist);
      assert CopyBytes(out, len, dist)[..|out|] == out;
    }
  }

  lemma SmallMod(k: nat, d: nat)
    requires k < d
    ensures k % d == k
  {
  }

  lemma ModBack(k: nat, d: nat)
    requires 1 <= d <= k
    ensures (k - d) % d == k % d
  {
    assert k == k % d + d * (k / d);
    QuotientUnique(k - d, d, k / d - 1, k % d);
  }

  /** A copied byte is the one `dist` before it. */
  lemma {:induction false} CopyBack(out: seq<byte>, len: nat, dist: nat, k: nat)
    requires 1 <= dist <= |out| && k < len
    ensures CopyBytes(out, len, dist)[|out| + k] == CopyBytes(out, len, dist)[|out| + k - dist]
    decreases len
  {
    var out' := out + [out[|out| - dist]];
    if k > 0 {
      CopyBack(out', len - 1, dist, k - 1);
    } else {
      assert CopyBytes(out, len, dist)[..|out'|] == out';
    }
  }

  /** A copy grows by one byte at a time. */
  lemma {:induction false} CopySnoc(out: seq<byte>, len: nat, dist: nat)
    requires 1 <= dist <= |out|
    ensures CopyBytes(out, len + 1, dist) == CopyBytes(out, len, dist) + [CopyBytes(out, len, dist)[|out| + len - dist]]
    decreases len
  {
    if len > 0 {
      CopySnoc(out + [out[|out| - dist]], len - 1, dist);
    }
  }

  /** At distance one, every byte copied is the last byte of the output. */
  lemma {:induction false} CopyRun(out: seq<byte>, len: nat, k: nat)
    requires 1 <= |out| && k <= len
    ensures CopyBytes(out, len, 1)[|out| - 1 + k] == out[|out| - 1]
    decreases len
  {
    if len > 0 {
      var out' := out + [out[|out| - 1]];
      assert CopyBytes(out, len, 1)[..|out'|] == out';
      if k > 0 {
        CopyRun(out', len - 1, k - 1);
      }
    }
  }

  lemma {:induction false} ExpandLength(out: seq<byte>, ts: seq<Token>, n: nat)
    requires Valid(out, ts) && n <= |ts|
    ensures Valid(out, ts[..n]) && |Expand(out, ts[..n])| <= |Expand(out, ts)|
  {
    assert ts == ts[..n] + ts[n..];
    ValidAppend(out, ts[..n], ts[n..]);
  }

  /** One more token. */
  lemma ExpandSnoc(out: seq<byte>, ts: seq<Token>, t: Token)
    requires Valid(out, ts)
    ensures Valid(out, ts + [t]) <==> Applicable(Expand(out, ts), t)
    ensures Applicable(Expand(out, ts), t) ==> Expand(out, ts + [t]) == Apply(Expand(out, ts), t)
  {
    hide Apply;
    ValidAppend(out, ts, [t]);
    assert [t][1..] == [];
  }

  // ---------- encoding ----------

  /** A token as it is written: which length and distance codes, with which extra bits. */
  datatype Symbols = Lit(b: byte) | Match(li: nat, lx: nat, di: nat, dx: nat) {
    /** The codes exist and the extra bits fit. */
    ghost predicate Encodable(litlens: seq<nat>, distlens: seq<nat>) {
      match this
      case Lit(b) => Used(litlens, b)
      case Match(li, lx, di, dx) =>
        && li < LENGTH_CODES && lx < Pow2(LengthExtra(li)) && Used(litlens, 257 + li)
        && di < DIST_CODES && dx < Pow2(DistExtra(di)) && Used(distlens, di)
    }

    function Meaning(): Token {
      match this
      case Lit(b) => Literal(b)
      case Match(li, lx, di, dx) => Copy(LengthBase(li) + lx, DistBase(di) + dx)
    }
  }

  predicate Used(lens: seq<nat>, s: nat) {
    s < |lens| && 1 <= lens[s] <= MAX_BITS
  }

  /** `n` bits with value `x`, first bit lowest, and then `tail`. */
  function Put(x: nat, n: nat, tail: nat): nat {
    x + Shl(tail, n)
  }

  /** The code of symbol `s`, most significant bit first, and then `tail`. */
  function PutCode(lens: seq<nat>, s: nat, tail: nat): nat
    requires s < |lens|
  {
    Put(Code(CodeOf(lens, s), lens[s]), lens[s], tail)
  }

  ghost function PutToken(litlens: seq<nat>, distlens: seq<nat>, t: Symbols, tail: nat): nat
    requires t.Encodable(litlens, distlens)
  {
    match t
    case Lit(b) => PutCode(litlens, b, tail)
    case Match(li, lx, di, dx) =>
      PutCode(litlens, 257 + li, Put(lx, LengthExtra(li), PutCode(distlens, di, Put(dx, DistExtra(di), tail))))
  }

  ghost predicate AllEncodable(litlens: seq<nat>, distlens: seq<nat>, ts: seq<Symbols>) {
    forall i :: 0 <= i < |ts| ==> ts[i].Encodable(litlens, distlens)
  }

  /** The block of tokens `ts`, its end-of-block code, and then `tail`. */
  ghost function PutBlock(litlens: seq<nat>, distlens: seq<nat>, ts: seq<Symbols>, tail: nat): nat
    requires AllEncodable(litlens, distlens, ts) && Used(litlens, END_OF_BLOCK)
  {
    if ts == [] then PutCode(litlens, END_OF_BLOCK, tail)
    else PutToken(litlens, distlens, ts[0], PutBlock(litlens, distlens, ts[1..], tail))
  }

  // the sizes of tokens and blocks, in bits

  function TokenBits(litlens: seq<nat>, distlens: seq<nat>, t: Symbols): nat {
    match t
    case Lit(b) => if b < |litlens| then litlens[b] else 0
    case Match(li, lx, di, dx) =>
      (if 257 + li < |litlens| then litlens[257 + li] else 0) + LengthExtra(li)
      + (if di < |distlens| then distlens[di] else 0) + DistExtra(di)
  }

  function BlockBits(litlens: seq<nat>, distlens: seq<nat>, ts: seq<Symbols>): nat {
    if ts == [] then (if END_OF_BLOCK < |litlens| then litlens[END_OF_BLOCK] else 0)
    else TokenBits(litlens, distlens, ts[0]) + BlockBits(litlens, distlens, ts[1..])
  }

  function Meanings(ts: seq<Symbols>): (r: seq<Token>)
    ensures |r| == |ts|
  {
    if ts == [] then [] else [ts[0].Meaning()] + Meanings(ts[1..])
  }

  // ---------- decoding inverts encoding ----------

  lemma GetPut(x: nat, n: nat, tail: nat)
    requires x < Pow2(n)
    ensures Low(Put(x, n, tail), n) == x && Drop(Put(x, n, tail), n) == tail
  {
    hide Low;
    hide Drop;
    hide Shl;
    Join(x, tail, n);
  }

  lemma GetCode(lens: seq<nat>, s: nat, tail: nat)
    requires ValidLengths(lens) && NotOversubscribed(lens) && Used(lens, s)
    ensures Decode(lens, PutCode(lens, s, tail)) == Symbol(s, lens[s])
    ensures Drop(PutCode(lens, s, tail), lens[s]) == tail
  {
    var c, k := CodeOf(lens, s), lens[s];
    CodeFits(lens, s);
    GetPut(Code(c, k), k, tail);
    CodeLow(PutCode(lens, s, tail), k);
    CodeInvolution(c, k);
    LowSmall(c, k);
    DecodeHit(lens, PutCode(lens, s, tail), s);
  }

  lemma GetToken(litlens: seq<nat>, distlens: seq<nat>, t: Symbols, tail: nat)
    requires ValidLengths(litlens) && NotOversubscribed(litlens)
    requires ValidLengths(distlens) && NotOversubscribed(distlens)
    requires t.Encodable(litlens, distlens)
    ensures var v := PutToken(litlens, distlens, t, tail); var r := DecodeStep(litlens, distlens, v);
      r.Tok? && r.t == t.Meaning() && Drop(v, r.bits) == tail && r.bits == TokenBits(litlens, distlens, t)
  {
    hide NotOversubscribed;
    hide ValidLengths;
    hide Decode;
    hide PutCode;
    hide Low;
    hide Drop;
    hide LengthBase;
    hide DistBase;
    hide LengthExtra;
    hide DistExtra;
    hide Code;
    hide Pow2;
    match t
    case Lit(b) => GetCode(litlens, b, tail);
    case Match(li, lx, di, dx) =>
      var v2 := PutDist(distlens, di, dx, tail);
      GetCode(litlens, 257 + li, Put(lx, LengthExtra(li), v2));
      GetPut(lx, LengthExtra(li), v2);
      var v := PutToken(litlens, distlens, t, tail);
      DropDrop(v, litlens[257 + li], LengthExtra(li));
      GetDist(distlens, di, dx, tail, v, LengthBase(li) + lx, litlens[257 + li] + LengthExtra(li));
  }

  ghost function PutDist(distlens: seq<nat>, di: nat, dx: nat, tail: nat): nat
    requires Used(distlens, di)
  {
    PutCode(distlens, di, Put(dx, DistExtra(di), tail))
  }

  lemma GetDist(distlens: seq<nat>, di: nat, dx: nat, tail: nat, v: nat, len: nat, bits: nat)
    requires ValidLengths(distlens) && NotOversubscribed(distlens)
    requires di < DIST_CODES && dx < Pow2(DistExtra(di)) && Used(distlens, di)
    requires Drop(v, bits) == PutDist(distlens, di, dx, tail)
    ensures var r := DecodeDist(distlens, v, len, bits);
      r.Tok? && r.t == Copy(len, DistBase(di) + dx) && Drop(v, r.bits) == tail && r.bits == bits + distlens[di] + DistExtra(di)
  {
    hide NotOversubscribed;
    hide ValidLengths;
    hide Decode;
    hide PutCode;
    hide Low;
    hide Drop;
    GetCode(distlens, di, Put(dx, DistExtra(di), tail));
    GetPut(dx, DistExtra(di), tail);
    DropDrop(v, bits, distlens[di]);
    DropDrop(v, bits + distlens[di], DistExtra(di));
  }

  /** Decoding an encoded block gives the tokens back, and leaves what follows the block. */
  lemma {:induction false} RoundTrip(litlens: seq<nat>, distlens: seq<nat>, ts: seq<Symbols>, tail: nat)
    requires ValidLengths(litlens) && NotOversubscribed(litlens)
    requires ValidLengths(distlens) && NotOversubscribed(distlens)
    requires AllEncodable(litlens, distlens, ts) && Used(litlens, END_OF_BLOCK)
    ensures var v := PutBlock(litlens, distlens, ts, tail); var r := DecodeBlock(litlens, distlens, v);
      r.Done? && r.toks == Meanings(ts) && Drop(v, r.bits) == tail && r.bits == BlockBits(litlens, distlens, ts)
    decreases |ts|
  {
    hide NotOversubscribed;
    hide ValidLengths;
    hide Decode;
    hide DecodeBlock;
    hide PutCode;
    hide PutToken;
    hide TokenBits;
    hide Drop;
    var v := PutBlock(litlens, distlens, ts, tail);
    FirstToken(litlens, distlens, v);
    if ts == [] {
      GetCode(litlens, END_OF_BLOCK, tail);
    } else {
      var rest := PutBlock(litlens, distlens, ts[1..], tail);
      GetToken(litlens, distlens, ts[0], rest);
      RoundTrip(litlens, distlens, ts[1..], tail);
      DropDrop(v, DecodeStep(litlens, distlens, v).bits, DecodeBlock(litlens, distlens, rest).bits);
    }
  }

  // ---------- encoding inverts decoding ----------

  /** A decoded symbol is the only thing that could have been written there. */
  lemma PutDecoded(lens: seq<nat>, v: nat)
    requires ValidLengths(lens) && NotOversubscribed(lens) && Decode(lens, v).Symbol?
    ensures var Symbol(s, k) := Decode(lens, v);
      Used(lens, s) && k == lens[s] && v == PutCode(lens, s, Drop(v, k))
  {
    var Symbol(s, k) := Decode(lens, v);
    DecodeIff(lens, v, s, k);
    CodeInvolution(v, k);
    Split(v, k);
  }

  /** Every decoded token is the meaning of an encodable form with which the stream begins. */
  lemma PutStep(litlens: seq<nat>, distlens: seq<nat>, v: nat) returns (t: Symbols)
    requires ValidLengths(litlens) && NotOversubscribed(litlens)
    requires ValidLengths(distlens) && NotOversubscribed(distlens)
    requires DecodeStep(litlens, distlens, v).Tok?
    ensures t.Encodable(litlens, distlens) && t.Meaning() == DecodeStep(litlens, distlens, v).t
    ensures v == PutToken(litlens, distlens, t, Drop(v, DecodeStep(litlens, distlens, v).bits))
  {
    hide NotOversubscribed;
    hide ValidLengths;
    hide Decode;
    hide PutCode;
    hide Low;
    hide Drop;
    hide LengthBase;
    hide DistBase;
    PutDecoded(litlens, v);
    var s, k := Decode(litlens, v).sym, Decode(litlens, v).len;
    if s < 256 {
      t := Lit(s);
    } else {
      var li, lx := s - 257, Low(Drop(v, k), LengthExtra(s - 257));
      var bits := k + LengthExtra(li);
      PutDecoded(distlens, Drop(v, bits));
      var di, k' := Decode(distlens, Drop(v, bits)).sym, Decode(distlens, Drop(v, bits)).len;
      var dx := Low(Drop(v, bits + k'), DistExtra(di));
      t := Match(li, lx, di, dx);
      DropDrop(v, k, LengthExtra(li));
      DropDrop(v, bits, k');
      DropDrop(v, bits + k', DistExtra(di));
      Split(Drop(v, k), LengthExtra(li));
      Split(Drop(v, bits + k'), DistExtra(di));
    }
  }

  /** A block that decodes is the encoding of tokens that mean what was decoded. */
  lemma {:induction false} PutDecodedBlock(litlens: seq<nat>, distlens: seq<nat>, v: nat) returns (ts: seq<Symbols>)
    requires ValidLengths(litlens) && NotOversubscribed(litlens)
    requires ValidLengths(distlens) && NotOversubscribed(distlens)
    requires DecodeBlock(litlens, distlens, v).Done?
    ensures AllEncodable(litlens, distlens, ts) && Used(litlens, END_OF_BLOCK)
    ensures Meanings(ts) == DecodeBlock(litlens, distlens, v).toks
    ensures v == PutBlock(litlens, distlens, ts, Drop(v, DecodeBlock(litlens, distlens, v).bits))
    decreases v
  {
    hide NotOversubscribed;
    hide ValidLengths;
    hide Decode;
    hide PutCode;
    hide PutToken;
    hide Drop;
    hide After;
    if DecodeStep(litlens, distlens, v).EndOfBlock? {
      ts := [];
      EndDecoded(litlens, distlens, v);
    } else {
      var t := PutStep(litlens, distlens, v);
      var k := DecodeStep(litlens, distlens, v).bits;
      StepTakes(litlens, distlens, v);
      var r := DecodeBlock(litlens, distlens, Drop(v, k));
      AfterOne(DecodeStep(litlens, distlens, v).t, k, r);
      var rest := PutDecodedBlock(litlens, distlens, Drop(v, k));
      DropDrop(v, k, r.bits);
      ts := [t] + rest;
      assert ts[1..] == rest;
    }
  }

  lemma AfterOne(t: Token, k: nat, r: BlockResult)
    ensures After([t], k, r).Done? <==> r.Done?
    ensures r.Done? ==> After([t], k, r) == Done([t] + r.toks, k + r.bits)
  {
  }

  lemma EndDecoded(litlens: seq<nat>, distlens: seq<nat>, v: nat)
    requires ValidLengths(litlens) && NotOversubscribed(litlens)
    requires DecodeStep(litlens, distlens, v).EndOfBlock?
    ensures Used(litlens, END_OF_BLOCK)
    ensures v == PutCode(litlens, END_OF_BLOCK, Drop(v, DecodeStep(litlens, distlens, v).bits))
  {
    PutDecoded(litlens, v);
  }

  // ---------- every length and every distance can be written ----------

  const LENGTH_BASE: seq<nat> := [
    3, 4, 5, 6, 7, 8, 9, 10, 11, 13, 15, 17, 19, 23, 27, 31,
    35, 43, 51, 59, 67, 83, 99, 115, 131, 163, 195, 227, 258]

  const DIST_BASE: seq<nat> := [
    1, 2, 3, 4, 5, 7, 9, 13, 17, 25, 33, 49, 65, 97, 129, 193, 257, 385, 513, 769,
    1025, 1537, 2049, 3073, 4097, 6145, 8193, 12289, 16385, 24577]

  /** The base lengths of the table in section 3.2.5. */
  lemma {:induction false} LengthBaseTable(i: nat)
    requires i < LENGTH_CODES
    ensures LengthBase(i) == LENGTH_BASE[i]
  {
    if 0 < i < 28 {
      LengthBaseTable(i - 1);
      LengthStep(i - 1);
    }
  }

  lemma LengthStep(i: nat)
    requires i < 27
    ensures LENGTH_BASE[i + 1] == LENGTH_BASE[i] + Pow2(LengthExtra(i))
  {
    SmallPowers();
    hide Pow2;
    assert LengthExtra(i) == if i < 8 then 0 else (i - 4) / 4;
    if i < 8 {
    } else if i < 12 {
    } else if i < 16 {
    } else if i < 20 {
    } else if i < 24 {
    }
  }

  /** The base distances of the table in section 3.2.5. */
  lemma {:induction false} DistBaseTable(i: nat)
    requires i < DIST_CODES
    ensures DistBase(i) == DIST_BASE[i]
  {
    if i > 0 {
      DistBaseTable(i - 1);
      DistStep(i - 1);
    }
  }

  lemma DistStep(i: nat)
    requires i < 29
    ensures DIST_BASE[i + 1] == DIST_BASE[i] + Pow2(DistExtra(i))
  {
    SmallPowers();
    hide Pow2;
    if i < 4 {
    } else if i < 10 {
      DistStepLow(i);
    } else if i < 20 {
      assert DistExtra(i) == (i - 2) / 2;
      if i < 14 {} else if i < 16 {} else if i < 18 {}
    } else {
      assert DistExtra(i) == (i - 2) / 2;
      if i < 24 {} else if i < 26 {} else if i < 28 {}
    }
  }

  lemma DistStepLow(i: nat)
    requires 4 <= i < 10
    ensures DIST_BASE[i + 1] == DIST_BASE[i] + Pow2(DistExtra(i))
  {
    SmallPowers();
    hide Pow2;
    assert DistExtra(i) == (i - 2) / 2;
    if i < 6 {} else if i < 8 {}
  }

  lemma SmallPowers()
    ensures Pow2(0) == 1 && Pow2(1) == 2 && Pow2(2) == 4 && Pow2(3) == 8 && Pow2(4) == 16 && Pow2(5) == 32
    ensures Pow2(6) == 64 && Pow2(7) == 128 && Pow2(8) == 256 && Pow2(9) == 512 && Pow2(10) == 1024
    ensures Pow2(11) == 2048 && Pow2(12) == 4096 && Pow2(13) == 8192 && Pow2(14) == 16384 && Pow2(15) == 32768
    ensures Pow2(16) == 65536
  {
    assert Pow2(4) == 16;
    assert Pow2(8) == 256;
    assert Pow2(12) == 4096;
  }

  lemma LengthSymbol(len: nat) returns (li: nat, lx: nat)
    requires 3 <= len <= 258
    ensures li < LENGTH_CODES && lx < Pow2(LengthExtra(li)) && LengthBase(li) + lx == len
  {
    li := 0;
    LengthBaseTable(27);
    SmallPowers();
    while li < 27 && LengthBase(li) + Pow2(LengthExtra(li)) <= len
      invariant li <= 27 && LengthBase(li) <= len
    {
      li := li + 1;
    }
    assert li == 27 ==> LengthExtra(li) == 5;
    lx := len - LengthBase(li);
  }

  lemma DistSymbol(dist: nat) returns (di: nat, dx: nat)
    requires 1 <= dist <= 32768
    ensures di < DIST_CODES && dx < Pow2(DistExtra(di)) && DistBase(di) + dx == dist
  {
    hide Pow2;
    di := 0;
    while di < 29 && DistBase(di) + Pow2(DistExtra(di)) <= dist
      invariant di <= 29 && DistBase(di) <= dist
    {
      di := di + 1;
    }
    DistBaseTable(29);
    SmallPowers();
    dx := dist - DistBase(di);
  }
}
