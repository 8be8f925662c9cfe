/** The fast loop of the resumable decoder does what its single steps do: inflate_fast and inflate_codes in
    DuiLib/Utils/XUnzip.cpp. */
module FastSlow {
  import opened Bits
  import opened Canonical
  import opened Deflate
  import opened CodesSpec
  import opened InflateCodes

  /** With eighty bits at the start of a token the single steps do not wait for input. */
  lemma NoWaiting(x: Inflate, total: nat)
    requires x.Valid() && total == 8 * (x.nextIn + x.availIn) && total >= x.blk.ts + 80
    ensures !x.WaitsIn()
  {
    hide ModeAt;
    hide BlockOK;
    hide WindowHolds;
    hide Low;
    hide Drop;
    hide BytesVal;
    if x.mode in {LEN, LENEXT, DIST, DISTEXT} {
      WaitAt(x.mode, x.sub, x.len, x.trees, x.blk, x.Stream(), x.At(), x.hist);
    }
  }

  /** What has been read of a token when it has been read, or when there is none. */
  lemma TokenRead(x: Inflate)
    requires x.Valid() && x.mode in {COPY, LIT, WASH, BADCODE}
    ensures match x.mode
            case COPY => TokenAt(x.blk, x.Stream()).Tok? && x.len <= 258
            case LIT => TokenAt(x.blk, x.Stream()).Tok?
            case WASH => TokenAt(x.blk, x.Stream()).EndOfBlock?
            case BADCODE => TokenAt(x.blk, x.Stream()) in {BadCode, Reserved}
            case _ => true
  {
    hide DecodeStep;
    hide BlockOK;
    hide WindowHolds;
    hide Expand;
    if x.mode == COPY {
      CopyRange(x.blk.litlens, x.blk.distlens, Drop(x.Stream(), x.blk.ts));
    }
  }

  /** The mode that one token ends in. */
  function ModeAfter(step: Step): Mode {
    match step
    case Tok(_, _) => START
    case EndOfBlock(_) => WASH
    case BadCode => BADCODE
    case Reserved => BADCODE
  }

  /** The steps up to the output of a token. */
  method ReadToken(x: Inflate) returns (r: Ret)
    requires x.Valid() && x.mode == START && x.m >= 258 && 8 * (x.nextIn + x.availIn) >= x.blk.ts + 80
    modifies x, x.window
    ensures x.Valid() && x.trees == old(x.trees) && x.nextIn + x.availIn == old(x.nextIn + x.availIn)
    ensures x.mode in {COPY, LIT, WASH, BADCODE} && x.blk == old(x.blk).(mark := x.blk.mark) && x.m >= 258
    ensures x.Untouched(old(x.write + x.m), old(x.base), old(x.read), old(x.availOut), old(x.delivered))
  {
    hide ModeAt;
    hide BlockOK;
    hide WindowHolds;
    hide DecodeStep;
    hide Low;
    hide Drop;
    hide BytesVal;
    ghost var total, B := 8 * (x.nextIn + x.availIn), x.blk;
    r := Z_OK;
    var go := true;
    x.EnterLen();
    while go && x.mode in {LEN, LENEXT, DIST, DISTEXT}
      invariant x.Valid() && total == 8 * (x.nextIn + x.availIn) && x.blk == B.(mark := x.blk.mark) && x.trees == old(x.trees)
      invariant x.mode !in {START, END} && (!go ==> x.mode == BADCODE) && x.m >= 258
      invariant x.Untouched(old(x.write + x.m), old(x.base), old(x.read), old(x.availOut), old(x.delivered))
      decreases total - x.At(), x.Rank(x.mode)
    {
      x.ReadWithin();
      go, r := x.StepIn(r);
      x.ReadWithin();
      NoWaiting(x, total);
    }
  }

  /** One token by single steps only: the cases of inflate_codes from LEN to START. */
  method SlowToken(x: Inflate)
    requires x.Valid() && x.mode == START && x.m >= 258 && 8 * (x.nextIn + x.availIn) >= x.blk.ts + 80
    modifies x, x.window
    ensures x.Valid() && x.trees == old(x.trees) && x.nextIn + x.availIn == old(x.nextIn + x.availIn)
    ensures x.mode == ModeAfter(old(TokenAt(x.blk, x.Stream())))
    ensures if x.mode == START then OneToken(old(x.blk), x.blk, x.Stream()) else x.blk == old(x.blk).(mark := x.blk.mark)
    ensures x.Untouched(old(x.write + x.m), old(x.base), old(x.read), old(x.availOut), old(x.delivered))
  {
    hide ModeAt;
    hide BlockOK;
    hide WindowHolds;
    hide DecodeStep;
    hide Low;
    hide Drop;
    hide BytesVal;
    ghost var B := x.blk;
    var r := ReadToken(x);
    TokenRead(x);
    SameToken(B, x.blk, x.Stream());
    if x.mode in {COPY, LIT} {
      var go;
      go, r := x.StepOut(r);
    }
  }

  lemma SameToken(B: Block, B': Block, s: nat)
    requires B' == B.(mark := B'.mark)
    ensures TokenAt(B', s) == TokenAt(B, s)
  {
  }

  // ---------- both, side by side ----------

  /** Two decoders that have come equally far. */
  ghost predicate Alike(x: Inflate, y: Inflate)
    reads x, y
  {
    && x.whole == y.whole && x.trees == y.trees && x.blk == y.blk && x.hist == y.hist && x.base == y.base && x.At() == y.At()
    && x.nextIn + x.availIn == y.nextIn + y.availIn
    && x.read == y.read && x.write == y.write && x.m == y.m && x.delivered == y.delivered && x.availOut == y.availOut
  }

  /** Where a longer list of tokens goes on after a shorter one. */
  lemma {:induction false} GoesOn(litlens: seq<nat>, distlens: seq<nat>, v: nat, ts: seq<Token>, k: nat, us: seq<Token>, n: nat)
    requires Reads(litlens, distlens, v, ts, k) && Reads(litlens, distlens, v, us, n) && ts < us
    ensures var r := DecodeStep(litlens, distlens, Drop(v, k)); r.Tok? && r.t == us[|ts|]
    decreases |ts|
  {
    hide DecodeStep;
    hide Drop;
    DropNothing(v);
    if ts != [] {
      var b := DecodeStep(litlens, distlens, v).bits;
      DropDrop(v, b, k - b);
      GoesOn(litlens, distlens, Drop(v, b), ts[1..], k - b, us[1..], n - b);
    }
  }

  /** The same block. */
  ghost predicate SameStart(B: Block, C: Block) {
    B.litlens == C.litlens && B.distlens == C.distlens && B.start == C.start && B.hist0 == C.hist0
  }

  /** A block with fewer tokens done has come less far, and its next token is known. */
  lemma Shorter(tb: Tables, B: Block, C: Block, s: nat)
    requires BlockOK(tb, B, s) && BlockOK(tb, C, s) && SameStart(B, C) && B.done <= C.done
    ensures B.ts <= C.ts && |Expand(B.hist0, B.done)| <= |Expand(C.hist0, C.done)|
    ensures B.done == C.done ==> B.ts == C.ts && TokenAt(B, s) == TokenAt(C, s)
    ensures B.done != C.done ==> TokenAt(B, s).Tok? && B.done + [TokenAt(B, s).t] <= C.done
  {
    hide TablesOK;
    hide DistancesOK;
    hide Reads;
    hide DecodeStep;
    hide Expand;
    hide Valid;
    hide Drop;
    var v := Drop(s, B.start);
    ReadsPrefix(B.litlens, B.distlens, v, B.done, B.ts - B.start, C.done, C.ts - B.start);
    ExpandLength(C.hist0, C.done, |B.done|);
    assert C.done[..|B.done|] == B.done;
    if B.done == C.done {
      ReadsPrefix(B.litlens, B.distlens, v, C.done, C.ts - B.start, B.done, B.ts - B.start);
    } else {
      GoesOn(B.litlens, B.distlens, v, B.done, B.ts - B.start, C.done, C.ts - B.start);
      DropDrop(s, B.start, B.ts - B.start);
    }
  }

  /** What single steps have done on the way to where the fast loop stops. */
  ghost predicate OnTheWay(y: Inflate, C: Block, last: Block, r: Ret, s: nat)
    reads y`mode, y`blk
  {
    && SameStart(y.blk, C) && SameStart(last, C)
    && (y.mode == START ==> y.blk.done <= last.done || (r == Z_OK && y.blk.done == C.done))
    && (y.mode != START ==> r != Z_OK && y.mode == ModeAfter(TokenAt(last, s)) && y.blk.done == last.done && y.blk.ts == last.ts)
  }

  /** What the fast loop says of its last round. */
  ghost predicate LastRound(tb: Tables, C: Block, last: Block, r: Ret, s: nat, total: nat, room: nat) {
    && BlockOK(tb, C, s) && BlockOK(tb, last, s) && SameStart(last, C)
    && total >= last.ts + 80 && |Expand(last.hist0, last.done)| + 258 <= room
    && (if r == Z_OK then OneToken(last, C, s) else C == last.(mark := C.mark) && !TokenAt(last, s).Tok?)
  }

  /** One more token on the way. */
  method SlowRound(y: Inflate, ghost C: Block, ghost last: Block, ghost r: Ret, ghost room: nat)
    requires y.Valid() && y.mode == START && OnTheWay(y, C, last, r, y.Stream()) && y.blk.done <= last.done
    requires LastRound(y.trees, C, last, r, y.Stream(), 8 * (y.nextIn + y.availIn), room) && room == y.base + y.write + y.m
    modifies y, y.window
    ensures y.Valid() && OnTheWay(y, C, last, r, y.Stream()) && y.trees == old(y.trees)
    ensures y.nextIn + y.availIn == old(y.nextIn + y.availIn)
    ensures y.Untouched(old(y.write + y.m), old(y.base), old(y.read), old(y.availOut), old(y.delivered))
    ensures y.mode == START ==> |y.blk.done| == |old(y.blk.done)| + 1
  {
    hide ModeAt;
    hide BlockOK;
    hide WindowHolds;
    hide DecodeStep;
    hide Expand;
    hide Low;
    hide Drop;
    hide BytesVal;
    hide TokenAt;
    ghost var B := y.blk;
    Shorter(y.trees, B, last, y.Stream());
    y.HistAt(START);
    y.HistEnd();
    SlowToken(y);
  }

  /** The fast loop and single steps have come to the same place. */
  lemma Together(x: Inflate, y: Inflate, last: Block, r: Ret, total: nat, room: nat)
    requires x.BitsOK() && x.WindowOK() && y.Valid() && x.whole == y.whole && x.trees == y.trees
    requires x.InMode(if r == Z_OK then START else if r == Z_STREAM_END then WASH else BADCODE) && r in {Z_OK, Z_STREAM_END, Z_DATA_ERROR}
    requires LastRound(x.trees, x.blk, last, r, x.Stream(), total, room) && OnTheWay(y, x.blk, last, r, x.Stream())
    requires if r == Z_OK then y.mode == START && x.At() == y.At() else y.mode != START
    requires x.base == y.base && x.write + x.m == y.write + y.m
    ensures y.mode == (if r == Z_OK then START else if r == Z_STREAM_END then WASH else BADCODE)
    ensures x.hist == y.hist && x.blk.done == y.blk.done && x.write == y.write && x.m == y.m
    ensures r != Z_DATA_ERROR ==> x.At() == y.At()
    ensures forall j :: 0 <= j < WSIZE && (j < x.write || x.base >= WSIZE) ==> x.window[j] == y.window[j]
  {
    hide ModeAt;
    hide BlockOK;
    hide WindowHolds;
    hide DecodeStep;
    hide Expand;
    hide Low;
    hide Drop;
    hide BytesVal;
    var s := x.Stream();
    if r == Z_OK {
      x.AtToken();
      y.AtToken();
      SameBlock(x.trees, x.blk, y.blk, last, s);
      x.HistAt(START);
      y.HistAt(START);
    } else {
      var md := if r == Z_STREAM_END then WASH else BADCODE;
      x.NoToken(md);
      x.HistAt(md);
      y.HistAt(y.mode);
      y.NoToken(y.mode);
    }
    x.HistEnd();
    y.HistEnd();
    SameWindow(x.hist, x.window[..], x.base, x.write, y.window[..], y.base, y.write);
  }

  lemma SameBlock(tb: Tables, C: Block, D: Block, last: Block, s: nat)
    requires BlockOK(tb, C, s) && BlockOK(tb, D, s) && BlockOK(tb, last, s) && SameStart(C, D) && SameStart(last, D) && OneToken(last, C, s)
    requires D.ts == C.ts && (D.done <= last.done || D.done == C.done)
    ensures D.done == C.done
  {
    hide TablesOK;
    hide DistancesOK;
    hide Reads;
    hide DecodeStep;
    hide Valid;
    ReadsUnique(C.litlens, C.distlens, Drop(s, C.start), C.done, D.done, C.ts - C.start);
  }

  lemma BeforeEnd(tb: Tables, C: Block, D: Block, s: nat)
    requires BlockOK(tb, C, s) && BlockOK(tb, D, s) && SameStart(D, C) && D.done == C.done
    ensures D.ts == C.ts
  {
    hide BlockOK;
    Shorter(tb, D, C, s);
  }

  /** From the same state, the fast loop and single steps come to the same bit, with the same tokens, output,
      write position and room, the one at a stroke and the other token by token; or both to an error. */
  method FastIsSlow(x: Inflate, y: Inflate) returns (r: Ret)
    requires x != y && x.window != y.window && Alike(x, y) && x.Valid() && y.Valid() && x.mode == START && y.mode == START
    requires x.m >= 258 && x.availIn >= 10
    modifies x, x.window, y, y.window
    ensures y.Valid() && y.mode == (if r == Z_OK then START else if r == Z_STREAM_END then WASH else BADCODE)
    ensures x.hist == y.hist && x.blk.done == y.blk.done && x.write == y.write && x.m == y.m && x.read == y.read
    ensures r != Z_DATA_ERROR ==> x.At() == y.At()
    ensures forall j :: 0 <= j < WSIZE && (j < x.write || x.base >= WSIZE) ==> x.window[j] == y.window[j]
  {
    hide ModeAt;
    hide BlockOK;
    hide WindowHolds;
    hide DecodeStep;
    hide Expand;
    hide Low;
    hide Drop;
    hide BytesVal;
    hide TokenAt;
    ghost var last;
    x.HistEnd();
    ghost var total, room := 8 * (x.nextIn + x.availIn), x.base + x.write + x.m;
    r, last := x.InflateFast();
    if r != Z_OK {
      x.NoToken(if r == Z_STREAM_END then WASH else BADCODE);
      SameToken(last, x.blk, x.Stream());
    }
    while y.mode == START && (r != Z_OK || 8 * y.nextIn - y.bitk != 8 * x.nextIn - x.bitk)
      invariant y.Valid() && y.trees == x.trees && 8 * (y.nextIn + y.availIn) == total
      invariant OnTheWay(y, x.blk, last, r, x.Stream())
      invariant y.Untouched(old(x.write + x.m), old(x.base), old(x.read), old(x.availOut), old(x.delivered))
      modifies y, y.window
      decreases y.mode == START, |last.done| + 1 - |y.blk.done|
    {
      if y.blk.done == x.blk.done && r == Z_OK {
        BeforeEnd(x.trees, x.blk, y.blk, x.Stream());
        x.AtToken();
        y.AtToken();
      }
      SlowRound(y, x.blk, last, r, room);
    }
    Together(x, y, last, r, total, room);
  }
}
