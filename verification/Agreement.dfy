/** The two decoders of the repository agree on every compressed block: on its output and its length, and
    on whether it is one. */
module Agreement {
  import opened Bits
  import opened Deflate
  import opened Canonical
  import opened StbHuffman
  import S = StbInflate
  import X = InflateCodes
  import CodesSpec

  /** Both decoders begin the same block, with the same output before it. */
  ghost predicate SameBlock(z: S.ZBuf, x: X.Inflate, litlens: seq<nat>, distlens: seq<nat>)
    reads z, z.out, x, x.window
  {
    && z.BitsValid() && z.OutValid()
    && x.Valid() && x.mode == CodesSpec.START && x.blk.done == [] && x.blk.ts == x.blk.start
    && x.blk.litlens == litlens && x.blk.distlens == distlens
    && Drop(z.Stream(), z.At()) == Drop(x.Stream(), x.At()) && z.out[..z.zout] == x.hist
  }

  /** One block decoded by both, the one at a stroke and the other with input and room for output
      coming in pieces.  Both end with the same output after the same bits, and neither rejects what
      the other has decoded, unless the one has no room for it.  When all input and room enough have been
      supplied, the other comes to an end: to the end of the block when the one does. */
  method SideBySide(z: S.ZBuf, x: X.Inflate, feeds: seq<(nat, nat)>, ghost litlens: seq<nat>, ghost distlens: seq<nat>)
    returns (ok: bool, r: X.Ret)
    requires SameBlock(z, x, litlens, distlens) && z.out != x.window
    requires z.zlength.Represents(litlens) && z.zdistance.Represents(distlens)
    requires z.Specified(DecodeBlock(litlens, distlens, Drop(z.Stream(), z.At())), z.out[..z.zout], z.out.Length)
    modifies z`pos, z`fed, z`numBits, z`codeBuffer, z`zout, z`out, z.out, x, x.window
    ensures x.Valid() && z.zout <= z.out.Length
    ensures ok && r == X.Z_STREAM_END ==>
              && z.out[..z.zout] == x.delivered + x.Unread()
              && z.At() - old(z.At()) == x.At() - old(x.At())
    ensures ok ==> x.mode != CodesSpec.BADCODE
    ensures r == X.Z_STREAM_END && z.Fits(old(z.out.Length), |x.delivered + x.Unread()|) ==> ok
    ensures old(x.Supplied(feeds)) ==> (r == X.Z_STREAM_END || r == X.Z_DATA_ERROR) && (ok ==> r == X.Z_STREAM_END)
  {
    hide DecodeBlock;
    hide Expand;
    hide Valid;
    hide Drop;
    hide Low;
    hide BytesVal;
    hide CodesSpec.ModeAt;
    hide CodesSpec.BlockOK;
    hide X.WindowHolds;
    hide X.Ample;
    hide X.OutputOf;
    hide NotOversubscribed;
    hide ValidLengths;
    hide LimitsUpTo;
    hide ValuesUpTo;
    hide FastUpTo;
    hide S.Grown;
    AtStart(x);
    ghost var v: nat := Drop(z.Stream(), z.At());
    ok := z.ParseHuffmanBlock(litlens, distlens);
    r := RunOn(x, feeds, litlens, distlens, v);
  }

  /** The resumable decoder, and what the block decodes to. */
  method RunOn(x: X.Inflate, feeds: seq<(nat, nat)>, ghost litlens: seq<nat>, ghost distlens: seq<nat>, ghost v: nat)
    returns (r: X.Ret)
    requires x.Valid() && x.blk.litlens == litlens && x.blk.distlens == distlens && x.At() == x.blk.start >= 0
    requires v == Drop(x.Stream(), x.blk.start) && x.hist == x.blk.hist0
    modifies x, x.window
    ensures x.Valid()
    ensures var b := DecodeBlock(litlens, distlens, v);
      r == X.Z_STREAM_END ==>
        && b.Done? && Valid(old(x.hist), b.toks)
        && x.delivered + x.Unread() == Expand(old(x.hist), b.toks) && x.At() == old(x.At()) + b.bits
    ensures x.mode == CodesSpec.BADCODE ==> !DecodeBlock(litlens, distlens, v).Done?
    ensures old(x.Supplied(feeds)) ==> r == if DecodeBlock(litlens, distlens, v).Done? then X.Z_STREAM_END else X.Z_DATA_ERROR
  {
    hide DecodeBlock;
    hide Expand;
    hide Valid;
    hide Drop;
    hide Low;
    hide BytesVal;
    hide CodesSpec.ModeAt;
    hide CodesSpec.BlockOK;
    hide X.WindowHolds;
    hide X.Ample;
    hide X.OutputOf;
    hide X.Inflate.InMode;
    hide X.Inflate.WindowOK;
    hide X.Inflate.TokensOK;
    r := x.Run(feeds);
    if x.mode == CodesSpec.BADCODE {
      x.AtError();
    }
  }

  lemma AtStart(x: X.Inflate)
    requires x.Valid() && x.mode == CodesSpec.START && x.blk.done == [] && x.blk.ts == x.blk.start
    ensures x.At() == x.blk.start && x.hist == x.blk.hist0
  {
    hide X.WindowHolds;
    hide X.Ample;
    hide X.OutputOf;
    hide CodesSpec.BlockOK;
  }
}
