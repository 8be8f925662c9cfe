/** The resumable decoder: the bit buffer, the sliding window and the state machine of
    inflate_codes, inflate_fast and inflate_flush in DuiLib/Utils/XUnzip.cpp.

    The compressed input is `whole`; each call may see only `availIn` bytes of it from `nextIn` on,
    and may deliver only `availOut` bytes.  The ghost `hist` is all output of the stream so far,
    whether delivered or still in the window.
  */
module InflateCodes {
  import opened Bits
  import opened Canonical
  import opened Deflate
  import opened HuftSpec
  import opened CodesSpec

  datatype Ret = Z_OK | Z_STREAM_END | Z_BUF_ERROR | Z_DATA_ERROR

  /** The code that a call of inflate_codes leaves with when it has to wait: Z_OK when it has taken or
      written a byte, and the one it was given when it has done nothing; delivering a byte only clears
      Z_BUF_ERROR. */
  function Reply(r0: Ret, worked: bool, told: bool): Ret {
    if worked || (told && r0 == Z_BUF_ERROR) then Z_OK else r0
  }

  lemma ReplyNothing(r0: Ret)
    ensures Reply(r0, false, false) == r0
  {
  }

  lemma ReplyTwice(r0: Ret, a: bool, b: bool, c: bool, d: bool)
    ensures Reply(Reply(r0, a, b), c, d) == Reply(r0, a || c, b || d)
  {
  }

  // ---------- the window ----------

  /** The room for the writer: up to the end of the window, or up to one before the reader. */
  function Avail(read: nat, write: nat): int {
    if write < read then read - write - 1 else WSIZE - write
  }

  /** The window holds the end of the history: what lies before `write` is the newest lap, what lies
      after it the lap before. */
  ghost predicate WindowHolds(w: seq<byte>, hist: seq<byte>, base: nat, write: nat) {
    && |w| == WSIZE && write <= WSIZE && |hist| == base + write && base % WSIZE == 0
    && (forall j {:trigger w[j]} :: 0 <= j < write ==> w[j] == hist[base + j])
    && (forall j {:trigger w[j]} :: write <= j < WSIZE && base >= WSIZE ==> w[j] == hist[base - WSIZE + j])
  }

  /** The reader is in the writer's lap, or in the lap before and then ahead of the writer. */
  ghost predicate ReaderBehind(read: nat, write: nat, rbase: int, base: nat) {
    && read < WSIZE
    && ((read <= write && rbase == base) || (write < read && rbase == base - WSIZE && base >= WSIZE))
  }

  lemma WriteByte(w: seq<byte>, hist: seq<byte>, base: nat, write: nat, x: byte)
    requires WindowHolds(w, hist, base, write) && write < WSIZE
    ensures WindowHolds(w[write := x], hist + [x], base, write + 1)
  {
  }

  lemma WrapWindow(w: seq<byte>, hist: seq<byte>, base: nat)
    requires WindowHolds(w, hist, base, WSIZE)
    ensures WindowHolds(w, hist, base + WSIZE, 0)
  {
  }

  /** The byte `dist` back is where the decoder looks for it. */
  lemma SourceByte(w: seq<byte>, hist: seq<byte>, base: nat, write: nat, dist: nat)
    requires WindowHolds(w, hist, base, write) && 1 <= dist <= |hist| && dist <= WSIZE
    ensures write >= dist ==> w[write - dist] == hist[|hist| - dist]
    ensures write < dist ==> write + WSIZE - dist < WSIZE && w[write + WSIZE - dist] == hist[|hist| - dist]
  {
  }

  /** What is unread, up to the end of the window or the writer, is the next part of the history. */
  lemma UnreadPart(w: seq<byte>, hist: seq<byte>, base: nat, write: nat, read: nat, rbase: int, n: nat)
    requires WindowHolds(w, hist, base, write) && ReaderBehind(read, write, rbase, base)
    requires read + n <= if read <= write then write else WSIZE
    ensures 0 <= rbase + read && rbase + read + n <= |hist| && w[read..read + n] == hist[rbase + read..rbase + read + n]
  {
    var a, b := w[read..read + n], hist[rbase + read..rbase + read + n];
    forall i {:trigger a[i]} | 0 <= i < n ensures a[i] == b[i] {
      assert a[i] == w[read + i];
    }
  }

  class Inflate {
    // the stream
    const whole: seq<byte>
    var nextIn: nat
    var availIn: nat
    /** How many bytes have been taken, those counted that were given back later. */
    ghost var taken: nat
    var delivered: seq<byte>
    var availOut: nat

    // the bit buffer
    var bitb: nat
    var bitk: nat
    /** How many bits of the buffer hold stream bits: bytes given back stay in the buffer. */
    ghost var bitm: nat

    // the window
    const window: array<byte>
    var read: nat
    var write: nat
    var m: nat
    ghost var hist: seq<byte>
    ghost var base: nat

    /** How many bits have been taken. */
    ghost function At(): int
      reads this`nextIn, this`bitk
    {
      8 * nextIn - bitk
    }

    ghost function Stream(): nat {
      BytesVal(whole)
    }

    ghost predicate BitsOK()
      reads this`nextIn, this`availIn, this`taken, this`bitb, this`bitk, this`bitm
    {
      && nextIn + availIn <= |whole|
      && bitk <= bitm <= 32 && At() >= 0
      && bitb == Low(Drop(Stream(), At()), bitm)
    }

    ghost predicate WindowOK()
      reads this`delivered, this`read, this`write, this`m, this`hist, this`base, window
    {
      && window.Length == WSIZE
      && WindowHolds(window[..], hist, base, write)
      && |delivered| <= |hist| && delivered == hist[..|delivered|]
      && ReaderBehind(read, write, |delivered| - read, base)
      && m == Avail(read, write)
    }

    // ---------- bits ----------

    /** NEXTBYTE, or-ed in above the bits in the buffer. */
    method NextByte()
      requires BitsOK() && availIn > 0 && bitk < 24
      modifies this`nextIn, this`availIn, this`taken, this`bitb, this`bitk, this`bitm
      ensures BitsOK() && At() == old(At()) && bitk == old(bitk) + 8 && nextIn == old(nextIn) + 1 && availIn == old(availIn) - 1
      ensures taken == old(taken) + 1
    {
      hide Low;
      hide Drop;
      hide BitOr;
      hide Shl;
      ghost var s := Drop(Stream(), At());
      DropDrop(Stream(), At(), bitk);
      ByteAt(whole, nextIn);
      OrBits(s, bitm, bitk, 8);
      bitb := BitOr(bitb, Shl(whole[nextIn], bitk));
      bitm := if bitm < bitk + 8 then bitk + 8 else bitm;
      bitk := bitk + 8;
      nextIn := nextIn + 1;
      availIn := availIn - 1;
      taken := taken + 1;
    }

    /** DUMPBITS */
    method DumpBits(j: nat)
      requires BitsOK() && j <= bitk
      modifies this`bitb, this`bitk, this`bitm
      ensures BitsOK() && At() == old(At()) + j && bitk == old(bitk) - j
    {
      hide Low;
      hide Drop;
      DropLow(Drop(Stream(), At()), j, bitm);
      DropDrop(Stream(), At(), j);
      bitb := Drop(bitb, j);
      bitk := bitk - j;
      bitm := bitm - j;
    }

    /** The next `j` bits. */
    function Peek(j: nat): (r: nat)
      requires BitsOK() && j <= bitk
      reads this`nextIn, this`availIn, this`taken, this`bitb, this`bitk, this`bitm
      ensures r == Low(Drop(Stream(), At()), j)
    {
      LowLow(Drop(Stream(), At()), j, bitm);
      Low(bitb, j)
    }

    /** NEEDBITS: false when the input runs out first. */
    method NeedBits(j: nat, r0: Ret) returns (ok: bool, r: Ret)
      requires BitsOK() && j <= 16
      modifies this`nextIn, this`availIn, this`taken, this`bitb, this`bitk, this`bitm
      ensures BitsOK() && At() == old(At()) && (ok ==> j <= bitk) && (!ok ==> availIn == 0 && bitk < j)
      ensures bitk < j + 8 || bitk == old(bitk)
      ensures nextIn + availIn == old(nextIn + availIn)
      ensures taken >= old(taken) && r == Reply(r0, taken > old(taken), false)
      ensures nextIn == old(nextIn) + (taken - old(taken))
    {
      r := r0;
      while bitk < j
        invariant BitsOK() && At() == old(At()) && taken >= old(taken) && r == Reply(r0, taken > old(taken), false)
        invariant nextIn + availIn == old(nextIn + availIn) && nextIn == old(nextIn) + (taken - old(taken))
        invariant bitk < j + 8 || bitk == old(bitk)
        decreases availIn
      {
        if availIn == 0 {
          return false, r;
        }
        r := Z_OK;
        NextByte();
      }
      ok := true;
    }

    // ---------- output ----------

    /** OUTBYTE */
    method OutByte(x: byte)
      requires WindowOK() && m > 0
      modifies this`write, this`m, this`hist, window
      ensures WindowOK() && hist == old(hist) + [x] && write == old(write) + 1 && m == old(m) - 1
      ensures window[..] == old(window[..])[old(write) := x]
    {
      WriteByte(window[..], hist, base, write, x);
      ghost var w := window[..];
      window[write] := x;
      assert window[..] == w[write := x];
      hist := hist + [x];
      write := write + 1;
      m := m - 1;
    }

    /** WRAP */
    method Wrap()
      requires WindowOK()
      modifies this`write, this`m, this`base
      ensures WindowOK()
      ensures write == (if old(write) == WSIZE && read != 0 then 0 else old(write))
      ensures m > 0 || m == old(m)
    {
      if write == WSIZE && read != 0 {
        WrapWindow(window[..], hist, base);
        write := 0;
        base := base + WSIZE;
        m := Avail(read, write);
      }
    }

    /** What can be delivered without wrapping around. */
    ghost function ReadEnd(): nat
      reads this`read, this`write
    {
      if read <= write then write else WSIZE
    }

    /** The window with the reader possibly at its end. */
    ghost predicate Delivering()
      reads this`delivered, this`read, this`write, this`hist, this`base, window
    {
      && window.Length == WSIZE
      && WindowHolds(window[..], hist, base, write)
      && |delivered| <= |hist| && delivered == hist[..|delivered|]
      && read <= WSIZE
      && ((read <= write && |delivered| - read == base) || (write < read && |delivered| - read == base - WSIZE && base >= WSIZE))
    }

    lemma NextPart(n: nat)
      requires Delivering() && read < WSIZE && read + n <= ReadEnd()
      ensures read + n <= WSIZE && |delivered| + n <= |hist| && hist[..|delivered| + n] == delivered + window[read..read + n]
    {
      UnreadPart(window[..], hist, base, write, read, |delivered| - read, n);
      assert window[read..read + n] == window[..][read..read + n];
      assert hist[..|delivered| + n] == hist[..|delivered|] + hist[|delivered|..|delivered| + n];
    }

    /** Copy up to `availOut` bytes to the output, as far as the writer or the end of the window. */
    method Deliver(r0: Ret) returns (r: Ret)
      requires Delivering() && read < WSIZE
      modifies this`delivered, this`availOut, this`read
      ensures Delivering() && (read <= write <==> old(read) <= write)
      ensures old(delivered) <= delivered && |delivered| - |old(delivered)| == old(availOut) - availOut
      ensures availOut == 0 || read == ReadEnd()
      ensures r == Reply(r0, false, |delivered| > |old(delivered)|)
    {
      hide WindowHolds;
      r := r0;
      var n := (if read <= write then write else WSIZE) - read;
      if n > availOut {
        n := availOut;
      }
      if n != 0 && r == Z_BUF_ERROR {
        r := Z_OK;
      }
      availOut := availOut - n;
      NextPart(n);
      delivered := delivered + window[read..read + n];
      read := read + n;
    }

    /** inflate_flush: deliver what the window holds, as far as there is room. */
    method Flush(r0: Ret) returns (r: Ret)
      requires WindowOK()
      modifies this`delivered, this`availOut, this`read, this`write, this`m, this`base
      ensures WindowOK()
      ensures old(delivered) <= delivered && |delivered| - |old(delivered)| == old(availOut) - availOut
      ensures availOut == 0 || (delivered == hist && read == write)
      ensures write == old(write) || (old(write) == WSIZE && write == 0)
      ensures r == Reply(r0, false, |delivered| > |old(delivered)|)
    {
      r := Deliver(r0);
      if read == WSIZE {
        // wrap pointers
        read := 0;
        if write == WSIZE {
          WrapWindow(window[..], hist, base);
          write := 0;
          base := base + WSIZE;
        }
        r := Deliver(r);
      }
      m := Avail(read, write);
    }

    /** NEEDOUT: false when there is no room for a byte. */
    method NeedOut(r0: Ret) returns (ok: bool, r: Ret)
      requires WindowOK()
      modifies this`delivered, this`availOut, this`read, this`write, this`m, this`base
      ensures WindowOK()
      ensures ok <==> m > 0
      ensures r == Reply(r0, ok, |delivered| > |old(delivered)|) && (!ok ==> availOut == 0 && |delivered| < |hist|)
      ensures old(m) > 0 ==> m == old(m) && base == old(base) && read == old(read) && write == old(write) && availOut == old(availOut) && delivered == old(delivered)
      ensures old(delivered) <= delivered && |delivered| - |old(delivered)| == old(availOut) - availOut
      ensures write == old(write) || (old(write) == WSIZE && write == 0)
    {
      r := r0;
      if m == 0 {
        Wrap();
        if m == 0 {
          r := Flush(r);
          Wrap();
          if m == 0 {
            return false, r;
          }
        }
      }
      return true, Z_OK;
    }

    // ---------- the codes of a block ----------

    var mode: Mode
    var len: nat
    var sub: Sub
    var trees: Tables
    ghost var blk: Block

    ghost predicate TokensOK()
      reads this`trees, this`blk
    {
      BlockOK(trees, blk, Stream())
    }

    /** The mode fits the bits taken and the output made. */
    ghost predicate InMode(md: Mode)
      reads this`sub, this`len, this`trees, this`blk, this`hist, this`nextIn, this`bitk
    {
      ModeAt(md, sub, len, trees, blk, Stream(), At(), hist)
    }

    /** Look up the next bits in the table the walk has come to, and drop the bits of the entry. */
    method NextEntry(r0: Ret) returns (go: bool, r: Ret, i: nat)
      requires BitsOK() && bitk <= 15 && sub.InTree? && sub.need <= 9
      requires var i := sub.tree + Low(Drop(Stream(), At()), sub.need);
        i < |trees.hufts| && 1 <= trees.hufts[i].bits <= sub.need
      modifies this`nextIn, this`availIn, this`taken, this`bitb, this`bitk, this`bitm
      ensures BitsOK() && bitk <= 15 && nextIn + availIn == old(nextIn + availIn)
      ensures taken >= old(taken) && r == Reply(r0, taken > old(taken), false)
      ensures nextIn == old(nextIn) + (taken - old(taken))
      ensures (!go ==> At() == old(At()) && availIn == 0 && bitk < sub.need)
      ensures go ==> i == sub.tree + Low(Drop(Stream(), old(At())), sub.need)
      ensures go ==> i < |trees.hufts| && trees.hufts[i].bits >= 1 && At() == old(At()) + trees.hufts[i].bits
    {
      hide Low;
      hide Drop;
      hide BytesVal;
      i := 0;
      go, r := NeedBits(sub.need, r0);
      if go {
        i := sub.tree + Peek(sub.need);
        DumpBits(trees.hufts[i].bits);
      }
    }

    /** It waits for input: there is none, and the bits are too few. */
    ghost predicate WaitsIn()
      reads this`mode, this`sub, this`availIn, this`bitk
    {
      mode in {LEN, LENEXT, DIST, DISTEXT} && availIn == 0 && bitk < NeedOf(mode, sub)
    }

    /** It waits for room: there is none, and not all output has been delivered. */
    ghost predicate WaitsOut()
      reads this`mode, this`availOut, this`delivered, this`hist
    {
      mode in {COPY, LIT, WASH} && availOut == 0 && |delivered| < |hist|
    }

    method StepLen(r0: Ret) returns (go: bool, r: Ret)
      requires BitsOK() && TokensOK() && InMode(LEN) && mode == LEN && bitk <= 15
      modifies this`nextIn, this`availIn, this`taken, this`bitb, this`bitk, this`bitm, this`mode, this`sub, this`len
      ensures BitsOK() && InMode(mode) && bitk <= 15
      ensures nextIn + availIn == old(nextIn + availIn) && At() >= old(At()) && (go ==> At() > old(At()))
      ensures mode in {LEN, LENEXT, LIT, WASH, BADCODE}
      ensures taken >= old(taken) && (mode != BADCODE ==> r == Reply(r0, taken > old(taken), false))
      ensures nextIn == old(nextIn) + (taken - old(taken))
      ensures !go && mode != BADCODE ==> availIn == 0 && mode == LEN && bitk < NeedOf(mode, sub)
      ensures mode == BADCODE ==> !go && r == Z_DATA_ERROR
    {
      hide ModeAt;
      hide BlockOK;
      hide Low;
      hide Drop;
      hide BytesVal;
      LenAt(trees, blk, Stream(), At(), sub, len, hist);
      var i;
      go, r, i := NextEntry(r0);
      if !go {
        return;
      }
      var e := trees.hufts[i].exop;
      if e == 0 {
        sub := GotLiteral(trees.hufts[i].base);
        mode := LIT;
      } else if e / 16 % 2 == 1 {
        sub := Copying(e % 16, 0);
        len := trees.hufts[i].base;
        mode := LENEXT;
      } else if e / 64 % 2 == 0 {
        sub := InTree(i + trees.hufts[i].base, e);
      } else if e / 32 % 2 == 1 {
        mode := WASH;
      } else {
        mode := BADCODE;
        go, r := false, Z_DATA_ERROR;
      }
    }

    method StepLenext(r0: Ret) returns (go: bool, r: Ret)
      requires BitsOK() && TokensOK() && InMode(LENEXT) && mode == LENEXT && bitk <= 15
      modifies this`nextIn, this`availIn, this`taken, this`bitb, this`bitk, this`bitm, this`mode, this`sub, this`len, this`blk
      ensures BitsOK() && TokensOK() && InMode(mode) && bitk <= 15
      ensures nextIn + availIn == old(nextIn + availIn) && At() >= old(At())
      ensures blk == old(blk).(mark := blk.mark)
      ensures mode == if go then DIST else LENEXT
      ensures taken >= old(taken) && r == Reply(r0, taken > old(taken), false)
      ensures nextIn == old(nextIn) + (taken - old(taken))
      ensures (!go ==> availIn == 0 && bitk < NeedOf(mode, sub))
    {
      hide ModeAt;
      hide BlockOK;
      hide Low;
      hide Drop;
      hide BytesVal;
      LenextAt(trees, blk, Stream(), At(), sub, len, hist);
      go, r := NeedBits(sub.get, r0);
      if !go {
        return;
      }
      len := len + Peek(sub.get);
      DumpBits(sub.get);
      blk := blk.(mark := At() - blk.ts);
      sub := InTree(trees.dtree, trees.dbits);
      mode := DIST;
    }

    method StepDist(r0: Ret) returns (go: bool, r: Ret)
      requires BitsOK() && TokensOK() && InMode(DIST) && mode == DIST && bitk <= 15
      modifies this`nextIn, this`availIn, this`taken, this`bitb, this`bitk, this`bitm, this`mode, this`sub
      ensures BitsOK() && InMode(mode) && bitk <= 15
      ensures nextIn + availIn == old(nextIn + availIn) && At() >= old(At()) && (go ==> At() > old(At()))
      ensures mode in {DIST, DISTEXT, BADCODE}
      ensures taken >= old(taken) && (mode != BADCODE ==> r == Reply(r0, taken > old(taken), false))
      ensures nextIn == old(nextIn) + (taken - old(taken))
      ensures !go && mode != BADCODE ==> availIn == 0 && bitk < NeedOf(mode, sub)
      ensures mode == BADCODE ==> !go && r == Z_DATA_ERROR
    {
      hide ModeAt;
      hide BlockOK;
      hide Low;
      hide Drop;
      hide BytesVal;
      DistAt(trees, blk, Stream(), At(), sub, len, hist);
      var i;
      go, r, i := NextEntry(r0);
      if !go {
        return;
      }
      var e := trees.hufts[i].exop;
      if e / 16 % 2 == 1 {
        sub := Copying(e % 16, trees.hufts[i].base);
        mode := DISTEXT;
      } else if e / 64 % 2 == 0 {
        sub := InTree(i + trees.hufts[i].base, e);
      } else {
        mode := BADCODE;
        go, r := false, Z_DATA_ERROR;
      }
    }

    method StepDistext(r0: Ret) returns (go: bool, r: Ret)
      requires BitsOK() && TokensOK() && InMode(DISTEXT) && mode == DISTEXT && bitk <= 15
      modifies this`nextIn, this`availIn, this`taken, this`bitb, this`bitk, this`bitm, this`mode, this`sub
      ensures BitsOK() && InMode(mode) && bitk <= 15
      ensures nextIn + availIn == old(nextIn + availIn) && At() >= old(At())
      ensures mode == if go then COPY else DISTEXT
      ensures taken >= old(taken) && r == Reply(r0, taken > old(taken), false)
      ensures nextIn == old(nextIn) + (taken - old(taken))
      ensures (!go ==> availIn == 0 && bitk < NeedOf(mode, sub))
    {
      hide ModeAt;
      hide BlockOK;
      hide Low;
      hide Drop;
      hide BytesVal;
      DistextAt(trees, blk, Stream(), At(), sub, len, hist);
      go, r := NeedBits(sub.get, r0);
      if !go {
        return;
      }
      sub := Copying(sub.get, sub.dist + Peek(sub.get));
      DumpBits(sub.get);
      mode := COPY;
    }

    method StepLit(r0: Ret) returns (go: bool, r: Ret)
      requires WindowOK() && TokensOK() && InMode(LIT) && mode == LIT
      modifies this`delivered, this`availOut, this`read, this`write, this`m, this`base, this`hist, window, this`mode, this`blk
      ensures WindowOK() && TokensOK() && InMode(mode)
      ensures old(delivered) <= delivered && |delivered| - |old(delivered)| == old(availOut) - availOut
      ensures Extends(old(blk), blk) && mode == if go then START else LIT
      ensures |hist| >= |old(hist)| && r == Reply(r0, |hist| > |old(hist)|, |delivered| > |old(delivered)|)
      ensures (!go ==> availOut == 0 && |delivered| < |hist|)
      ensures go ==> OneToken(old(blk), blk, Stream())
      ensures old(m) > 0 ==> go && Untouched(old(write + m), old(base), old(read), old(availOut), old(delivered))
    {
      hide Avail;
      hide Decode;
      hide DecodeDist;
      hide ReaderBehind;
      hide ModeAt;
      hide BlockOK;
      hide WindowHolds;
      LitAt(trees, blk, Stream(), At(), sub, len, hist);
      go, r := NeedOut(r0);
      if !go {
        return;
      }
      LitToken();
      OutByte(sub.lit);
      blk := Grown(blk, Literal(sub.lit), At() - blk.ts);
      mode := START;
    }

    /** The writer has gone on without wrapping around, and nothing has been delivered. */
    ghost predicate Untouched(end: nat, base0: nat, read0: nat, availOut0: nat, delivered0: seq<byte>)
      reads this`write, this`m, this`base, this`read, this`availOut, this`delivered
    {
      write + m == end && base == base0 && read == read0 && availOut == availOut0 && delivered == delivered0
    }

    /** The literal is the next token. */
    lemma LitToken()
      requires InMode(LIT)
      ensures sub.GotLiteral? && At() >= blk.ts && TokenAt(blk, Stream()) == Tok(Literal(sub.lit), At() - blk.ts)
    {
      hide DecodeStep;
    }

    /** The copy is the next token. */
    lemma CopyToken(s: Sub, n: nat)
      requires ModeAt(COPY, s, n, trees, blk, Stream(), At(), hist)
      ensures At() >= blk.ts && TokenAt(blk, Stream()).Tok? && TokenAt(blk, Stream()).bits == At() - blk.ts && n <= TokenAt(blk, Stream()).t.len
    {
      hide DecodeStep;
    }

    /** Where in the window the byte `dist` back is. */
    function Source(dist: nat): (f: int)
      reads this`write
    {
      if write < dist then WSIZE - (dist - write) else write - dist
    }

    /** The byte `dist` back in the window is the byte `dist` back in the output. */
    lemma SourceIs(dist: nat)
      requires WindowOK() && 1 <= dist <= WSIZE && dist <= |hist|
      ensures 0 <= Source(dist) < WSIZE && window[Source(dist)] == hist[|hist| - dist]
    {
      SourceByte(window[..], hist, base, write, dist);
    }

    /** OUTBYTE(*f++), wrapping `f` around at the end of the window. */
    method CopyByte(f0: nat, ghost dist: nat) returns (f: nat)
      requires WindowOK() && m > 0 && 1 <= dist <= WSIZE && dist <= |hist| && f0 == Source(dist)
      modifies this`write, this`m, this`hist, window
      ensures WindowOK() && hist == old(hist) + [old(hist)[|old(hist)| - dist]] && f == Source(dist)
      ensures write == old(write) + 1 && m == old(m) - 1
    {
      hide WindowHolds;
      SourceIs(dist);
      OutByte(window[f0]);
      f := f0 + 1;
      if f == WSIZE {
        f := 0;
      }
    }

    /** One byte of a copy, when there is room for it. */
    method CopyOne(r0: Ret, f0: nat) returns (go: bool, r: Ret, f: nat)
      requires WindowOK() && TokensOK() && InMode(COPY) && len > 0
      requires sub.Copying? && 1 <= sub.dist <= WSIZE && f0 == Source(sub.dist)
      modifies this`delivered, this`availOut, this`read, this`write, this`m, this`base, this`hist, window, this`len
      ensures WindowOK() && InMode(COPY) && f == Source(sub.dist)
      ensures old(delivered) <= delivered && |delivered| - |old(delivered)| == old(availOut) - availOut
      ensures |hist| >= |old(hist)| && r == Reply(r0, |hist| > |old(hist)|, |delivered| > |old(delivered)|)
      ensures (!go ==> availOut == 0 && |delivered| < |hist|)
      ensures old(m) > 0 ==> go && m == old(m) - 1 && Untouched(old(write + m), old(base), old(read), old(availOut), old(delivered))
      ensures len == if go then old(len) - 1 else old(len)
    {
      hide ModeAt;
      hide BlockOK;
      hide WindowHolds;
      CopyAt(trees, blk, Stream(), At(), sub, len, hist);
      f := f0;
      go, r := NeedOut(r0);
      if go {
        f := CopyByte(f, sub.dist);
        len := len - 1;
      }
    }

    /** The rest of a copy, as far as there is room for it. */
    method CopyLoop(r0: Ret, f0: nat) returns (go: bool, r: Ret)
      requires WindowOK() && TokensOK() && InMode(COPY) && mode == COPY
      requires sub.Copying? && 1 <= sub.dist <= WSIZE && f0 == Source(sub.dist)
      modifies this`delivered, this`availOut, this`read, this`write, this`m, this`base, this`hist, window, this`len
      ensures WindowOK() && InMode(COPY)
      ensures old(delivered) <= delivered && |delivered| - |old(delivered)| == old(availOut) - availOut
      ensures |hist| >= |old(hist)| && r == Reply(r0, |hist| > |old(hist)|, |delivered| > |old(delivered)|)
      ensures if go then len == 0 else availOut == 0 && |delivered| < |hist|
      ensures old(m >= len) ==> go && Untouched(old(write + m), old(base), old(read), old(availOut), old(delivered))
    {
      hide At;
      hide ModeAt;
      hide BlockOK;
      hide WindowHolds;
      r := r0;
      var f := f0;
      while len != 0
        invariant WindowOK() && InMode(COPY)
        invariant f == Source(sub.dist)
        invariant old(delivered) <= delivered && |delivered| - |old(delivered)| == old(availOut) - availOut
        invariant |hist| >= |old(hist)| && r == Reply(r0, |hist| > |old(hist)|, |delivered| > |old(delivered)|)
        invariant old(m >= len) ==> m >= len && Untouched(old(write + m), old(base), old(read), old(availOut), old(delivered))
        decreases len
      {
        go, r, f := CopyOne(r, f);
        if !go {
          return;
        }
      }
      go := true;
    }

    method StepCopy(r0: Ret) returns (go: bool, r: Ret)
      requires WindowOK() && TokensOK() && InMode(COPY) && mode == COPY
      modifies this`delivered, this`availOut, this`read, this`write, this`m, this`base, this`hist, window, this`mode, this`blk, this`len
      ensures WindowOK() && TokensOK() && InMode(mode)
      ensures old(delivered) <= delivered && |delivered| - |old(delivered)| == old(availOut) - availOut
      ensures Extends(old(blk), blk) && mode == if go then START else COPY
      ensures |hist| >= |old(hist)| && r == Reply(r0, |hist| > |old(hist)|, |delivered| > |old(delivered)|)
      ensures (!go ==> availOut == 0 && |delivered| < |hist|)
      ensures go ==> OneToken(old(blk), blk, Stream())
      ensures old(m >= len) ==> go && Untouched(old(write + m), old(base), old(read), old(availOut), old(delivered))
    {
      hide At;
      hide Decode;
      hide DecodeStep;
      hide Drop;
      hide ModeAt;
      hide BlockOK;
      hide WindowHolds;
      CopyAt(trees, blk, Stream(), At(), sub, len, hist);
      go, r := CopyLoop(r0, if write < sub.dist then WSIZE - (sub.dist - write) else write - sub.dist);
      if !go {
        return;
      }
      CopiedAt(trees, blk, Stream(), At(), sub, hist);
      CopyToken(sub, 0);
      blk := Grown(blk, TokenAt(blk, Stream()).t, At() - blk.ts);
      mode := START;
    }

    /** All has been delivered exactly when the reader is where the writer is. */
    lemma AllDelivered()
      requires WindowOK()
      ensures if read == write then delivered == hist else |delivered| < |hist|
    {
    }

    /** Return the unused byte, if there is one; its bits stay in the buffer. */
    method ReturnByte()
      requires BitsOK() && bitk <= 15
      modifies this`nextIn, this`availIn, this`bitk
      ensures BitsOK() && At() == old(At()) && bitk <= 7 && nextIn + availIn == old(nextIn + availIn) && nextIn <= old(nextIn)
    {
      hide Low;
      hide Drop;
      hide BytesVal;
      if bitk > 7 {
        bitk := bitk - 8;
        availIn := availIn + 1;
        nextIn := nextIn - 1;
      }
    }

    method StepWash(r0: Ret) returns (go: bool, r: Ret)
      requires BitsOK() && WindowOK() && InMode(WASH) && mode == WASH && bitk <= 15
      modifies this`delivered, this`availOut, this`read, this`write, this`m, this`base
      modifies this`nextIn, this`availIn, this`bitk, this`mode
      ensures BitsOK() && WindowOK() && InMode(mode) && At() == old(At()) && bitk <= 7
      ensures nextIn + availIn == old(nextIn + availIn)
      ensures old(delivered) <= delivered && |delivered| - |old(delivered)| == old(availOut) - availOut
      ensures mode == (if go then END else WASH) && r == Reply(r0, false, |delivered| > |old(delivered)|)
      ensures nextIn <= old(nextIn)
      ensures if go then delivered == hist else availOut == 0 && |delivered| < |hist|
    {
      hide Pow2;
      hide BlockOK;
      hide ModeAt;
      hide WindowHolds;
      hide Low;
      hide Drop;
      hide BytesVal;
      WashAt(trees, blk, Stream(), At(), sub, len, hist);
      ReturnByte();
      r := Flush(r0);
      AllDelivered();
      if read != write {
        return false, r;
      }
      mode := END;
      go := true;
    }

    // ---------- inflate_fast ----------

    /** GRABBITS: NEEDBITS without looking whether there is input. */
    method GrabBits(j: nat)
      requires BitsOK() && j <= 20 && 8 * availIn + bitk >= j
      modifies this`nextIn, this`availIn, this`taken, this`bitb, this`bitk, this`bitm
      ensures BitsOK() && At() == old(At()) && bitk >= j && nextIn + availIn == old(nextIn + availIn) && availIn <= old(availIn)
      ensures taken >= old(taken) && nextIn <= old(nextIn) + (taken - old(taken)) && (old(bitk) < j ==> taken > old(taken))
    {
      while bitk < j
        invariant BitsOK() && At() == old(At()) && nextIn + availIn == old(nextIn + availIn) && availIn <= old(availIn)
        invariant taken >= old(taken) && nextIn <= old(nextIn) + (taken - old(taken)) && (old(bitk) < j && bitk > old(bitk) ==> taken > old(taken)) && bitk >= old(bitk)
        decreases j - bitk
      {
        NextByte();
      }
    }

    /** UNGRAB: give back the whole bytes in the buffer, as far as they were taken since there were
        `n0` bytes of input. */
    method Ungrab(n0: nat)
      requires BitsOK() && n0 >= availIn && bitk <= 15 + 8 * (n0 - availIn)
      modifies this`nextIn, this`availIn, this`bitk
      ensures BitsOK() && At() == old(At()) && bitk <= 15 && nextIn + availIn == old(nextIn + availIn)
      ensures nextIn <= old(nextIn) && bitb == old(bitb) && bitm == old(bitm)
    {
      hide Low;
      hide Drop;
      hide BytesVal;
      var c := n0 - availIn;
      c := if bitk / 8 < c then bitk / 8 else c;
      availIn := availIn + c;
      nextIn := nextIn - c;
      bitk := bitk - 8 * c;
    }

    /** *q++ = *r++ */
    method FastByte(f: nat, ghost dist: nat)
      requires WindowOK() && m > 0 && 1 <= dist <= WSIZE && dist <= |hist| && f == Source(dist)
      modifies this`write, this`m, this`hist, window
      ensures WindowOK() && hist == old(hist) + [old(hist)[|old(hist)| - dist]]
      ensures write == old(write) + 1 && m == old(m) - 1
    {
      hide WindowHolds;
      SourceIs(dist);
      OutByte(window[f]);
    }

    /** Copy `c0` bytes from `d` back, with two bytes unrolled or the source crossing the end of the
        window. */
    method FastCopy(c0: nat, d: nat, ghost get: nat)
      requires WindowOK() && TokensOK() && 3 <= c0 <= m
      requires ModeAt(COPY, Copying(get, d), c0, trees, blk, Stream(), At(), hist)
      modifies this`write, this`m, this`hist, window
      ensures WindowOK() && ModeAt(COPY, Copying(get, d), 0, trees, blk, Stream(), At(), hist)
      ensures write == old(write) + c0 && m == old(m) - c0
    {
      hide ModeAt;
      hide BlockOK;
      hide WindowHolds;
      ghost var s := Copying(get, d);
      var c, f := c0, 0;
      CopyAt(trees, blk, Stream(), At(), s, c, hist);
      if write >= d {
        // the source lies below the writer; two of the three bytes at least are copied outside the loop
        f := write - d;
        FastByte(f, d);
        f, c := f + 1, c - 1;
        CopyAt(trees, blk, Stream(), At(), s, c, hist);
        FastByte(f, d);
        f, c := f + 1, c - 1;
      } else {
        // the source is still from the lap before
        var e := d - write;
        f := WSIZE - e;
        if c > e {
          // it reaches the end of the window, and goes on at its start
          c, f := CopyToEnd(c, e, d, get);
        }
      }
      while true
        invariant c > 0 && m >= c && f == Source(d)
        invariant WindowOK() && ModeAt(COPY, s, c, trees, blk, Stream(), At(), hist)
        invariant write < d ==> f + c <= WSIZE
        invariant write == old(write) + c0 - c && m == old(m) - (c0 - c)
        decreases c
      {
        CopyAt(trees, blk, Stream(), At(), s, c, hist);
        FastByte(f, d);
        f, c := f + 1, c - 1;
        if c == 0 {
          break;
        }
      }
    }

    /** Copy the `e` bytes up to the end of the window. */
    method CopyToEnd(c0: nat, e0: nat, d: nat, ghost get: nat) returns (c: nat, f: nat)
      requires WindowOK() && TokensOK() && 1 <= e0 < c0 <= m && write < d && e0 == d - write
      requires ModeAt(COPY, Copying(get, d), c0, trees, blk, Stream(), At(), hist)
      modifies this`write, this`m, this`hist, window
      ensures WindowOK() && ModeAt(COPY, Copying(get, d), c, trees, blk, Stream(), At(), hist)
      ensures c == c0 - e0 && f == 0 && write == d == old(write) + e0 && m == old(m) - e0
    {
      hide ModeAt;
      hide BlockOK;
      hide WindowHolds;
      ghost var s := Copying(get, d);
      c := c0 - e0;
      var e := e0;
      f := WSIZE - e;
      while true
        invariant WindowOK() && ModeAt(COPY, s, c + e, trees, blk, Stream(), At(), hist)
        invariant 1 <= e <= e0 && write == d - e && m == old(m) - (e0 - e) && f == WSIZE - e
        decreases e
      {
        CopyAt(trees, blk, Stream(), At(), s, c + e, hist);
        FastByte(f, d);
        f, e := f + 1, e - 1;
        if e == 0 {
          break;
        }
      }
      f := 0;
    }

    /** Walk the tables of the distance code; false when there is no such code. */
    method WalkDist(ghost c: nat) returns (ok: bool, i: nat)
      requires BitsOK() && TokensOK() && bitk >= 15 && At() == blk.ts + blk.mark
      requires ModeAt(DIST, InTree(trees.dtree, trees.dbits), c, trees, blk, Stream(), At(), hist)
      modifies this`bitb, this`bitk, this`bitm
      ensures BitsOK() && old(At()) <= At() <= old(At()) + 15 && i < |trees.hufts|
      ensures if ok then ModeAt(DISTEXT, Copying(trees.hufts[i].exop % 16, trees.hufts[i].base), c, trees, blk, Stream(), At(), hist)
              else InMode(BADCODE)
    {
      hide Pow2;
      hide ModeAt;
      hide BlockOK;
      hide Low;
      hide Drop;
      hide BytesVal;
      DistAt(trees, blk, Stream(), At(), InTree(trees.dtree, trees.dbits), c, hist);
      i := trees.dtree + Peek(trees.dbits);
      var e := trees.hufts[i].exop;
      while true
        invariant BitsOK() && At() >= old(At()) && bitk >= 15 - (At() - old(At()))
        invariant i < |trees.hufts| && e == trees.hufts[i].exop
        invariant 1 <= trees.hufts[i].bits && At() + trees.hufts[i].bits <= old(At()) + 15
        invariant AfterDist(trees, blk, Stream(), At() + trees.hufts[i].bits, c, i, hist)
        decreases 15 - (At() - old(At()))
      {
        DumpBits(trees.hufts[i].bits);
        if e / 16 % 2 == 1 {
          ok := true;
          return;
        } else if e / 64 % 2 == 0 {
          DistAt(trees, blk, Stream(), At(), InTree(i + trees.hufts[i].base, e), c, hist);
          i := i + trees.hufts[i].base;
          i := i + Peek(e);
          e := trees.hufts[i].exop;
        } else {
          ok := false;
          return;
        }
      }
    }

    /** The distance of a copy of `c` bytes, and the copy. */
    method FastDistance(c: nat) returns (r: Ret)
      requires BitsOK() && WindowOK() && TokensOK() && 8 * availIn + bitk >= 28 && m >= 258
      requires ModeAt(DIST, InTree(trees.dtree, trees.dbits), c, trees, blk, Stream(), At(), hist)
      requires At() == blk.ts + blk.mark
      modifies this`nextIn, this`availIn, this`taken, this`bitb, this`bitk, this`bitm
      modifies this`write, this`m, this`hist, window, this`blk
      ensures BitsOK() && WindowOK() && TokensOK() && Extends(old(blk), blk)
      ensures nextIn + availIn == old(nextIn + availIn) && old(At()) <= At() <= old(At()) + 28
      ensures availIn <= old(availIn)
      ensures taken >= old(taken) && nextIn <= old(nextIn) + (taken - old(taken))
      ensures write + m == old(write + m) && m <= old(m) && (r == Z_OK ==> m < old(m))
      ensures r == Z_OK || r == Z_DATA_ERROR
      ensures if r == Z_OK then OneToken(old(blk), blk, Stream()) else blk == old(blk).(mark := blk.mark)
      ensures InMode(if r == Z_OK then START else BADCODE)
    {
      hide ModeAt;
      hide BlockOK;
      hide WindowHolds;
      hide Low;
      hide Drop;
      hide BytesVal;
      GrabBits(15);
      var ok, i := WalkDist(c);
      if ok {
        r := FastMatch(c, i, trees.hufts[i].exop % 16);
      } else {
        r := Z_DATA_ERROR;
      }
    }

    /** The extra bits of the distance, and the copy. */
    method FastMatch(c: nat, i: nat, e: nat) returns (r: Ret)
      requires BitsOK() && WindowOK() && TokensOK() && 8 * availIn + bitk >= 13 && m >= 258 && i < |trees.hufts|
      requires ModeAt(DISTEXT, Copying(e, trees.hufts[i].base), c, trees, blk, Stream(), At(), hist)
      modifies this`nextIn, this`availIn, this`taken, this`bitb, this`bitk, this`bitm
      modifies this`write, this`m, this`hist, window, this`blk
      ensures BitsOK() && WindowOK() && TokensOK() && Extends(old(blk), blk)
      ensures nextIn + availIn == old(nextIn + availIn) && old(At()) <= At() <= old(At()) + 13
      ensures availIn <= old(availIn)
      ensures taken >= old(taken) && nextIn <= old(nextIn) + (taken - old(taken))
      ensures write + m == old(write + m) && m <= old(m) && (r == Z_OK ==> m < old(m))
      ensures r == Z_OK && InMode(START) && OneToken(old(blk), blk, Stream())
    {
      hide ModeAt;
      hide BlockOK;
      hide WindowHolds;
      hide DecodeStep;
      hide Expand;
      hide TablesOK;
      hide Low;
      hide Drop;
      hide BytesVal;
      DistextAt(trees, blk, Stream(), At(), Copying(e, trees.hufts[i].base), c, hist);
      GrabBits(e);
      var d := trees.hufts[i].base + Peek(e);
      DumpBits(e);
      FastCopy(c, d, e);
      CopiedAt(trees, blk, Stream(), At(), Copying(e, d), hist);
      CopyToken(Copying(e, d), 0);
      blk := Grown(blk, TokenAt(blk, Stream()).t, At() - blk.ts);
      r := Z_OK;
    }

    lemma LiteralToken(b: byte)
      requires ModeAt(LIT, GotLiteral(b), 0, trees, blk, Stream(), At(), hist)
      ensures At() >= blk.ts && TokenAt(blk, Stream()) == Tok(Literal(b), At() - blk.ts)
    {
      hide DecodeStep;
    }

    /** A literal of the fast loop. */
    method FastLiteral(i: nat)
      requires WindowOK() && TokensOK() && m > 0 && i < |trees.hufts| && trees.hufts[i].base < 256
      requires ModeAt(LIT, GotLiteral(trees.hufts[i].base), 0, trees, blk, Stream(), At(), hist)
      modifies this`write, this`m, this`hist, window, this`blk
      ensures WindowOK() && TokensOK() && Extends(old(blk), blk) && InMode(START)
      ensures write + m == old(write + m) && m < old(m) && OneToken(old(blk), blk, Stream())
    {
      hide ModeAt;
      hide BlockOK;
      hide WindowHolds;
      var b: byte := trees.hufts[i].base;
      LitAt(trees, blk, Stream(), At(), GotLiteral(b), 0, hist);
      LiteralToken(b);
      OutByte(b);
      blk := Grown(blk, Literal(b), At() - blk.ts);
    }

    /** Walk the tables of the literal/length code, to the entry `i`: a literal, whose bits are still
        to be dropped, or a length, the end of the block, or no code at all. */
    method WalkLit() returns (i: nat, r: Ret)
      requires BitsOK() && TokensOK() && InMode(START) && bitk >= 20
      modifies this`bitb, this`bitk, this`bitm
      ensures BitsOK() && old(At()) <= At() <= old(At()) + 15 && i < |trees.hufts|
      ensures r == Z_OK || r == Z_STREAM_END || r == Z_DATA_ERROR
      ensures r == Z_OK && trees.hufts[i].exop == 0 ==>
                && 1 <= trees.hufts[i].bits <= bitk && AfterLen(trees, blk, Stream(), At() + trees.hufts[i].bits, 0, i, hist)
                && At() + trees.hufts[i].bits <= old(At()) + 15
      ensures r == Z_OK && trees.hufts[i].exop != 0 ==>
                && old(At()) < At() && bitk >= 5
                && ModeAt(LENEXT, Copying(trees.hufts[i].exop % 16, 0), trees.hufts[i].base, trees, blk, Stream(), At(), hist)
      ensures r != Z_OK ==> old(At()) < At() && InMode(if r == Z_STREAM_END then WASH else BADCODE)
    {
      hide At;
      hide BitsOK;
      hide Peek;
      hide Pow2;
      hide ModeAt;
      hide BlockOK;
      hide Low;
      hide Drop;
      hide BytesVal;
      r := Z_OK;
      FirstLookup(trees, blk, Stream(), At(), sub, len, hist);
      i := trees.ltree + Peek(trees.lbits);
      var e := trees.hufts[i].exop;
      while e != 0
        invariant BitsOK() && At() >= old(At()) && bitk >= 20 - (At() - old(At()))
        invariant i < |trees.hufts| && e == trees.hufts[i].exop
        invariant 1 <= trees.hufts[i].bits && At() + trees.hufts[i].bits <= old(At()) + 15
        invariant AfterLen(trees, blk, Stream(), At() + trees.hufts[i].bits, 0, i, hist)
        decreases 15 - (At() - old(At()))
      {
        DumpBits(trees.hufts[i].bits);
        if e / 16 % 2 == 1 {
          return;
        }
        if e / 64 % 2 == 0 {
          LenAt(trees, blk, Stream(), At(), InTree(i + trees.hufts[i].base, e), 0, hist);
          i := i + trees.hufts[i].base;
          i := i + Peek(e);
          e := trees.hufts[i].exop;
        } else if e / 32 % 2 == 1 {
          r := Z_STREAM_END;
          return;
        } else {
          r := Z_DATA_ERROR;
          return;
        }
      }
    }

    /** Between two tokens the output is that of the tokens done. */
    lemma HistAt(md: Mode)
      requires InMode(md) && md !in {COPY}
      ensures Deflate.Valid(blk.hist0, blk.done) && hist == Expand(blk.hist0, blk.done)
    {
      hide DecodeStep;
      hide Expand;
    }

    /** What there is at the end of a block or at an error. */
    lemma NoToken(md: Mode)
      requires InMode(md) && md in {WASH, BADCODE}
      ensures At() >= blk.ts && if md == WASH then TokenAt(blk, Stream()) == EndOfBlock(At() - blk.ts) else TokenAt(blk, Stream()) in {BadCode, Reserved}
    {
      hide DecodeStep;
      hide Expand;
    }

    /** One round of the fast loop: a literal, a copy, or the end of the block. */
    method FastToken() returns (r: Ret)
      requires BitsOK() && WindowOK() && TokensOK() && InMode(START) && m >= 258 && availIn >= 10
      modifies this`nextIn, this`availIn, this`taken, this`bitb, this`bitk, this`bitm
      modifies this`write, this`m, this`hist, window, this`blk
      ensures BitsOK() && WindowOK() && TokensOK() && Extends(old(blk), blk)
      ensures nextIn + availIn == old(nextIn + availIn) && old(At()) < At() <= old(At()) + 48
      ensures availIn <= old(availIn)
      ensures taken >= old(taken) && nextIn <= old(nextIn) + (taken - old(taken)) && (old(bitk) < 20 ==> taken > old(taken))
      ensures write + m == old(write + m) && m <= old(m) && (r == Z_OK ==> m < old(m))
      ensures r == Z_OK || r == Z_STREAM_END || r == Z_DATA_ERROR
      ensures if r == Z_OK then OneToken(old(blk), blk, Stream()) else blk == old(blk).(mark := blk.mark)
      ensures r != Z_OK ==> hist == old(hist)
      ensures InMode(if r == Z_OK then START else if r == Z_STREAM_END then WASH else BADCODE)
    {
      hide ModeAt;
      hide BlockOK;
      hide WindowHolds;
      hide Low;
      hide Drop;
      hide BytesVal;
      HistAt(START);
      GrabBits(20);
      var i;
      i, r := WalkLit();
      if r == Z_OK {
        if trees.hufts[i].exop == 0 {
          DumpBits(trees.hufts[i].bits);
          FastLiteral(i);
        } else {
          r := FastLength(i, trees.hufts[i].exop % 16);
        }
      }
      if r != Z_OK {
        HistAt(if r == Z_STREAM_END then WASH else BADCODE);
      }
    }

    /** The extra bits of the length, and then the distance. */
    method FastLength(i: nat, e: nat) returns (r: Ret)
      requires BitsOK() && WindowOK() && TokensOK() && bitk >= 5 && 8 * availIn + bitk >= 33 && m >= 258 && i < |trees.hufts|
      requires ModeAt(LENEXT, Copying(e, 0), trees.hufts[i].base, trees, blk, Stream(), At(), hist)
      modifies this`nextIn, this`availIn, this`taken, this`bitb, this`bitk, this`bitm
      modifies this`write, this`m, this`hist, window, this`blk
      ensures BitsOK() && WindowOK() && TokensOK() && Extends(old(blk), blk)
      ensures nextIn + availIn == old(nextIn + availIn) && old(At()) <= At() <= old(At()) + 33
      ensures availIn <= old(availIn)
      ensures taken >= old(taken) && nextIn <= old(nextIn) + (taken - old(taken))
      ensures write + m == old(write + m) && m <= old(m) && (r == Z_OK ==> m < old(m))
      ensures r == Z_OK || r == Z_DATA_ERROR
      ensures if r == Z_OK then OneToken(old(blk), blk, Stream()) else blk == old(blk).(mark := blk.mark)
      ensures InMode(if r == Z_OK then START else BADCODE)
    {
      hide ModeAt;
      hide BlockOK;
      hide WindowHolds;
      hide Low;
      hide Drop;
      hide BytesVal;
      LenextAt(trees, blk, Stream(), At(), Copying(e, 0), trees.hufts[i].base, hist);
      var c := trees.hufts[i].base + Peek(e);
      DumpBits(e);
      blk := blk.(mark := At() - blk.ts);
      r := FastDistance(c);
    }

    /** inflate_fast: tokens as long as ten bytes of input and room for the longest copy are left.  `last` is
        the block before the last round: until then there was as much, and the last round read one more
        token, or the end of the block, or an error. */
    method InflateFast() returns (r: Ret, ghost last: Block)
      requires BitsOK() && WindowOK() && TokensOK() && InMode(START) && bitk <= 15 && m >= 258 && availIn >= 10
      modifies this`nextIn, this`availIn, this`taken, this`bitb, this`bitk, this`bitm
      modifies this`write, this`m, this`hist, window, this`blk
      ensures BitsOK() && WindowOK() && TokensOK() && bitk <= 15 && Extends(old(blk), blk)
      ensures nextIn + availIn == old(nextIn + availIn) && At() > old(At())
      ensures write + m == old(write + m) && |hist| >= |old(hist)| && (r == Z_OK ==> |hist| > |old(hist)|)
      ensures taken > old(taken) && nextIn <= old(nextIn) + (taken - old(taken))
      ensures r == Z_OK || r == Z_STREAM_END || r == Z_DATA_ERROR
      ensures InMode(if r == Z_OK then START else if r == Z_STREAM_END then WASH else BADCODE)
      ensures Extends(old(blk), last) && BlockOK(trees, last, Stream()) && Deflate.Valid(last.hist0, last.done)
      ensures 8 * (nextIn + availIn) >= last.ts + 80 && |Expand(last.hist0, last.done)| + 258 <= |old(hist)| + old(m)
      ensures if r == Z_OK then OneToken(last, blk, Stream()) else blk == last.(mark := blk.mark)
      ensures old(TokenAt(blk, Stream())).EndOfBlock? ==> r == Z_STREAM_END && hist == old(hist)
    {
      hide ModeAt;
      hide BlockOK;
      hide WindowHolds;
      hide Low;
      hide Drop;
      hide BytesVal;
      hide TokenAt;
      hide Expand;
      var n0 := availIn;
      ghost var B := blk;
      r, last := FastRound();
      while r == Z_OK && m >= 258 && availIn >= 10
        invariant BitsOK() && WindowOK() && TokensOK() && Extends(B, blk)
        invariant nextIn + availIn == old(nextIn + availIn) && At() > old(At()) && availIn <= n0
        invariant taken > old(taken) && nextIn <= old(nextIn) + (taken - old(taken)) && |hist| >= |old(hist)| && (r == Z_OK ==> |hist| > |old(hist)|)
        invariant write + m == old(write + m) && |hist| + m == |old(hist)| + old(m)
        invariant r == Z_OK || r == Z_STREAM_END || r == Z_DATA_ERROR
        invariant InMode(if r == Z_OK then START else if r == Z_STREAM_END then WASH else BADCODE)
        invariant Extends(B, last) && BlockOK(trees, last, Stream()) && Deflate.Valid(last.hist0, last.done)
        invariant 8 * (nextIn + availIn) >= last.ts + 80 && |Expand(last.hist0, last.done)| + 258 <= |old(hist)| + old(m)
        invariant if r == Z_OK then OneToken(last, blk, Stream()) else blk == last.(mark := blk.mark)
        invariant TokenAt(B, Stream()).EndOfBlock? ==> r == Z_STREAM_END && hist == old(hist)
        decreases 8 * |whole| - At()
      {
        r, last := FastRound();
      }
      Ungrab(n0);
    }

    /** A round, and the block before it. */
    method FastRound() returns (r: Ret, ghost last: Block)
      requires BitsOK() && WindowOK() && TokensOK() && InMode(START) && m >= 258 && availIn >= 10
      modifies this`nextIn, this`availIn, this`taken, this`bitb, this`bitk, this`bitm
      modifies this`write, this`m, this`hist, window, this`blk
      ensures BitsOK() && WindowOK() && TokensOK() && Extends(old(blk), blk)
      ensures nextIn + availIn == old(nextIn + availIn) && At() > old(At()) && availIn <= old(availIn)
      ensures write + m == old(write + m) && |hist| + m == |old(hist)| + old(m)
      ensures taken >= old(taken) && nextIn <= old(nextIn) + (taken - old(taken)) && |hist| >= |old(hist)| && (r == Z_OK ==> |hist| > |old(hist)|) && (old(bitk) < 20 ==> taken > old(taken))
      ensures r == Z_OK || r == Z_STREAM_END || r == Z_DATA_ERROR
      ensures InMode(if r == Z_OK then START else if r == Z_STREAM_END then WASH else BADCODE)
      ensures last == old(blk) && BlockOK(trees, last, Stream()) && Deflate.Valid(last.hist0, last.done)
      ensures 8 * (nextIn + availIn) >= last.ts + 80 && |Expand(last.hist0, last.done)| == |old(hist)|
      ensures if r == Z_OK then OneToken(last, blk, Stream()) else blk == last.(mark := blk.mark)
      ensures TokenAt(last, Stream()).EndOfBlock? ==> r == Z_STREAM_END && hist == old(hist)
    {
      hide ModeAt;
      hide BlockOK;
      hide WindowHolds;
      hide Low;
      hide Drop;
      hide BytesVal;
      hide Expand;
      hide DecodeStep;
      last := blk;
      HistAt(START);
      AtToken();
      HistEnd();
      r := FastToken();
      HistEnd();
      if r == Z_DATA_ERROR {
        NoToken(BADCODE);
      }
    }

    lemma AtToken()
      requires InMode(START)
      ensures At() == blk.ts
    {
    }

    /** The writer is as far as the history. */
    lemma HistEnd()
      requires WindowOK()
      ensures |hist| == base + write
    {
    }

    // ---------- inflate_codes ----------

    /** All is well between two calls of inflate_codes. */
    ghost predicate Valid()
      reads this, window
    {
      && BitsOK() && WindowOK() && TokensOK() && InMode(mode) && bitk <= 15
      && (mode == END ==> delivered == hist && bitk <= 7)
    }

    method StepStart(r0: Ret) returns (r: Ret)
      requires Valid() && mode == START && r0 != Z_STREAM_END
      modifies this`nextIn, this`availIn, this`taken, this`bitb, this`bitk, this`bitm, this`mode, this`sub
      modifies this`write, this`m, this`hist, window, this`blk
      ensures Valid() && Extends(old(blk), blk)
      ensures nextIn + availIn == old(nextIn + availIn) && At() >= old(At())
      ensures mode in {LEN, WASH, BADCODE} && (r == Z_STREAM_END <==> mode == WASH)
      ensures taken >= old(taken) && nextIn <= old(nextIn) + (taken - old(taken)) && |hist| >= |old(hist)|
      ensures mode == LEN ==> r == Reply(r0, taken > old(taken), false) && (taken > old(taken) || hist == old(hist))
      ensures mode == LEN && |hist| == |old(hist)| ==> nextIn == old(nextIn) + (taken - old(taken))
      ensures mode == BADCODE ==> r == Z_DATA_ERROR
      ensures old(m >= 258 && availIn >= 10 && TokenAt(blk, Stream()).EndOfBlock?) ==> mode == WASH && hist == old(hist)
    {
      hide ModeAt;
      hide BlockOK;
      hide WindowHolds;
      hide Low;
      hide Drop;
      hide BytesVal;
      r := r0;
      if m >= 258 && availIn >= 10 {
        ghost var last;
        r, last := InflateFast();
        if r != Z_OK {
          mode := if r == Z_STREAM_END then WASH else BADCODE;
          return;
        }
      }
      EnterLen();
    }

    /** Set up for LEN. */
    method EnterLen()
      requires TokensOK() && InMode(START)
      modifies this`mode, this`sub
      ensures InMode(LEN) && mode == LEN
    {
      hide ModeAt;
      hide BlockOK;
      StartAt(trees, blk, Stream(), At(), sub, len, hist);
      sub := InTree(trees.ltree, trees.lbits);
      mode := LEN;
    }

    /** The mode's place in the order of a token. */
    function Rank(md: Mode): nat {
      match md
      case LENEXT => 7
      case DIST => 6
      case DISTEXT => 5
      case COPY => 4
      case LIT => 4
      case START => 3
      case LEN => 2
      case WASH => 1
      case END => 0
      case BADCODE => 0
    }

    /** The modes that wait for input. */
    method StepIn(r0: Ret) returns (go: bool, r: Ret)
      requires Valid() && mode in {LEN, LENEXT, DIST, DISTEXT}
      modifies this`nextIn, this`availIn, this`taken, this`bitb, this`bitk, this`bitm, this`mode, this`sub, this`len, this`blk
      ensures Valid() && Extends(old(blk), blk)
      ensures nextIn + availIn == old(nextIn + availIn) && blk == old(blk).(mark := blk.mark)
      ensures At() >= old(At()) && (go ==> At() > old(At()) || Rank(mode) < Rank(old(mode)))
      ensures mode !in {START, END} && (mode == BADCODE ==> !go && r == Z_DATA_ERROR)
      ensures mode != BADCODE ==> r == Reply(r0, taken > old(taken), false) && (!go ==> WaitsIn())
      ensures taken >= old(taken) && nextIn == old(nextIn) + (taken - old(taken))
    {
      hide ModeAt;
      hide BlockOK;
      hide Low;
      hide Drop;
      hide BytesVal;
      match mode
      case LEN => go, r := StepLen(r0);
      case LENEXT => go, r := StepLenext(r0);
      case DIST => go, r := StepDist(r0);
      case DISTEXT => go, r := StepDistext(r0);
    }

    /** The modes that wait for room for output. */
    method StepOut(r0: Ret) returns (go: bool, r: Ret)
      requires Valid() && mode in {COPY, LIT, WASH}
      modifies this`nextIn, this`availIn, this`bitk, this`mode, this`len
      modifies this`delivered, this`availOut, this`read, this`write, this`m, this`base, this`hist, window, this`blk
      ensures Valid() && Extends(old(blk), blk)
      ensures nextIn + availIn == old(nextIn + availIn) && At() == old(At())
      ensures old(delivered) <= delivered && |delivered| - |old(delivered)| == old(availOut) - availOut
      ensures mode == if !go then old(mode) else if old(mode) == WASH then END else START
      ensures !go ==> WaitsOut()
      ensures if old(mode) == WASH then blk == old(blk) && hist == old(hist) else go ==> OneToken(old(blk), blk, Stream())
      ensures old(mode in {COPY, LIT} && m >= 258 && (mode == COPY ==> len <= 258)) ==>
                go && Untouched(old(write + m), old(base), old(read), old(availOut), old(delivered))
      ensures |hist| >= |old(hist)| && r == Reply(r0, |hist| > |old(hist)|, |delivered| > |old(delivered)|)
      ensures nextIn <= old(nextIn) && (old(mode) != WASH ==> nextIn == old(nextIn)) && (old(mode) == WASH ==> bitk <= 7)
      ensures mode == END ==> delivered == hist
    {
      hide ModeAt;
      hide BlockOK;
      hide WindowHolds;
      hide Low;
      hide Drop;
      hide BytesVal;
      match mode
      case COPY => go, r := StepCopy(r0);
      case LIT => go, r := StepLit(r0);
      case WASH => go, r := StepWash(r0);
    }

    /** The case of the current mode; false when the function is to be left. */
    method Step(r0: Ret) returns (go: bool, r: Ret)
      requires Valid() && (r0 == Z_STREAM_END ==> mode == WASH || mode == END)
      modifies this`nextIn, this`availIn, this`taken, this`bitb, this`bitk, this`bitm, this`mode, this`sub, this`len
      modifies this`delivered, this`availOut, this`read, this`write, this`m, this`base, this`hist, window, this`blk
      ensures Valid() && Extends(old(blk), blk)
      ensures r == Z_STREAM_END ==> mode == WASH || mode == END
      ensures r == Z_STREAM_END && !go ==> bitk <= 7
      ensures nextIn + availIn == old(nextIn + availIn) && taken >= old(taken) && nextIn <= old(nextIn) + (taken - old(taken)) && |hist| >= |old(hist)|
      ensures mode !in {BADCODE, END} && (r0 != Z_STREAM_END ==> r != Z_STREAM_END) ==> r == Reply(r0, taken > old(taken) || |hist| > |old(hist)|, |delivered| > |old(delivered)|)
      ensures mode == BADCODE ==> r == Z_DATA_ERROR
      ensures mode !in {WASH, END, BADCODE} && |hist| == |old(hist)| ==> nextIn == old(nextIn) + (taken - old(taken))
      ensures old(delivered) <= delivered && |delivered| - |old(delivered)| == old(availOut) - availOut
      ensures At() >= old(At()) && (go ==> At() > old(At()) || Rank(mode) < Rank(old(mode)))
      ensures !go ==> match mode
                      case END => r == Z_STREAM_END
                      case BADCODE => r == Z_DATA_ERROR
                      case _ => WaitsIn() || WaitsOut()
      // the end of the block is reported at once only by the fast loop
      ensures old(mode) == START ==> (r == Z_STREAM_END <==> mode == WASH)
      ensures old(mode) == WASH ==> mode == (if go then END else WASH) && (!go ==> (r == Z_STREAM_END <==> r0 == Z_STREAM_END))
      ensures old(mode) in {END, BADCODE} ==> mode == old(mode) && !go
      ensures r == Z_STREAM_END ==> old(mode) in {START, WASH, END}
      ensures old(mode == START && m >= 258 && availIn >= 10 && TokenAt(blk, Stream()).EndOfBlock?) ==>
                mode == WASH && hist == old(hist) && delivered == old(delivered) && availOut == old(availOut)
      ensures old(mode == WASH && availOut == 0 && |delivered| < |hist|) ==> !go && hist == old(hist)
    {
      hide Pow2;
      hide Valid;
      hide ModeAt;
      hide BlockOK;
      hide WindowHolds;
      hide Low;
      hide Drop;
      hide BytesVal;
      go, r := true, r0;
      if mode == START {
        r := StepStart(r0);
      } else if mode in {LEN, LENEXT, DIST, DISTEXT} {
        go, r := StepIn(r);
      } else if mode in {COPY, LIT, WASH} {
        go, r := StepOut(r);
      } else if mode == END {
        EndBits();
        go, r := false, Z_STREAM_END;
      } else {
        go, r := false, Z_DATA_ERROR;
      }
    }

    lemma EndBits()
      requires Valid() && mode == END
      ensures bitk <= 7 && delivered == hist
    {
    }

    /** inflate_codes: decode as far as input and output allow.  `fast` tells whether the fast loop has come
        to the end of the block in this call. */
    method InflateCodes(r0: Ret) returns (r: Ret, ghost fast: bool)
      requires Valid() && r0 != Z_STREAM_END
      modifies this`nextIn, this`availIn, this`taken, this`bitb, this`bitk, this`bitm, this`mode, this`sub, this`len
      modifies this`delivered, this`availOut, this`read, this`write, this`m, this`base, this`hist, window, this`blk
      ensures Valid() && Extends(old(blk), blk)
      ensures nextIn + availIn == old(nextIn + availIn) && taken >= old(taken) && nextIn <= old(nextIn) + (taken - old(taken)) && |hist| >= |old(hist)|
      ensures old(delivered) <= delivered && |delivered| - |old(delivered)| == old(availOut) - availOut
      // it stops only at the end, at an error, or for want of input or of room for output
      ensures mode == END || mode == BADCODE || WaitsIn() || WaitsOut()
      ensures mode == END ==> r == Z_STREAM_END && delivered == hist
      // the error is reported there and only there; a call that has to wait says Z_OK when it has taken a byte,
      // written one to the window or delivered one, and what it was told when it has done none of these
      ensures mode == BADCODE ==> r == Z_DATA_ERROR
      ensures r0 in {Z_OK, Z_BUF_ERROR} ==> (r == Z_DATA_ERROR <==> mode == BADCODE)
      ensures r0 in {Z_OK, Z_BUF_ERROR} && mode !in {BADCODE, END} && r != Z_STREAM_END ==>
                r == if taken > old(taken) || |hist| > |old(hist)| || |delivered| > |old(delivered)| then Z_OK else r0
      ensures mode !in {WASH, END, BADCODE} && |hist| == |old(hist)| ==> nextIn == old(nextIn) + (taken - old(taken))
      ensures r == Z_STREAM_END ==> mode in {WASH, END} && bitk <= 7
      // the end is reported too early, with output still in the window for want of room, exactly when the
      // fast loop has come to it in this call
      ensures r == Z_STREAM_END && mode == WASH <==> fast && delivered != hist
      // as it does when the block ends at once
      ensures old(mode == START && m >= 258 && availIn >= 10 && TokenAt(blk, Stream()).EndOfBlock? && availOut == 0 && |delivered| < |hist|) ==>
                fast && delivered != hist
    {
      hide DecodeFrom;
      hide Valid;
      hide ModeAt;
      hide BlockOK;
      hide WindowHolds;
      hide Low;
      hide Drop;
      hide BytesVal;
      r, fast := RunSteps(r0);
      r := FinalFlush(r);
    }

    /** The steps of one call, up to the last flush. */
    method RunSteps(r0: Ret) returns (r: Ret, ghost fast: bool)
      requires Valid() && r0 != Z_STREAM_END
      modifies this`nextIn, this`availIn, this`taken, this`bitb, this`bitk, this`bitm, this`mode, this`sub, this`len
      modifies this`delivered, this`availOut, this`read, this`write, this`m, this`base, this`hist, window, this`blk
      ensures Valid() && Extends(old(blk), blk)
      ensures nextIn + availIn == old(nextIn + availIn) && taken >= old(taken) && nextIn <= old(nextIn) + (taken - old(taken)) && |hist| >= |old(hist)|
      ensures old(delivered) <= delivered && |delivered| - |old(delivered)| == old(availOut) - availOut
      ensures mode == END || mode == BADCODE || WaitsIn() || WaitsOut()
      ensures mode == END ==> r == Z_STREAM_END
      ensures mode == BADCODE ==> r == Z_DATA_ERROR
      ensures mode !in {WASH, END, BADCODE} && |hist| == |old(hist)| ==> nextIn == old(nextIn) + (taken - old(taken))
      ensures mode !in {BADCODE, END} && r != Z_STREAM_END ==> r == Reply(r0, taken > old(taken) || |hist| > |old(hist)|, |delivered| > |old(delivered)|)
      ensures r == Z_STREAM_END ==> mode in {WASH, END} && bitk <= 7
      ensures mode == WASH ==> (r == Z_STREAM_END <==> fast)
      ensures fast ==> mode == WASH || mode == END
      ensures old(mode == START && m >= 258 && availIn >= 10 && TokenAt(blk, Stream()).EndOfBlock? && availOut == 0 && |delivered| < |hist|) ==>
                fast && mode == WASH && availOut == 0 && |delivered| < |hist|
    {
      hide DecodeFrom;
      hide Reply;
      hide Valid;
      hide ModeAt;
      hide BlockOK;
      hide WindowHolds;
      hide Low;
      hide Drop;
      hide BytesVal;
      r, fast := r0, false;
      ReplyNothing(r0);
      ghost var ends := mode == START && m >= 258 && availIn >= 10 && TokenAt(blk, Stream()).EndOfBlock? && availOut == 0 && |delivered| < |hist|;
      while true
        invariant Valid() && Extends(old(blk), blk)
        invariant nextIn + availIn == old(nextIn + availIn) && taken >= old(taken) && nextIn <= old(nextIn) + (taken - old(taken)) && |hist| >= |old(hist)|
        invariant mode == BADCODE || mode == END || r == Z_STREAM_END || r == Reply(r0, taken > old(taken) || |hist| > |old(hist)|, |delivered| > |old(delivered)|)
        invariant old(delivered) <= delivered && |delivered| - |old(delivered)| == old(availOut) - availOut
        invariant (r == Z_STREAM_END ==> mode == WASH || mode == END) && (fast ==> mode == WASH || mode == END)
        invariant mode == WASH ==> (r == Z_STREAM_END <==> fast)
        invariant mode !in {WASH, END, BADCODE} && |hist| == |old(hist)| ==> nextIn == old(nextIn) + (taken - old(taken))
        invariant ends ==> (mode == START && unchanged(this, window)) || (fast && mode == WASH && availOut == 0 && |delivered| < |hist|)
        decreases 8 * |whole| - At(), Rank(mode)
      {
        ghost var was, k, h, d := mode, taken, |hist|, |delivered|;
        ReadWithin();
        var go;
        go, r := Step(r);
        ReadWithin();
        ReplyTwice(r0, k > old(taken) || h > |old(hist)|, d > |old(delivered)|, taken > k || |hist| > h, |delivered| > d);
        fast := fast || (was == START && mode == WASH);
        if !go {
          break;
        }
      }
    }

    lemma ReadWithin()
      requires Valid()
      ensures 0 <= At() <= 8 * |whole|
    {
    }

    /** The flush of LEAVE. */
    method FinalFlush(r0: Ret) returns (r: Ret)
      requires Valid() && (mode == END || mode == BADCODE || WaitsIn() || WaitsOut())
      modifies this`delivered, this`availOut, this`read, this`write, this`m, this`base
      ensures Valid() && (mode == END || mode == BADCODE || WaitsIn() || WaitsOut()) && r == Reply(r0, false, |delivered| > |old(delivered)|)
      ensures old(delivered) <= delivered && |delivered| - |old(delivered)| == old(availOut) - availOut
      ensures mode == END ==> delivered == hist
    {
      hide InMode;
      hide BlockOK;
      hide WindowHolds;
      hide Low;
      hide Drop;
      hide BytesVal;
      r := Flush(r0);
    }

    // ---------- whole runs ----------

    /** A stream of which nothing has been read. */
    constructor (input: seq<byte>)
      ensures BitsOK() && WindowOK() && whole == input && delivered == [] == hist && At() == 0 && bitk == 0
      ensures availIn == 0 && availOut == 0 && fresh(window)
    {
      whole := input;
      nextIn, availIn, taken, delivered, availOut := 0, 0, 0, [], 0;
      bitb, bitk, bitm := 0, 0, 0;
      window := new byte[WSIZE];
      read, write, m, hist, base := 0, 0, WSIZE, [], 0;
      mode, len, sub, trees := START, 0, InTree(0, 0), Tables([], 0, 0, 0, 0);
      blk := Block([], [], 0, [], [], 0, 0);
    }

    /** inflate_codes_new: begin a block with these tables. */
    method InflateCodesNew(tb: Tables, ghost litlens: seq<nat>, ghost distlens: seq<nat>)
      requires BitsOK() && WindowOK() && bitk <= 15 && TablesOK(tb, litlens, distlens)
      requires DistancesOK(litlens, distlens, Drop(Stream(), At()), hist)
      modifies this`mode, this`trees, this`blk
      ensures Valid() && mode == START && trees == tb && blk == Block(litlens, distlens, At(), hist, [], At(), 0)
    {
      hide TablesOK;
      hide DistancesOK;
      hide WindowHolds;
      hide Low;
      hide Drop;
      hide BytesVal;
      mode := START;
      trees := tb;
      blk := Block(litlens, distlens, At(), hist, [], At(), 0);
    }

    /** What the window holds and has not been delivered. */
    function Unread(): seq<byte>
      requires read <= WSIZE && write <= WSIZE && window.Length == WSIZE
      reads this`read, this`write, window
    {
      if read <= write then window[read..write] else window[read..] + window[..write]
    }

    /** Nothing is lost, repeated or reordered: what has been delivered and what is unread make up the
        whole output. */
    lemma Conserved()
      requires WindowOK()
      ensures delivered + Unread() == hist
    {
      var w, d := window[..], |delivered|;
      if read <= write {
        UnreadPart(w, hist, base, write, read, d - read, write - read);
        assert hist == hist[..d] + hist[d..];
        assert window[read..write] == w[read..write];
      } else {
        UnreadPart(w, hist, base, write, read, d - read, WSIZE - read);
        assert window[read..] == w[read..WSIZE] == hist[d..base];
        assert window[..write] == hist[base..] by {
          assert forall j {:trigger w[j]} :: 0 <= j < write ==> w[j] == hist[base + j];
        }
        assert hist == hist[..d] + hist[d..base] + hist[base..];
      }
    }

    /** The output is the meaning of the tokens done, and in the middle of a copy a part of the next. */
    lemma OutputIs()
      requires Valid()
      ensures Deflate.Valid(blk.hist0, blk.done) && Expand(blk.hist0, blk.done) <= hist
      ensures mode != COPY ==> hist == Expand(blk.hist0, blk.done)
      ensures mode == COPY ==>
                var step := TokenAt(blk, Stream());
                && step.Tok? && Deflate.Valid(blk.hist0, blk.done + [step.t])
                && hist <= Expand(blk.hist0, blk.done + [step.t])
    {
      hide BlockOK;
      hide WindowHolds;
      hide DecodeStep;
      hide Low;
      hide Drop;
      hide BytesVal;
      hide Expand;
      if mode == COPY {
        CopyOutput(trees, blk, Stream(), At(), sub, len, hist);
      }
    }

    /** At the end, the output is that of all the tokens of the block. */
    lemma AtEnd()
      requires Valid() && mode in {WASH, END}
      ensures DecodeBlock(blk.litlens, blk.distlens, Drop(Stream(), blk.start)) == Done(blk.done, At() - blk.start)
      ensures Deflate.Valid(blk.hist0, blk.done) && hist == Expand(blk.hist0, blk.done)
      ensures mode == END ==> delivered == hist
    {
      hide DecodeStep;
      hide TablesOK;
      hide WindowHolds;
      DropDrop(Stream(), blk.start, blk.ts - blk.start);
      ReadsBlock(blk.litlens, blk.distlens, Drop(Stream(), blk.start), blk.done, blk.ts - blk.start);
    }

    /** At an error, the stream has no code, or one without a meaning. */
    lemma AtError()
      requires Valid() && mode == BADCODE
      ensures DecodeBlock(blk.litlens, blk.distlens, Drop(Stream(), blk.start)) in {Bad(blk.done), Unspecified(blk.done)}
    {
      hide DecodeStep;
      hide TablesOK;
      hide Low;
      hide BytesVal;
      hide Expand;
      hide WindowHolds;
      DropDrop(Stream(), blk.start, blk.ts - blk.start);
      ReadsRest(blk.litlens, blk.distlens, Drop(Stream(), blk.start), blk.done, blk.ts - blk.start);
      assert blk.done + [] == blk.done;
    }

    /** What the block is: its tokens, from where it begins. */
    ghost function Meaning(): BlockResult
      reads this`blk
    {
      MeaningOf(blk, Stream())
    }

    /** The tokens done are the first of the block, and the next one decides what it is. */
    lemma MeaningHere()
      requires TokensOK()
      ensures var b, step := Meaning(), TokenAt(blk, Stream());
        && blk.start <= blk.ts
        && (!b.Endless? ==> blk.done <= b.toks && (step.Tok? ==> blk.done + [step.t] <= b.toks))
        && (b.Done? && (step.Tok? || step.EndOfBlock?) ==> blk.ts + step.bits <= blk.start + b.bits)
        && (step.EndOfBlock? ==> b.Done?)
        && (step in {BadCode, Reserved} ==> !b.Endless? && !b.Done? && b.toks == blk.done)
    {
      hide DecodeStep;
      hide DecodeBlock;
      hide TablesOK;
      hide DistancesOK;
      hide Reads;
      var v, k := Drop(Stream(), blk.start), blk.ts - blk.start;
      DropDrop(Stream(), blk.start, k);
      ReadsRest(blk.litlens, blk.distlens, v, blk.done, k);
      FirstToken(blk.litlens, blk.distlens, Drop(v, k));
      assert blk.done + [] == blk.done;
    }

    /** It waits only when there is too little input or too little room. */
    lemma WaitsFor(b: BlockResult)
      requires Valid() && (WaitsIn() || WaitsOut()) && nextIn + availIn == |whole|
      requires b == Meaning() && !b.Endless? && Deflate.Valid(blk.hist0, b.toks)
      ensures !Ample(blk, trees, Stream(), 8 * |whole|, b) || availOut + |delivered| < |Expand(blk.hist0, b.toks)|
    {
      hide DecodeStep;
      hide DecodeBlock;
      hide TablesOK;
      hide DistancesOK;
      hide ModeAt;
      hide WindowHolds;
      hide Expand;
      hide Deflate.Valid;
      hide Reads;
      hide Low;
      hide Drop;
      hide BytesVal;
      MeaningHere();
      if WaitsIn() {
        WaitAt(mode, sub, len, trees, blk, Stream(), At(), hist);
        LookupPositive(trees, blk);
        forall k | Reads(blk.litlens, blk.distlens, Drop(Stream(), blk.start), b.toks, k) && !b.Done? ensures 8 * |whole| < blk.start + k + 35 {
          TokensBehind(b.toks, k);
        }
      } else {
        NoMoreOutput(b.toks);
      }
    }

    /** The tokens from the start to the end of the next one are among those that take `k` bits. */
    lemma TokensBehind(ts: seq<Token>, k: nat)
      requires TokensOK() && Reads(blk.litlens, blk.distlens, Drop(Stream(), blk.start), ts, k)
      ensures blk.done <= ts ==> blk.ts <= blk.start + k
      ensures blk.done == ts ==> blk.ts == blk.start + k
      ensures var step := TokenAt(blk, Stream()); step.Tok? && blk.done + [step.t] <= ts ==> blk.ts + step.bits <= blk.start + k
    {
      hide DecodeStep;
      hide TablesOK;
      hide DistancesOK;
      hide Reads;
      var v, n := Drop(Stream(), blk.start), blk.ts - blk.start;
      DropDrop(Stream(), blk.start, n);
      if blk.done <= ts {
        ReadsPrefix(blk.litlens, blk.distlens, v, blk.done, n, ts, k);
      }
      if blk.done == ts {
        ReadsPrefix(blk.litlens, blk.distlens, v, ts, k, blk.done, n);
      }
      var step := TokenAt(blk, Stream());
      if step.Tok? && blk.done + [step.t] <= ts {
        ReadsSnoc(blk.litlens, blk.distlens, v, blk.done, n);
        ReadsPrefix(blk.litlens, blk.distlens, v, blk.done + [step.t], n + step.bits, ts, k);
      }
    }

    /** The output so far is no more than that of all tokens. */
    lemma NoMoreOutput(ts: seq<Token>)
      requires Valid() && Deflate.Valid(blk.hist0, ts) && blk.done <= ts
      requires TokenAt(blk, Stream()).Tok? ==> blk.done + [TokenAt(blk, Stream()).t] <= ts
      ensures |hist| <= |Expand(blk.hist0, ts)|
    {
      hide DecodeStep;
      hide BlockOK;
      hide WindowHolds;
      hide ModeAt;
      hide Expand;
      hide Deflate.Valid;
      OutputIs();
      ExpandLength(blk.hist0, ts, |blk.done|);
      assert ts[..|blk.done|] == blk.done;
      if mode == COPY {
        var us := blk.done + [TokenAt(blk, Stream()).t];
        ExpandLength(blk.hist0, ts, |us|);
        assert ts[..|us|] == us;
      }
    }

    /** All distances of a block that ends are good. */
    lemma MeaningValid()
      requires TokensOK() && !Meaning().Endless?
      ensures Deflate.Valid(blk.hist0, Meaning().toks)
    {
      hide DecodeStep;
      hide DecodeBlock;
      hide TablesOK;
      hide Deflate.Valid;
      hide Reads;
      var k := BlockReads(blk.litlens, blk.distlens, Drop(Stream(), blk.start));
    }

    /** All input is given, it goes on far enough behind the block, and there is room for all output. */
    ghost predicate Supplied(feeds: seq<(nat, nat)>)
      reads this`nextIn, this`availIn, this`blk, this`trees, this`delivered, this`availOut
    {
      && feeds != [] && nextIn + availIn + SumIn(feeds) >= |whole|
      && Ample(blk, trees, Stream(), 8 * |whole|, Meaning())
      && |delivered| + availOut + SumOut(feeds) >= |OutputOf(blk.hist0, Meaning())|
    }

    /** Any number of calls, each with so much more input and so much more room for output. */
    method Run(feeds: seq<(nat, nat)>) returns (r: Ret)
      requires Valid()
      modifies this, window
      ensures Valid() && Extends(old(blk), blk) && old(delivered) <= delivered
      // no code is bad because the input or the room ends
      ensures feeds != [] ==> (r == Z_DATA_ERROR <==> mode == BADCODE)
      // whatever the splitting: at the end the output is that of the tokens of the block, and the next
      // bit is in the last byte taken
      ensures r == Z_STREAM_END ==>
                && Meaning() == Done(blk.done, At() - blk.start)
                && Deflate.Valid(blk.hist0, blk.done) && delivered + Unread() == Expand(blk.hist0, blk.done)
                && 8 * (nextIn - 1) < At() <= 8 * nextIn
      // when all input has been given, and room for all output, it comes to the end of every block that has
      // one, and reports every other block that does not go on for ever as bad
      ensures old(Supplied(feeds)) ==> r == if old(Meaning()).Done? then Z_STREAM_END else Z_DATA_ERROR
    {
      hide Valid;
      hide InMode;
      hide MeaningOf;
      hide Ample;
      hide BlockOK;
      hide Low;
      hide Drop;
      hide BytesVal;
      hide DecodeBlock;
      hide Expand;
      hide OutputOf;
      hide Extends;
      ghost var B, tb := blk, trees;
      r := RunLoop(feeds);
      if r == Z_STREAM_END {
        Ended();
      }
      SameMeaning(B, tb);
      Start();
      if feeds != [] {
        Finished(r);
      }
    }

    /** The calls, one after the other. */
    method RunLoop(feeds: seq<(nat, nat)>) returns (r: Ret)
      requires Valid()
      modifies this, window
      ensures Valid() && Extends(old(blk), blk) && old(delivered) <= delivered && trees == old(trees)
      ensures r == Z_STREAM_END ==> mode in {WASH, END} && bitk <= 7
      ensures feeds != [] && r != Z_STREAM_END ==> (mode == BADCODE && r == Z_DATA_ERROR) || WaitsIn() || WaitsOut()
      ensures feeds != [] ==> (r == Z_DATA_ERROR <==> mode == BADCODE)
      ensures r != Z_STREAM_END ==>
                && (nextIn + availIn == |whole| || nextIn + availIn == old(nextIn + availIn) + SumIn(feeds))
                && availOut + |delivered| == old(availOut + |delivered|) + SumOut(feeds)
    {
      hide Valid;
      hide InMode;
      hide BlockOK;
      hide SumIn;
      hide SumOut;
      r := Z_OK;
      ghost var fast := false;
      var i := 0;
      NoFeeds(feeds[..0]);
      Start();
      while i < |feeds| && r != Z_STREAM_END
        invariant i <= |feeds| && Valid() && Extends(old(blk), blk) && old(delivered) <= delivered && trees == old(trees)
        invariant r == Z_STREAM_END ==> mode in {WASH, END} && bitk <= 7
        invariant i > 0 ==> (r == Z_DATA_ERROR <==> mode == BADCODE)
        invariant i > 0 && r != Z_STREAM_END ==> (mode == BADCODE && r == Z_DATA_ERROR) || WaitsIn() || WaitsOut()
        invariant nextIn + availIn == |whole| || nextIn + availIn == old(nextIn + availIn) + SumIn(feeds[..i])
        invariant availOut + |delivered| == old(availOut + |delivered|) + SumOut(feeds[..i])
      {
        OneFeed(feeds, i);
        Feed(feeds[i].0, feeds[i].1);
        r, fast := InflateCodes(Z_OK);
        i := i + 1;
      }
      assert feeds[..|feeds|] == feeds;
    }

    lemma Start()
      requires Valid()
      ensures nextIn + availIn <= |whole|
    {
    }

    lemma Ended()
      requires Valid() && mode in {WASH, END} && bitk <= 7
      ensures Meaning() == Done(blk.done, At() - blk.start)
      ensures Deflate.Valid(blk.hist0, blk.done) && delivered + Unread() == Expand(blk.hist0, blk.done)
      ensures 8 * (nextIn - 1) < At() <= 8 * nextIn
    {
      hide InMode;
      hide BlockOK;
      hide WindowHolds;
      hide DecodeBlock;
      hide Expand;
      AtEnd();
      Conserved();
    }

    lemma Finished(r: Ret)
      requires Valid() && (r != Z_STREAM_END ==> (mode == BADCODE && r == Z_DATA_ERROR) || WaitsIn() || WaitsOut())
      requires r == Z_STREAM_END ==> Meaning().Done?
      ensures var b := Meaning();
        && (r != Z_STREAM_END ==> nextIn + availIn == |whole| && |delivered| + availOut >= |OutputOf(blk.hist0, b)|)
        && Ample(blk, trees, Stream(), 8 * |whole|, b) ==>
          r == if b.Done? then Z_STREAM_END else Z_DATA_ERROR
    {
      hide InMode;
      hide BlockOK;
      hide WindowHolds;
      hide DecodeBlock;
      hide Expand;
      hide Low;
      hide Drop;
      hide BytesVal;
      var b := Meaning();
      if r != Z_STREAM_END && !b.Endless? {
        MeaningValid();
        if mode == BADCODE {
          AtError();
        } else if nextIn + availIn == |whole| {
          WaitsFor(b);
        }
      }
    }

    /** What a block is and how much input it needs depends only on where it begins. */
    lemma SameMeaning(B: Block, tb: Tables)
      requires Extends(B, blk) && trees == tb
      ensures Meaning() == MeaningOf(B, Stream()) && blk.hist0 == B.hist0
      ensures forall n: nat, b :: Ample(blk, trees, Stream(), n, b) == Ample(B, tb, Stream(), n, b)
    {
    }

    /** The caller gives more input and makes more room for output. */
    method Feed(bytes: nat, room: nat)
      requires Valid()
      modifies this`availIn, this`availOut
      ensures Valid() && availOut == old(availOut) + room
      ensures nextIn + availIn == if old(nextIn + availIn) + bytes < |whole| then old(nextIn + availIn) + bytes else |whole|
    {
      hide InMode;
      hide BlockOK;
      hide WindowHolds;
      hide Low;
      hide Drop;
      hide BytesVal;
      var rest := |whole| - nextIn;
      availIn := if availIn + bytes < rest then availIn + bytes else rest;
      availOut := availOut + room;
    }
  }

  function SumIn(feeds: seq<(nat, nat)>): nat {
    if feeds == [] then 0 else SumIn(feeds[..|feeds| - 1]) + feeds[|feeds| - 1].0
  }

  function SumOut(feeds: seq<(nat, nat)>): nat {
    if feeds == [] then 0 else SumOut(feeds[..|feeds| - 1]) + feeds[|feeds| - 1].1
  }

  lemma NoFeeds(feeds: seq<(nat, nat)>)
    requires feeds == []
    ensures SumIn(feeds) == 0 && SumOut(feeds) == 0
  {
  }

  lemma OneFeed(feeds: seq<(nat, nat)>, i: nat)
    requires i < |feeds|
    ensures SumIn(feeds[..i + 1]) == SumIn(feeds[..i]) + feeds[i].0 && SumOut(feeds[..i + 1]) == SumOut(feeds[..i]) + feeds[i].1
  {
    assert feeds[..i + 1][..i] == feeds[..i];
  }

  ghost function MeaningOf(B: Block, s: nat): BlockResult {
    DecodeBlock(B.litlens, B.distlens, Drop(s, B.start))
  }

  /** The output of a block, after the output `h`. */
  ghost function OutputOf(h: seq<byte>, b: BlockResult): seq<byte> {
    if !b.Endless? && Deflate.Valid(h, b.toks) then Expand(h, b.toks) else h
  }

  /** The input of `n` bits goes on behind the block for as many bits as are looked up at once; behind tokens
      that are followed by a bad code, for as many as may be read before that is known. */
  ghost predicate Ample(B: Block, tb: Tables, s: nat, n: nat, b: BlockResult) {
    match b
    case Done(_, bits) => n + 1 >= B.start + bits + Lookup(tb)
    case Endless => false
    case Bad(ts) => exists k :: Reads(B.litlens, B.distlens, Drop(s, B.start), ts, k) && n >= B.start + k + 35
    case Unspecified(ts) => exists k :: Reads(B.litlens, B.distlens, Drop(s, B.start), ts, k) && n >= B.start + k + 35
  }

  /** The fast loop and the single steps are interchangeable: two decoders at the same bit, each
      between two tokens of the same block, have decoded the same tokens and written the same output;
      they have the same write position, but for the end of the window being its start, and hold the
      same bytes of history. */
  lemma SameAtSameBit(s: nat, at: int, tb1: Tables, B1: Block, sub1: Sub, len1: nat, hist1: seq<byte>, w1: seq<byte>, base1: nat, write1: nat,
                      tb2: Tables, B2: Block, sub2: Sub, len2: nat, hist2: seq<byte>, w2: seq<byte>, base2: nat, write2: nat)
    requires BlockOK(tb1, B1, s) && ModeAt(START, sub1, len1, tb1, B1, s, at, hist1) && WindowHolds(w1, hist1, base1, write1)
    requires BlockOK(tb2, B2, s) && ModeAt(START, sub2, len2, tb2, B2, s, at, hist2) && WindowHolds(w2, hist2, base2, write2)
    requires B1.litlens == B2.litlens && B1.distlens == B2.distlens && B1.start == B2.start && B1.hist0 == B2.hist0
    ensures B1.done == B2.done && hist1 == hist2
    ensures write1 % WSIZE == write2 % WSIZE
    ensures write1 == write2 ==> forall j :: 0 <= j < WSIZE && (j < write1 || base1 >= WSIZE) ==> w1[j] == w2[j]
  {
    hide WindowHolds;
    SameTokens(s, at, tb1, B1, sub1, len1, hist1, tb2, B2, sub2, len2, hist2);
    SameWindow(hist1, w1, base1, write1, w2, base2, write2);
  }

  lemma SameTokens(s: nat, at: int, tb1: Tables, B1: Block, sub1: Sub, len1: nat, hist1: seq<byte>,
                   tb2: Tables, B2: Block, sub2: Sub, len2: nat, hist2: seq<byte>)
    requires BlockOK(tb1, B1, s) && ModeAt(START, sub1, len1, tb1, B1, s, at, hist1)
    requires BlockOK(tb2, B2, s) && ModeAt(START, sub2, len2, tb2, B2, s, at, hist2)
    requires B1.litlens == B2.litlens && B1.distlens == B2.distlens && B1.start == B2.start && B1.hist0 == B2.hist0
    ensures B1.done == B2.done && hist1 == hist2
  {
    hide TablesOK;
    hide DistancesOK;
    hide Reads;
    hide Drop;
    ReadsUnique(B1.litlens, B1.distlens, Drop(s, B1.start), B1.done, B2.done, B1.ts - B1.start);
  }

  lemma SameWindow(hist: seq<byte>, w1: seq<byte>, base1: nat, write1: nat, w2: seq<byte>, base2: nat, write2: nat)
    requires WindowHolds(w1, hist, base1, write1) && WindowHolds(w2, hist, base2, write2)
    ensures write1 % WSIZE == write2 % WSIZE
    ensures write1 == write2 ==> forall j :: 0 <= j < WSIZE && (j < write1 || base1 >= WSIZE) ==> w1[j] == w2[j]
  {
  }

  /** The same block, with no fewer tokens done. */
  ghost predicate Extends(B: Block, B': Block) {
    && B' == B.(done := B'.done, ts := B'.ts, mark := B'.mark)
    && B.done <= B'.done && B.ts <= B'.ts
  }
}
