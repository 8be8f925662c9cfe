/** The one-shot decoder of zlib streams: stbi__zbuf in DuiLib/Utils/stb_image.c. */
module StbInflate {
  import opened Bits
  import opened Canonical
  import opened StbHuffman
  import opened Deflate
  import opened Stream

  /** What the bit reader promises: the next `numBits` bits of the stream are in the buffer. */
  lemma FillStep(v: nat, nb: nat, at: nat, fed: nat, b: nat)
    requires at + nb == 8 * fed && Low(Drop(v, 8 * fed), 8) == b
    ensures Low(Drop(v, at), nb) + Shl(b, nb) == Low(Drop(v, at), nb + 8)
  {
    hide Low;
    hide Drop;
    DropDrop(v, at, nb);
    LowAppend(Drop(v, at), nb, 8);
  }

  /** The limit of a buffer, doubled until `size` bytes fit. */
  function Grown(limit: nat, size: nat): nat
    decreases size - limit
  {
    if limit == 0 || size <= limit then limit else Grown(2 * limit, size)
  }

  lemma {:induction false} GrownEnough(limit: nat, size: nat)
    ensures Grown(limit, size) >= limit && (size <= limit ==> Grown(limit, size) == limit)
    ensures limit > 0 ==> Grown(limit, size) >= size
    decreases size - limit
  {
    if limit > 0 && size > limit {
      GrownEnough(2 * limit, size);
    }
  }

  lemma {:induction false} GrownMono(limit: nat, m: nat, n: nat)
    requires m <= n
    ensures Grown(limit, m) <= Grown(limit, n)
    decreases n - limit
  {
    if limit > 0 && n > limit {
      GrownMono(2 * limit, m, n);
      if m <= limit {
        GrownEnough(2 * limit, n);
      }
    }
  }

  /** Growing by and by makes the same buffer as growing at once. */
  lemma {:induction false} GrownTwice(limit: nat, m: nat, n: nat)
    requires m <= n
    ensures Grown(Grown(limit, m), n) == Grown(limit, n)
    decreases m - limit
  {
    if limit > 0 && m > limit {
      GrownTwice(2 * limit, m, n);
    }
  }

  class ZBuf {
    const zbuffer: seq<byte>
    var pos: nat
    var numBits: nat
    var codeBuffer: nat
    /** How many bytes have been fed, with the zeros fed after the end of the input. */
    ghost var fed: nat

    var out: array<byte>
    var zout: nat
    const expandable: bool
    /** The largest buffer that can be allocated. */
    const memory: nat

    const zlength: ZHuffman
    const zdistance: ZHuffman

    constructor (input: seq<byte>, obuf: array<byte>, exp: bool, mem: nat)
      ensures zbuffer == input && out == obuf && zout == 0 && expandable == exp && memory == mem
      ensures BitsValid() && At() == 0 && fed == 0
      ensures zlength.Allocated() && zdistance.Allocated()
      ensures fresh(zlength.Repr()) && fresh(zdistance.Repr()) && zlength.Repr() !! zdistance.Repr()
    {
      zbuffer, out, expandable, memory := input, obuf, exp, mem;
      pos, numBits, codeBuffer, fed, zout := 0, 0, 0, 0, 0;
      zlength := new ZHuffman();
      zdistance := new ZHuffman();
    }

    /** The whole input as a stream; zeros follow its end. */
    ghost function Stream(): nat {
      BytesVal(zbuffer)
    }

    /** How many bits have been taken. */
    ghost function At(): int
      reads this
    {
      8 * fed - numBits
    }

    ghost predicate BitsValid()
      reads this
    {
      && numBits <= 32 && At() >= 0
      && pos == (if fed < |zbuffer| then fed else |zbuffer|)
      && codeBuffer == Low(Drop(Stream(), At()), numBits)
    }

    /** stbi__zget8 */
    method Get8() returns (b: byte)
      requires BitsValid()
      modifies this`pos, this`fed
      ensures fed == old(fed) + 1 && pos == (if fed < |zbuffer| then fed else |zbuffer|)
      ensures b == Low(Drop(Stream(), 8 * old(fed)), 8)
    {
      ByteAt(zbuffer, fed);
      fed := fed + 1;
      if pos >= |zbuffer| {
        return 0;
      }
      b := zbuffer[pos];
      pos := pos + 1;
    }

    /** stbi__fill_bits: the buffer never overflows its 32 bits. */
    method FillBits()
      requires BitsValid() && numBits <= 24
      modifies this`pos, this`fed, this`numBits, this`codeBuffer
      ensures BitsValid() && At() == old(At()) && 24 < numBits
    {
      hide Low;
      hide Drop;
      hide Shl;
      ghost var at := At();
      var first := true;
      while first || numBits <= 24
        invariant BitsValid() && At() == at
        invariant first ==> numBits <= 24
        decreases if first then 1 else 0, 32 - numBits
      {
        first := false;
        assert codeBuffer < Pow2(numBits);
        ghost var fed0, nb := fed, numBits;
        var b := Get8();
        FillStep(Stream(), nb, at, fed0, b);
        codeBuffer := codeBuffer + Shl(b, numBits);
        numBits := numBits + 8;
      }
    }

    lemma BitsHere()
      requires BitsValid()
      ensures codeBuffer == Low(Drop(Stream(), At()), numBits) && At() >= 0 && numBits <= 32
    {
    }

    /** Take `n` bits off the buffer. */
    method Take(n: nat)
      requires BitsValid() && n <= numBits
      modifies this`numBits, this`codeBuffer
      ensures BitsValid() && At() == old(At()) + n
    {
      hide Low;
      hide Drop;
      DropLow(Drop(Stream(), At()), n, numBits);
      DropDrop(Stream(), At(), n);
      codeBuffer := Drop(codeBuffer, n);
      numBits := numBits - n;
    }

    /** stbi__zreceive */
    method Receive(n: nat) returns (k: nat)
      requires BitsValid() && n <= 24
      modifies this`pos, this`fed, this`numBits, this`codeBuffer
      ensures BitsValid() && At() == old(At()) + n
      ensures k == Low(Drop(Stream(), old(At())), n)
      ensures numBits <= (if old(numBits) < n then 32 else old(numBits)) - n
    {
      hide Low;
      hide Drop;
      if numBits < n {
        FillBits();
      }
      LowLow(Drop(Stream(), At()), n, numBits);
      k := Low(codeBuffer, n);
      Take(n);
    }

    /** stbi__zhuffman_decode_slowpath: no code of up to nine bits begins the stream.  The result is
        -1 when no code does. */
    method DecodeSlowPath(z: ZHuffman, ghost lens: seq<nat>) returns (r: int)
      requires BitsValid() && 16 <= numBits && z.Represents(lens)
      requires Code(codeBuffer, FAST_BITS) >= EndCode(lens, FAST_BITS)
      modifies this`numBits, this`codeBuffer
      ensures BitsValid()
      ensures match Decode(lens, Drop(Stream(), old(At())))
              case Symbol(s, k) => r == s && At() == old(At()) + k
              case NoCode => r == -1 && At() == old(At())
    {
      hide Low;
      hide Drop;
      hide Code;
      hide Decode;
      hide EndCode;
      hide FirstCode;
      hide LimitsUpTo;
      hide ValuesUpTo;
      hide FastUpTo;
      hide NotOversubscribed;
      ghost var v := Drop(Stream(), At());
      BitsHere();
      var cb := codeBuffer;
      CodeBits(cb, 16);
      var k := BitReverse(cb, 16);
      var s := FAST_BITS + 1;
      while k >= z.maxcode[s]
        invariant unchanged(this)
        invariant FAST_BITS < s <= 16
        invariant Code(cb, s - 1) >= EndCode(lens, s - 1)
        decreases 16 - s
      {
        LimitAt(z, lens, s, cb);
        s := s + 1;
      }
      LimitAt(z, lens, s, cb);
      if s == 16 {
        MissSlow(lens, v, numBits);
        return -1;
      }
      ghost var sym := HitSlow(lens, v, numBits, s);
      var b := Drop(k, 16 - s) - z.firstcode[s] + z.firstsymbol[s];
      ValueAt(z, lens, sym, b);
      assert z.size[b] == s;
      Take(s);
      r := z.value[b];
    }

    /** stbi__zhuffman_decode: takes the code that begins the stream, and only that. */
    method HuffmanDecode(z: ZHuffman, ghost lens: seq<nat>) returns (r: int)
      requires BitsValid() && z.Represents(lens)
      modifies this`pos, this`fed, this`numBits, this`codeBuffer
      ensures BitsValid()
      ensures match Decode(lens, Drop(Stream(), old(At())))
              case Symbol(s, k) => r == s && At() == old(At()) + k
              case NoCode => r == -1 && At() == old(At())
      ensures numBits <= (if old(numBits) < 16 then 32 else old(numBits))
    {
      hide Low;
      hide Drop;
      hide Code;
      hide Decode;
      hide EndCode;
      hide FirstCode;
      hide LimitsUpTo;
      hide ValuesUpTo;
      hide FastUpTo;
      hide NotOversubscribed;
      if numBits < 16 {
        FillBits();
      }
      ghost var v := Drop(Stream(), At());
      var f := Low(codeBuffer, FAST_BITS);
      LowLow(v, FAST_BITS, numBits);
      LowFast(v);
      var b := z.fast[f];
      FastAnswer(z, lens, v, f);
      if b != 0 {
        var s := b / 512;
        Take(s);
        return b % 512;
      }
      CodeOfLow(v, FAST_BITS, numBits);
      r := DecodeSlowPath(z, lens);
    }

    // ---------- output ----------

    ghost predicate OutValid()
      reads this
    {
      zout <= out.Length && (expandable ==> out.Length > 0)
      && out as object !in zlength.Repr() && out as object !in zdistance.Repr()
    }

    /** Whether `size` bytes of output fit, starting from a buffer of `room` bytes. */
    predicate Fits(room: nat, size: nat) {
      size <= room || (expandable && Grown(room, size) <= memory)
    }

    /** The buffer holds the output and is no larger than growing from `room` bytes has made it. */
    ghost predicate GrownFrom(room: nat, size: nat)
      reads this
    {
      && size <= out.Length == Grown(room, size) && (out.Length == room || (expandable && out.Length <= memory))
    }

    /** stbi__zexpand: let `n` more bytes fit behind the first `zo`, which are kept. */
    method Expand(zo: nat, n: nat) returns (ok: bool)
      requires OutValid() && zo <= out.Length < zo + n
      modifies this`zout, this`out
      ensures OutValid() && zout == zo && (ok <==> Fits(old(out.Length), zo + n))
      ensures out == old(out) || fresh(out)
      ensures !ok ==> out == old(out)
      ensures ok ==> GrownFrom(old(out.Length), zo + n) && out.Length >= old(out.Length) && out[..zo] == old(out[..zo])
    {
      zout := zo;
      if !expandable {
        return false;
      }
      var limit := out.Length;
      while zo + n > limit
        invariant limit >= out.Length && Grown(limit, zo + n) == Grown(out.Length, zo + n)
        decreases zo + n - limit
      {
        limit := 2 * limit;
      }
      if limit > memory {
        return false;
      }
      var q := new byte[limit];
      forall i | 0 <= i < out.Length {
        q[i] := out[i];
      }
      assert q[..zo] == out[..zo];
      out := q;
      ok := true;
    }

    /** Copy `len` bytes from `dist` back to position `zo`: a run of one byte, or byte by byte. */
    method CopyMatch(zo0: nat, len0: nat, dist: nat) returns (zo: nat)
      requires 1 <= dist <= zo0 && zo0 + len0 <= out.Length
      modifies out
      ensures zo == zo0 + len0 && out[..zo] == CopyBytes(old(out[..zo0]), len0, dist)
    {
      if dist == 1 {
        zo := RepeatByte(zo0, len0);
      } else {
        zo := CopyBack(zo0, len0, dist);
      }
    }

    method RepeatByte(zo0: nat, len0: nat) returns (zo: nat)
      requires 1 <= zo0 && zo0 + len0 <= out.Length
      modifies out
      ensures zo == zo0 + len0 && out[..zo] == CopyBytes(old(out[..zo0]), len0, 1)
    {
      hide CopyBytes;
      ghost var h := out[..zo0];
      zo := zo0;
      var len := len0;
      CopyNone(h, 1);
      var v := out[zo - 1];
      while len > 0
        invariant zo == zo0 + len0 - len
        invariant out[..zo] == CopyBytes(h, len0 - len, 1)
      {
        CopySnoc(h, len0 - len, 1);
        CopyRun(h, len0 - len, len0 - len);
        out[zo] := v;
        assert out[..zo + 1] == out[..zo] + [v];
        zo := zo + 1;
        len := len - 1;
      }
    }

    method CopyBack(zo0: nat, len0: nat, dist: nat) returns (zo: nat)
      requires 1 <= dist <= zo0 && zo0 + len0 <= out.Length
      modifies out
      ensures zo == zo0 + len0 && out[..zo] == CopyBytes(old(out[..zo0]), len0, dist)
    {
      hide CopyBytes;
      ghost var h := out[..zo0];
      zo := zo0;
      var len := len0;
      var p := zo - dist;
      CopyNone(h, dist);
      while len > 0
        invariant zo == zo0 + len0 - len && p == zo - dist
        invariant out[..zo] == CopyBytes(h, len0 - len, dist)
      {
        CopySnoc(h, len0 - len, dist);
        assert out[p] == out[..zo][p];
        out[zo] := out[p];
        assert out[..zo + 1] == out[..zo] + [out[zo]];
        zo := zo + 1;
        p := p + 1;
        len := len - 1;
      }
    }

    /** The length and the distance of a copy, after its length code `z`. */
    method ReceiveMatch(z: nat, ghost distlens: seq<nat>) returns (ok: bool, len: nat, dist: nat)
      requires BitsValid() && zdistance.Represents(distlens)
      requires END_OF_BLOCK < z && z - 257 < LENGTH_CODES
      requires var d := Decode(distlens, Drop(Stream(), At() + LengthExtra(z - 257))); d.Symbol? ==> d.sym < DIST_CODES
      modifies this`pos, this`fed, this`numBits, this`codeBuffer
      ensures BitsValid()
      ensures len == LengthBase(z - 257) + Low(Drop(Stream(), old(At())), LengthExtra(z - 257))
      ensures var at := old(At()) + LengthExtra(z - 257);
              match Decode(distlens, Drop(Stream(), at))
              case NoCode => !ok
              case Symbol(d, k) =>
                && ok && dist == DistBase(d) + Low(Drop(Stream(), at + k), DistExtra(d))
                && At() == at + k + DistExtra(d)
    {
      hide At;
      hide Pow2;
      hide Stream;
      hide Low;
      hide Drop;
      hide Decode;
      hide LengthBase;
      hide DistBase;
      hide LengthExtra;
      hide DistExtra;
      hide LimitsUpTo;
      hide ValuesUpTo;
      hide FastUpTo;
      hide ValidLengths;
      hide NotOversubscribed;
      var i := z - 257;
      LengthTables(i);
      var x := Receive(ZLENGTH_EXTRA[i]);
      len := ZLENGTH_BASE[i] + x;
      ok, dist := ReceiveDist(distlens);
    }

    /** The distance of a copy. */
    method ReceiveDist(ghost distlens: seq<nat>) returns (ok: bool, dist: nat)
      requires BitsValid() && zdistance.Represents(distlens)
      requires var d := Decode(distlens, Drop(Stream(), At())); d.Symbol? ==> d.sym < DIST_CODES
      modifies this`pos, this`fed, this`numBits, this`codeBuffer
      ensures BitsValid()
      ensures match Decode(distlens, Drop(Stream(), old(At())))
              case NoCode => !ok
              case Symbol(d, k) =>
                && ok && dist == DistBase(d) + Low(Drop(Stream(), old(At()) + k), DistExtra(d))
                && At() == old(At()) + k + DistExtra(d)
    {
      hide Low;
      hide Drop;
      hide Decode;
      hide DistBase;
      hide DistExtra;
      hide LimitsUpTo;
      hide ValuesUpTo;
      hide FastUpTo;
      hide ValidLengths;
      hide NotOversubscribed;
      var d := HuffmanDecode(zdistance, distlens);
      if d < 0 {
        return false, 0;
      }
      DistTables(d);
      var x := Receive(ZDIST_EXTRA[d]);
      return true, ZDIST_BASE[d] + x;
    }

    /** The history grows by one token: a literal byte, or a copy. */
    method Emit(zo0: nat, z: int, len: nat, dist: nat) returns (ok: bool, zo: nat)
      requires OutValid() && zo0 <= out.Length && 0 <= z
      requires z >= 256 ==> 1 <= dist
      modifies this`zout, this`out, out
      ensures OutValid() && (out == old(out) || fresh(out)) && zo <= out.Length
      ensures !expandable ==> out == old(out)
      ensures var h := old(out[..zo0]); var t := if z < 256 then Literal(z) else Copy(len, dist);
        && (ok <==> Applicable(h, t) && Fits(old(out.Length), |Apply(h, t)|))
        && (ok ==> out[..zo] == Apply(h, t) && GrownFrom(old(out.Length), zo))
      ensures !ok ==> out[..zo] == old(out[..zo0])
    {
      hide Grown;
      zo := zo0;
      ghost var h := out[..zo0];
      GrownEnough(out.Length, zo0 + (if z < 256 then 1 else len));
      if z < 256 {
        if zo >= out.Length {
          ok := Expand(zo, 1);
          if !ok {
            return false, zo;
          }
        }
        out[zo] := z;
        assert out[..zo + 1] == out[..zo] + [z];
        return true, zo + 1;
      }
      if zo < dist {
        return false, zo;
      }
      if zo + len > out.Length {
        ok := Expand(zo, len);
        if !ok {
          return false, zo;
        }
      }
      zo := CopyMatch(zo, len, dist);
      ok := true;
    }

    /** One token of a block: the literal or length symbol `z`, or -1 for a bad code. */
    method NextToken(ghost litlens: seq<nat>, ghost distlens: seq<nat>) returns (z: int, len: nat, dist: nat)
      requires BitsValid() && zlength.Represents(litlens) && zdistance.Represents(distlens)
      requires DecodeStep(litlens, distlens, Drop(Stream(), At())) != Reserved
      modifies this`pos, this`fed, this`numBits, this`codeBuffer
      ensures BitsValid()
      ensures match DecodeStep(litlens, distlens, Drop(Stream(), old(At())))
              case Tok(t, bits) =>
                && 0 <= z != END_OF_BLOCK && (z > END_OF_BLOCK ==> dist >= 1 && len >= 3)
                && t == (if z < 256 then Literal(z) else Copy(len, dist)) && At() == old(At()) + bits
              case EndOfBlock(bits) => z == END_OF_BLOCK && At() == old(At()) + bits
              case BadCode => z < 0
              case Reserved => false
    {
      hide Low;
      hide Drop;
      hide Decode;
      hide DecodeStep;
      hide LengthBase;
      hide DistBase;
      hide LengthExtra;
      hide DistExtra;
      hide LimitsUpTo;
      hide ValuesUpTo;
      hide FastUpTo;
      hide ValidLengths;
      hide NotOversubscribed;
      ghost var v := Drop(Stream(), At());
      StepCases(litlens, distlens, v);
      len, dist := 0, 0;
      z := HuffmanDecode(zlength, litlens);
      if z > END_OF_BLOCK {
        ghost var v1, v2 := MatchStep(litlens, distlens, v);
        ghost var at, i := old(At()), LengthExtra(z - 257);
        ghost var k := Decode(litlens, v).len;
        DropDrop(Stream(), at, k);
        DropDrop(Stream(), at, k + i);
        DropDrop(Stream(), at, k + i + (if Decode(distlens, v1).Symbol? then Decode(distlens, v1).len else 0));
        var ok;
        ok, len, dist := ReceiveMatch(z, distlens);
        if !ok {
          z := -1;
        }
      }
    }

    /** A block whose meaning is needed to the end: what is reserved comes only behind output that fits. */
    ghost predicate Specified(b: BlockResult, h: seq<byte>, room: nat) {
      b.Unspecified? && Valid(h, b.toks) ==> !Fits(room, |Deflate.Expand(h, b.toks)|)
    }

    /** The tokens `done`, of `consumed` bits, have been applied to the output `h`; `b` is what the block
        that begins at `at0` decodes to. */
    ghost predicate Decoding(litlens: seq<nat>, distlens: seq<nat>, b: BlockResult, h: seq<byte>, at0: int, room: nat,
                             done: seq<Token>, consumed: nat, zo: nat)
      requires at0 >= 0
      reads this, out
    {
      && GrownFrom(room, zo) && Valid(h, done) && out[..zo] == Deflate.Expand(h, done) && At() == at0 + consumed
      && b == After(done, consumed, DecodeBlock(litlens, distlens, Drop(Stream(), at0 + consumed)))
    }

    /** Decode one token and apply it. */
    method Token(zo0: nat, ghost litlens: seq<nat>, ghost distlens: seq<nat>, ghost b: BlockResult, ghost h: seq<byte>,
                 ghost at0: int, ghost room: nat, ghost done0: seq<Token>, ghost consumed0: nat)
      returns (go: bool, ok: bool, zo: nat, ghost done: seq<Token>, ghost consumed: nat)
      requires BitsValid() && OutValid() && zlength.Represents(litlens) && zdistance.Represents(distlens) && at0 >= 0
      requires Decoding(litlens, distlens, b, h, at0, room, done0, consumed0, zo0) && Specified(b, h, room)
      modifies this`pos, this`fed, this`numBits, this`codeBuffer, this`zout, this`out, out
      ensures BitsValid() && OutValid() && (out == old(out) || fresh(out)) && (!expandable ==> out == old(out))
      ensures go ==> Decoding(litlens, distlens, b, h, at0, room, done, consumed, zo) && zo0 < zo
      ensures !go && ok ==>
                && b.Done? && Valid(h, b.toks) && Fits(room, |Deflate.Expand(h, b.toks)|)
                && zo <= out.Length && out[..zo] == Deflate.Expand(h, b.toks) && At() == at0 + b.bits && GrownFrom(room, zo)
      ensures !go && !ok ==> !(b.Done? && Valid(h, b.toks) && Fits(room, |Deflate.Expand(h, b.toks)|))
    {
      hide Pow2;
      hide BytesVal;
      hide Low;
      hide Drop;
      hide Decode;
      hide DecodeBlock;
      hide DecodeStep;
      hide Apply;
      hide Valid;
      hide Deflate.Expand;
      hide After;
      hide Applicable;
      hide LimitsUpTo;
      hide ValuesUpTo;
      hide FastUpTo;
      hide ValidLengths;
      hide NotOversubscribed;
      hide Grown;
      hide Fits;
      hide Specified;
      zo, done, consumed := zo0, done0, consumed0;
      ghost var cur := Drop(Stream(), at0 + consumed);
      AfterStep(litlens, distlens, cur, done, consumed);
      SpecifiedStep(b, h, done, room, zo);
      var z, len, dist := NextToken(litlens, distlens);
      if z < 0 {
        return false, false, zo, done, consumed;
      }
      if z == END_OF_BLOCK {
        return false, true, zo, done, consumed;
      }
      ghost var t, k: nat := DecodeStep(litlens, distlens, cur).t, DecodeStep(litlens, distlens, cur).bits;
      ExpandSnoc(h, done, t);
      TokenFits(h, done, t, consumed + k, DecodeBlock(litlens, distlens, Drop(cur, k)), room, zo);
      ok, zo := Emit(zo, z, len, dist);
      if !ok {
        return false, false, zo, done, consumed;
      }
      DropDrop(Stream(), at0 + consumed, k);
      done, consumed := done + [t], consumed + k;
      go := true;
    }

    /** stbi__parse_huffman_block: decodes the tokens of a block and applies them to the output, until
        the end of the block. */
    method ParseHuffmanBlock(ghost litlens: seq<nat>, ghost distlens: seq<nat>) returns (ok: bool)
      requires BitsValid() && OutValid() && zlength.Represents(litlens) && zdistance.Represents(distlens)
      requires Specified(DecodeBlock(litlens, distlens, Drop(Stream(), At())), out[..zout], out.Length)
      modifies this`pos, this`fed, this`numBits, this`codeBuffer, this`zout, this`out, out
      ensures BitsValid() && OutValid() && (out == old(out) || fresh(out))
      ensures !expandable ==> out == old(out)
      ensures var h := old(out[..zout]); var b := DecodeBlock(litlens, distlens, Drop(Stream(), old(At())));
        && (ok <==> b.Done? && Valid(h, b.toks) && Fits(old(out.Length), |Deflate.Expand(h, b.toks)|))
        && (ok ==> out[..zout] == Deflate.Expand(h, b.toks) && At() == old(At()) + b.bits && GrownFrom(old(out.Length), zout))
    {
      hide Pow2;
      hide BytesVal;
      hide Low;
      hide Drop;
      hide DecodeBlock;
      hide Valid;
      hide Deflate.Expand;
      hide After;
      hide LimitsUpTo;
      hide ValuesUpTo;
      hide FastUpTo;
      hide ValidLengths;
      hide NotOversubscribed;
      hide Grown;
      hide Fits;
      hide Specified;
      ghost var h, at0, room := out[..zout], At(), out.Length;
      ghost var b := DecodeBlock(litlens, distlens, Drop(Stream(), at0));
      ghost var done, consumed: nat := [], 0;
      Nothing(h, Drop(Stream(), at0), b);
      GrownEnough(room, zout);
      var zo: nat := zout;
      var go := true;
      ok := true;
      while go
        invariant BitsValid() && OutValid() && (out == old(out) || fresh(out)) && (!expandable ==> out == old(out))
        invariant zlength.Represents(litlens) && zdistance.Represents(distlens)
        invariant if go then Decoding(litlens, distlens, b, h, at0, room, done, consumed, zo)
                  else if ok then
                    && b.Done? && Valid(h, b.toks) && Fits(room, |Deflate.Expand(h, b.toks)|)
                    && zo <= out.Length && out[..zo] == Deflate.Expand(h, b.toks) && At() == at0 + b.bits && GrownFrom(room, zo)
                  else !(b.Done? && Valid(h, b.toks) && Fits(room, |Deflate.Expand(h, b.toks)|))
        decreases go, (if room < memory then memory else room) - zo
      {
        go, ok, zo, done, consumed := Token(zo, litlens, distlens, b, h, at0, room, done, consumed);
      }
      if ok {
        zout := zo;
      }
    }

    lemma SpecifiedStep(b: BlockResult, h: seq<byte>, done: seq<Token>, room: nat, zo: nat)
      requires Specified(b, h, room) && Valid(h, done) && |Deflate.Expand(h, done)| == zo && GrownFrom(room, zo)
      ensures b != Unspecified(done) && Fits(room, zo)
    {
      hide Grown;
      GrownEnough(room, zo);
    }

    /** If the rest of a block is to be decoded and to fit, so is its next token. */
    lemma TokenFits(h: seq<byte>, done: seq<Token>, t: Token, k: nat, rest: BlockResult, room: nat, zo: nat)
      requires Valid(h, done) && |Deflate.Expand(h, done)| == zo && GrownFrom(room, zo) && (t.Copy? ==> t.len >= 3)
      ensures var b, o := After(done + [t], k, rest), Deflate.Expand(h, done);
        && (Applicable(o, t) ==> zo < |Apply(o, t)| && Grown(out.Length, |Apply(o, t)|) == Grown(room, |Apply(o, t)|))
        && ((b.Done? || b.Unspecified?) && Valid(h, b.toks) && Fits(room, |Deflate.Expand(h, b.toks)|) ==>
              Applicable(o, t) && Fits(out.Length, |Apply(o, t)|))
    {
      hide Grown;
      hide Fits;
      hide Apply;
      var b, o := After(done + [t], k, rest), Deflate.Expand(h, done);
      TokenNeeded(h, done, t, k, rest);
      TokenGrows(o, t);
      if Applicable(o, t) {
        FitsAgain(room, zo, |Apply(o, t)|);
        if (b.Done? || b.Unspecified?) && Valid(h, b.toks) {
          FitsMono(room, |Apply(o, t)|, |Deflate.Expand(h, b.toks)|);
        }
      }
    }

    // ---------- stored blocks ----------

    /** Discard the bits up to the next byte boundary. */
    method DiscardBits()
      requires BitsValid()
      modifies this`pos, this`fed, this`numBits, this`codeBuffer
      ensures BitsValid() && At() == Align(old(At())) && numBits % 8 == 0 && numBits <= old(numBits)
    {
      hide BitsValid;
      hide BytesVal;
      hide Low;
      hide Drop;
      if numBits % 8 != 0 {
        var x := Receive(numBits % 8);
      }
    }

    /** The first `|header|` bytes of a header that begins at `at`. */
    ghost predicate HeaderBytes(header: seq<byte>, at: nat) {
      forall i: nat {:trigger header[i]} :: i < |header| ==> header[i] == Low(Drop(Stream(), at + 8 * i), 8)
    }

    /** Drain the bit-packed bytes: at most three are in the bit buffer. */
    method DrainBits() returns (header: seq<byte>)
      requires BitsValid() && numBits % 8 == 0 && numBits <= 24
      modifies this`numBits, this`codeBuffer
      ensures BitsValid() && numBits == 0 && |header| <= 3 && At() == old(At()) + 8 * |header|
      ensures HeaderBytes(header, old(At()))
    {
      hide Low;
      hide Drop;
      ghost var at := At();
      ghost var left := numBits / 8;
      header := [];
      while numBits > 0
        invariant BitsValid() && numBits == 8 * left && |header| + left <= 3 && At() == at + 8 * |header|
        invariant HeaderBytes(header, at)
        decreases numBits
      {
        LowLow(Drop(Stream(), At()), 8, numBits);
        LowByte(codeBuffer);
        var b := Low(codeBuffer, 8);
        header := header + [b];
        Take(8);
        left := left - 1;
      }
    }

    /** The four bytes of the header. */
    method StoredHeader() returns (header: seq<byte>)
      requires BitsValid() && numBits % 8 == 0 && numBits <= 24
      modifies this`pos, this`fed, this`numBits, this`codeBuffer
      ensures BitsValid() && numBits == 0 && At() == old(At()) + 32 && |header| == 4
      ensures HeaderBytes(header, old(At()))
    {
      hide Low;
      hide Drop;
      ghost var at := At();
      header := DrainBits();
      while |header| < 4
        invariant BitsValid() && numBits == 0 && |header| <= 4 && At() == at + 8 * |header|
        invariant HeaderBytes(header, at)
      {
        var b := Get8();
        header := header + [b];
        NoBitsLeft(Drop(Stream(), At()));
      }
    }

    /** The length of a stored block, and its complement. */
    method StoredLengths() returns (len: nat, nlen: nat)
      requires BitsValid() && numBits <= 30
      modifies this`pos, this`fed, this`numBits, this`codeBuffer
      ensures BitsValid() && numBits == 0 && At() == Align(old(At())) + 32 && len <= 0xffff
      ensures len == Low(Drop(Stream(), Align(old(At()))), 16) && nlen == Low(Drop(Stream(), Align(old(At())) + 16), 16)
    {
      hide Low;
      hide Drop;
      hide Align;
      hide Pow2;
      hide BytesVal;
      DiscardBits();
      ghost var a := At();
      var header := StoredHeader();
      len := (header[1] as int) * 256 + header[0];
      nlen := (header[3] as int) * 256 + header[2];
      Sixteen(Stream(), a);
      Sixteen(Stream(), a + 16);
      assert header[0] == Low(Drop(Stream(), a + 8 * 0), 8) && header[1] == Low(Drop(Stream(), a + 8 * 1), 8);
      assert header[2] == Low(Drop(Stream(), a + 8 * 2), 8) && header[3] == Low(Drop(Stream(), a + 8 * 3), 8);
    }

    /** Copy `len` bytes of the input to the output. */
    method CopyStored(len: nat)
      requires BitsValid() && OutValid() && numBits == 0 && fed + len <= |zbuffer| && zout + len <= out.Length
      modifies this`pos, this`fed, this`zout, out
      ensures BitsValid() && OutValid() && numBits == 0 && At() == old(At()) + 8 * len
      ensures out[..zout] == old(out[..zout]) + zbuffer[old(fed)..old(fed) + len]
    {
      hide Low;
      hide Drop;
      ghost var h := out[..zout];
      forall i | 0 <= i < len {
        out[zout + i] := zbuffer[pos + i];
      }
      assert out[..zout + len] == h + zbuffer[pos..pos + len];
      NoBitsLeft(Drop(Stream(), At() + 8 * len));
      pos := pos + len;
      fed := fed + len;
      zout := zout + len;
    }

    /** stbi__parse_uncomperssed_block */
    method ParseUncompressedBlock() returns (ok: bool)
      requires BitsValid() && OutValid() && numBits <= 30
      modifies this`pos, this`fed, this`numBits, this`codeBuffer, this`zout, this`out, out
      ensures BitsValid() && OutValid() && (out == old(out) || fresh(out))
      ensures !expandable ==> out == old(out)
      ensures var s := Stored(zbuffer, old(At()), old(out[..zout]));
        && (ok <==> s.Finished? && Fits(old(out.Length), |s.out|))
        && (ok ==> out[..zout] == s.out && At() == s.at && GrownFrom(old(out.Length), zout))
    {
      hide Grown;
      hide Pow2;
      hide BytesVal;
      hide Low;
      hide Drop;
      hide Align;
      ghost var a := Align(At());
      AlignBytes(At());
      var len, nlen := StoredLengths();
      if nlen != 0xffff - len {
        return false;
      }
      PastEnd(a, len, nlen);
      if pos + len > |zbuffer| {
        return false;
      }
      GrownEnough(out.Length, zout + len);
      if zout + len > out.Length {
        ok := Expand(zout, len);
        if !ok {
          return false;
        }
      }
      CopyStored(len);
      ok := true;
    }

    /** A header that is read past the end of the input is not accepted. */
    lemma PastEnd(a: nat, len: nat, nlen: nat)
      requires BitsValid() && numBits == 0 && At() == a + 32 && a % 8 == 0
      requires nlen == Low(Drop(Stream(), a + 16), 16) == 0xffff - len
      ensures fed == a / 8 + 4
      ensures pos + len > |zbuffer| <==> fed + len > |zbuffer|
    {
      hide Low;
      hide Drop;
      Sixteen(Stream(), a + 16);
      ByteAt(zbuffer, a / 8 + 3);
      LowByte(Drop(Stream(), a + 16));
    }

    // ---------- dynamic codes ----------

    ghost predicate TablesValid() {
      && zlength.Allocated() && zdistance.Allocated() && zlength.Repr() !! zdistance.Repr()
    }

    /** The lengths of the code length codes. */
    method ReceiveSizes(hclen: nat) returns (sizes: seq<nat>)
      requires BitsValid() && hclen <= 19
      modifies this`pos, this`fed, this`numBits, this`codeBuffer
      ensures BitsValid() && At() == old(At()) + 3 * hclen
      ensures sizes == CodeLengthSizes(zbuffer, old(At()), hclen)
      ensures ValidLengths(sizes)
    {
      hide Low;
      hide Drop;
      ghost var at := At();
      sizes := seq(19, _ => 0);
      for i := 0 to hclen
        invariant BitsValid() && At() == at + 3 * i
        invariant sizes == CodeLengthSizes(zbuffer, at, i) && ValidLengths(sizes)
      {
        var s := Receive(3);
        LowThree(Drop(Stream(), at + 3 * i));
        sizes := sizes[ORDER[i] := s];
      }
    }

    /** The code lengths of both codes, with their repetitions, into an array with room for 455: the result
        says how many. */
    method ReceiveLengths(z: ZHuffman, lencodes: array<nat>, need: nat, ghost sizes: seq<nat>) returns (ok: bool, n: nat)
      requires BitsValid() && z.Represents(sizes) && |sizes| == 19 && lencodes !in z.Repr() && lencodes.Length == MAX_LENGTHS
      requires var r := ReadLengths(sizes, zbuffer, At(), need, []); r != NoPrevious && r != TooMany
      modifies this`pos, this`fed, this`numBits, this`codeBuffer, lencodes
      ensures BitsValid() && n <= MAX_LENGTHS
      ensures var r := ReadLengths(sizes, zbuffer, old(At()), need, []);
        && ok == r.Lengths?
        && (ok ==> lencodes[..n] == r.lens && At() == r.at && ValidLengths(lencodes[..n]))
    {
      hide Low;
      hide Drop;
      hide Decode;
      hide LimitsUpTo;
      hide ValuesUpTo;
      hide FastUpTo;
      hide NotOversubscribed;
      hide ReadLengths;
      hide RunOf;
      hide RunBits;
      hide Pow2;
      hide BytesVal;
      ghost var r := ReadLengths(sizes, zbuffer, At(), need, []);
      n := 0;
      assert lencodes[..0] == [];
      while n < need
        invariant BitsValid() && z.Represents(sizes) && n <= MAX_LENGTHS && ValidLengths(lencodes[..n])
        invariant r == ReadLengths(sizes, zbuffer, At(), need, lencodes[..n])
        decreases need - n
      {
        ghost var at := At();
        SymbolRange(sizes, Drop(Stream(), at));
        LengthsStep(sizes, zbuffer, at, need, lencodes[..n]);
        var c := HuffmanDecode(z, sizes);
        if c < 0 {
          return false, n;
        }
        DropDrop(Stream(), at, At() - at);
        n := AppendRun(c, lencodes, n);
      }
      LengthsDone(sizes, zbuffer, At(), need, lencodes[..n]);
      ok := true;
    }

    /** One code length, or a repetition. */
    method AppendRun(c: nat, lencodes: array<nat>, n0: nat) returns (n: nat)
      requires BitsValid() && c < 19 && n0 <= lencodes.Length && ValidLengths(lencodes[..n0]) && (c == 16 ==> n0 > 0)
      requires n0 + |RunOf(c, lencodes[..n0], Drop(Stream(), At()))| <= lencodes.Length
      modifies this`pos, this`fed, this`numBits, this`codeBuffer, lencodes
      ensures BitsValid() && n0 < n <= lencodes.Length && ValidLengths(lencodes[..n])
      ensures lencodes[..n] == old(lencodes[..n0]) + RunOf(c, old(lencodes[..n0]), Drop(Stream(), old(At())))
      ensures At() == old(At()) + RunBits(c)
    {
      hide Low;
      hide Drop;
      var x, len := 0, 1;
      if c < 16 {
        x := c;
      } else if c == 16 {
        len := Receive(2);
        x, len := lencodes[n0 - 1], len + 3;
      } else if c == 17 {
        len := Receive(3);
        len := len + 3;
      } else {
        len := Receive(7);
        len := len + 11;
      }
      ghost var before := lencodes[..n0];
      forall i | n0 <= i < n0 + len {
        lencodes[i] := x;
      }
      n := n0 + len;
      assert lencodes[..n] == before + Repeat(x, len);
    }

    /** How many lengths of each kind follow. */
    method ReceiveCounts() returns (hlit: nat, hdist: nat, hclen: nat)
      requires BitsValid()
      modifies this`pos, this`fed, this`numBits, this`codeBuffer
      ensures BitsValid() && At() == old(At()) + 14
      ensures var v := Stream(); var at := old(At());
        hlit == Low(Drop(v, at), 5) + 257 && hdist == Low(Drop(v, at + 5), 5) + 1 && hclen == Low(Drop(v, at + 10), 4) + 4
      ensures hlit <= MAX_SYMBOLS && hdist <= MAX_SYMBOLS && hclen <= 19
    {
      hide Low;
      hide Drop;
      ghost var at := At();
      CountsFit(Drop(Stream(), at), Drop(Stream(), at + 5), Drop(Stream(), at + 10));
      hlit := Receive(5);
      hlit := hlit + 257;
      hdist := Receive(5);
      hdist := hdist + 1;
      hclen := Receive(4);
      hclen := hclen + 4;
    }

    /** Build the tables of both codes. */
    method BuildBoth(lencodes: seq<nat>, hlit: nat) returns (ok: bool)
      requires TablesValid() && hlit <= |lencodes| && hlit <= MAX_SYMBOLS && |lencodes| <= hlit + MAX_SYMBOLS && ValidLengths(lencodes)
      modifies zlength.Repr(), zdistance.Repr()
      ensures ok <==> NotOversubscribed(lencodes[..hlit]) && NotOversubscribed(lencodes[hlit..])
      ensures ok ==> zlength.Represents(lencodes[..hlit]) && zdistance.Represents(lencodes[hlit..])
    {
      hide LimitsUpTo;
      hide ValuesUpTo;
      hide FastUpTo;
      hide NotOversubscribed;
      ok := zlength.Build(lencodes[..hlit]);
      if !ok {
        return;
      }
      ok := zdistance.Build(lencodes[hlit..]);
    }

    /** Everything in the header of a dynamic block: the lengths of both codes. */
    method ReceiveHeader() returns (ok: bool, lencodes: seq<nat>, hlit: nat, hdist: nat)
      requires BitsValid() && ReadHeader(zbuffer, At()) != UnspecifiedHeader
      modifies this`pos, this`fed, this`numBits, this`codeBuffer
      ensures BitsValid() && hlit <= MAX_SYMBOLS && hdist <= MAX_SYMBOLS
      ensures !ok ==> ReadHeader(zbuffer, old(At())).BadHeader?
      ensures ok ==> At() >= 0 && ValidLengths(lencodes)
      ensures ok ==> ReadHeader(zbuffer, old(At())) == SplitLengths(Lengths(lencodes, At()), hlit, hdist)
    {
      hide At;
      hide BitsValid;
      hide Low;
      hide Drop;
      hide LimitsUpTo;
      hide ValuesUpTo;
      hide FastUpTo;
      hide NotOversubscribed;
      hide ReadLengths;
      hide CodeLengthSizes;
      hlit, hdist := 0, 0;
      lencodes := [];
      var lens := new nat[MAX_LENGTHS];
      var hclen;
      hlit, hdist, hclen := ReceiveCounts();
      var sizes := ReceiveSizes(hclen);
      var z := new ZHuffman();
      ok := z.Build(sizes);
      if ok {
        var n;
        ok, n := ReceiveLengths(z, lens, hlit + hdist, sizes);
        lencodes := lens[..n];
      }
    }

    /** stbi__compute_huffman_codes */
    method ComputeHuffmanCodes() returns (ok: bool)
      requires BitsValid() && TablesValid() && ReadHeader(zbuffer, At()) != UnspecifiedHeader
      modifies this`pos, this`fed, this`numBits, this`codeBuffer, zlength.Repr(), zdistance.Repr()
      ensures BitsValid()
      ensures var h := ReadHeader(zbuffer, old(At()));
        && ok == h.Codes?
        && (ok ==> zlength.Represents(h.litlens) && zdistance.Represents(h.distlens) && At() == h.at)
    {
      hide Low;
      hide Drop;
      hide LimitsUpTo;
      hide ValuesUpTo;
      hide FastUpTo;
      hide NotOversubscribed;
      hide ReadHeader;
      var lencodes, hlit, hdist;
      ok, lencodes, hlit, hdist := ReceiveHeader();
      if !ok || |lencodes| != hlit + hdist {
        return false;
      }
      ok := BuildBoth(lencodes, hlit);
    }

    // ---------- streams ----------

    ghost predicate AllValid()
      reads this
    {
      BitsValid() && OutValid() && TablesValid()
    }

    /** What a decoder reports for a result: success exactly when the result is output that fits. */
    ghost predicate Reports(ok: bool, r: Stream.Result, room: nat)
      reads this, out
      requires OutValid()
    {
      && (ok <==> r.Finished? && Fits(room, |r.out|))
      && (ok ==> out[..zout] == r.out && At() == r.at && GrownFrom(room, zout))
    }

    /** Nothing without a meaning is come to before room runs out. */
    ghost predicate HasMeaning(r: Stream.Result, room: nat) {
      r.NotSpecified? ==> !Fits(room, |r.out|)
    }

    /** A block with the codes of `litlens` and `distlens`. */
    method ParseCompressed(ghost litlens: seq<nat>, ghost distlens: seq<nat>) returns (ok: bool)
      requires AllValid() && zlength.Represents(litlens) && zdistance.Represents(distlens)
      requires HasMeaning(Compressed(zbuffer, At(), litlens, distlens, out[..zout]), out.Length)
      modifies this`pos, this`fed, this`numBits, this`codeBuffer, this`zout, this`out, out
      ensures AllValid() && (out == old(out) || fresh(out)) && (!expandable ==> out == old(out))
      ensures Reports(ok, Compressed(zbuffer, old(At()), litlens, distlens, old(out[..zout])), old(out.Length))
    {
      hide Low;
      hide Drop;
      hide DecodeBlock;
      hide Valid;
      hide Deflate.Expand;
      hide LimitsUpTo;
      hide ValuesUpTo;
      hide FastUpTo;
      hide NotOversubscribed;
      hide Grown;
      ok := ParseHuffmanBlock(litlens, distlens);
    }

    /** A block of the given kind, after its header. */
    method ParseBlock(kind: nat) returns (ok: bool)
      requires AllValid() && kind < 4 && numBits <= 30
      requires HasMeaning(Block(zbuffer, At(), kind, out[..zout]), out.Length)
      modifies this`pos, this`fed, this`numBits, this`codeBuffer, this`zout, this`out, out, zlength.Repr(), zdistance.Repr()
      ensures AllValid() && (out == old(out) || fresh(out)) && (!expandable ==> out == old(out))
      ensures Reports(ok, Block(zbuffer, old(At()), kind, old(out[..zout])), old(out.Length))
    {
      hide Low;
      hide Drop;
      hide Stored;
      hide Compressed;
      hide ReadHeader;
      hide LimitsUpTo;
      hide ValuesUpTo;
      hide FastUpTo;
      hide EndCode;
      hide Grown;
      if kind == 0 {
        ok := ParseUncompressedBlock();
      } else if kind == 3 {
        return false;
      } else if kind == 1 {
        FixedCodes();
        ok := zlength.Build(FixedLit());
        if !ok {
          return;
        }
        ok := zdistance.Build(FixedDist());
        if !ok {
          return;
        }
        ok := ParseCompressed(FixedLit(), FixedDist());
      } else {
        ghost var h := ReadHeader(zbuffer, At());
        ok := ComputeHuffmanCodes();
        if !ok {
          return;
        }
        ok := ParseCompressed(h.litlens, h.distlens);
      }
    }

    /** A block with its header. */
    method ParseNext() returns (final: bool, ok: bool)
      requires AllValid() && HasMeaning(BlockAt(zbuffer, At(), out[..zout]), out.Length)
      modifies this`pos, this`fed, this`numBits, this`codeBuffer, this`zout, this`out, out, zlength.Repr(), zdistance.Repr()
      ensures AllValid() && (out == old(out) || fresh(out)) && (!expandable ==> out == old(out))
      ensures final == IsFinal(zbuffer, old(At()))
      ensures Reports(ok, BlockAt(zbuffer, old(At()), old(out[..zout])), old(out.Length))
    {
      hide Pow2;
      hide BytesVal;
      hide Low;
      hide Drop;
      hide Block;
      hide Reports;
      hide Grown;
      TwoBits(Drop(Stream(), At()), Drop(Stream(), At() + 1));
      var last := Receive(1);
      final := last == 1;
      var kind := Receive(2);
      ok := ParseBlock(kind);
    }

    /** stbi__parse_zlib: decodes a whole stream. */
    method ParseZlib(parseHeader: bool) returns (ok: bool)
      requires AllValid() && At() == 0 && fed == 0
      requires parseHeader ==> ZlibHeader(zbuffer) ==> HasMeaning(Inflate(zbuffer, 16, out[..zout]), out.Length)
      requires !parseHeader ==> HasMeaning(Inflate(zbuffer, 0, out[..zout]), out.Length)
      modifies this`pos, this`fed, this`numBits, this`codeBuffer, this`zout, this`out, out, zlength.Repr(), zdistance.Repr()
      ensures AllValid() && (out == old(out) || fresh(out))
      ensures parseHeader && !ZlibHeader(zbuffer) ==> !ok
      ensures !parseHeader || ZlibHeader(zbuffer) ==>
                Reports(ok, Inflate(zbuffer, if parseHeader then 16 else 0, old(out[..zout])), old(out.Length))
    {
      hide Low;
      hide Drop;
      hide Inflate;
      hide BlockAt;
      hide IsFinal;
      hide Grown;
      hide Fits;
      if parseHeader {
        ok := ParseZlibHeader();
        if !ok {
          return;
        }
      }
      ghost var h, room := out[..zout], out.Length;
      ghost var whole := Inflate(zbuffer, At(), h);
      GrownEnough(room, zout);
      var final := false;
      ok := true;
      while !final
        invariant AllValid() && (out == old(out) || fresh(out)) && (!expandable ==> out == old(out))
        invariant ok && GrownFrom(room, zout)
        invariant if final then Reports(ok, whole, room) else whole == Inflate(zbuffer, At(), out[..zout])
        decreases !final, 8 * |zbuffer| - At()
      {
        InflateNext(zbuffer, At(), out[..zout]);
        BlockGrows(zbuffer, At(), out[..zout]);
        ghost var b := BlockAt(zbuffer, At(), out[..zout]);
        if b.Finished? || b.NotSpecified? {
          FitsAgain(room, zout, |b.out|);
        }
        ghost var size := if whole.Finished? then |whole.out| else 0;
        ghost var part := if b.Finished? then |b.out| else 0;
        FitsMono(room, part, size);
        final, ok := ParseNext();
        if !ok {
          return;
        }
      }
    }

    /** What fits a grown buffer fits the buffer it has grown from. */
    lemma FitsAgain(room: nat, size: nat, n: nat)
      requires GrownFrom(room, size) && size <= n
      ensures Grown(out.Length, n) == Grown(room, n) && (Fits(out.Length, n) <==> Fits(room, n))
    {
      hide Grown;
      GrownTwice(room, size, n);
      GrownEnough(room, size);
      GrownEnough(out.Length, n);
      GrownEnough(room, n);
    }

    lemma FitsMono(room: nat, m: nat, n: nat)
      ensures m <= n && Fits(room, n) ==> Fits(room, m)
    {
      hide Grown;
      if m <= n {
        GrownMono(room, m, n);
      }
    }

    /** stbi__parse_zlib_header */
    method ParseZlibHeader() returns (ok: bool)
      requires BitsValid() && At() == 0 && fed == 0
      modifies this`pos, this`fed
      ensures ok == ZlibHeader(zbuffer)
      ensures BitsValid() && At() == 16
    {
      hide Low;
      hide Drop;
      NoBitsLeft(Drop(Stream(), 16));
      ByteAt(zbuffer, 0);
      ByteAt(zbuffer, 1);
      var cmf: int := Get8();
      var flg: int := Get8();
      if (cmf * 256 + flg) % 31 != 0 {
        return false;
      }
      if flg / 32 % 2 != 0 {
        return false;
      }
      if cmf % 16 != 8 {
        return false;
      }
      ok := true;
    }
  }

  lemma TwoBits(a: nat, b: nat)
    ensures Low(a, 1) < 2 && Low(b, 2) < 4
  {
    SmallPowers();
  }

  lemma LowThree(v: nat)
    ensures Low(v, 3) <= MAX_BITS
  {
    SmallPowers();
  }

  lemma CountsFit(a: nat, b: nat, c: nat)
    ensures Low(a, 5) + 257 <= MAX_SYMBOLS && Low(b, 5) + 1 <= MAX_SYMBOLS && Low(c, 4) + 4 <= 19
  {
    SmallPowers();
  }

  lemma SymbolRange(lens: seq<nat>, v: nat)
    requires ValidLengths(lens)
    ensures Decode(lens, v).Symbol? ==> Decode(lens, v).sym < |lens|
  {
    if Decode(lens, v).Symbol? {
      DecodeIff(lens, v, Decode(lens, v).sym, Decode(lens, v).len);
    }
  }

  lemma AlignBytes(at: nat)
    ensures Align(at) % 8 == 0
  {
  }

  lemma LowByte(v: nat)
    ensures Low(v, 8) < 256
  {
    SmallPowers();
  }

  lemma NoBitsLeft(v: nat)
    ensures Low(v, 0) == 0
  {
  }

  /** Two bytes, the low one first. */
  lemma Sixteen(v: nat, a: nat)
    ensures Low(Drop(v, a), 16) == Low(Drop(v, a), 8) + 256 * Low(Drop(v, a + 8), 8)
  {
    LowAppend(Drop(v, a), 8, 8);
    DropDrop(v, a, 8);
    SmallPowers();
    ShlIsProduct(Low(Drop(v, a + 8), 8), 8);
  }

  lemma Nothing(h: seq<byte>, v: nat, b: BlockResult)
    ensures Valid(h, []) && Deflate.Expand(h, []) == h && Drop(v, 0) == v && After([], 0, b) == b
  {
    AfterNothing(b);
  }

  lemma StepCases(litlens: seq<nat>, distlens: seq<nat>, v: nat)
    ensures match Decode(litlens, v)
            case NoCode => DecodeStep(litlens, distlens, v) == BadCode
            case Symbol(s, k) =>
              && (s < 256 ==> DecodeStep(litlens, distlens, v) == Tok(Literal(s), k))
              && (s == 256 ==> DecodeStep(litlens, distlens, v) == EndOfBlock(k))
    ensures DecodeStep(litlens, distlens, v).Tok? && DecodeStep(litlens, distlens, v).t.Copy? ==>
              DecodeStep(litlens, distlens, v).t.dist >= 1 && DecodeStep(litlens, distlens, v).t.len >= 3
  {
    hide Decode;
    hide Low;
    hide Drop;
    hide LengthBase;
    if DecodeStep(litlens, distlens, v).Tok? && DecodeStep(litlens, distlens, v).t.Copy? {
      var k := Decode(litlens, v).len + LengthExtra(Decode(litlens, v).sym - 257);
      DistPositive(Decode(distlens, Drop(v, k)).sym);
      LengthAtLeast(Decode(litlens, v).sym - 257);
    }
  }

  lemma {:induction false} LengthAtLeast(i: nat)
    ensures LengthBase(i) >= 3
  {
    if 0 < i < 28 {
      LengthAtLeast(i - 1);
    }
  }

  lemma {:induction false} DistPositive(i: nat)
    ensures DistBase(i) >= 1
  {
    if i > 0 {
      DistPositive(i - 1);
    }
  }

  /** The parts of a copy token: `v1` is the stream after the length, `v2` after the distance code. */
  lemma MatchStep(litlens: seq<nat>, distlens: seq<nat>, v: nat) returns (v1: nat, v2: nat)
    requires Decode(litlens, v).Symbol? && Decode(litlens, v).sym > END_OF_BLOCK
    requires DecodeStep(litlens, distlens, v) != Reserved
    ensures Decode(litlens, v).sym - 257 < LENGTH_CODES
    ensures v1 == Drop(v, Decode(litlens, v).len + LengthExtra(Decode(litlens, v).sym - 257))
    ensures Decode(distlens, v1).NoCode? ==> DecodeStep(litlens, distlens, v) == BadCode
    ensures Decode(distlens, v1).Symbol? ==>
              var k, i, k', d := Decode(litlens, v).len, Decode(litlens, v).sym - 257, Decode(distlens, v1).len, Decode(distlens, v1).sym;
              var bits := k + LengthExtra(i);
              && d < DIST_CODES && v2 == Drop(v, bits + k')
              && DecodeStep(litlens, distlens, v)
                 == Tok(Copy(LengthBase(i) + Low(Drop(v, k), LengthExtra(i)), DistBase(d) + Low(v2, DistExtra(d))),
                        bits + k' + DistExtra(d))
  {
    hide Decode;
    hide Low;
    hide Drop;
    hide LengthBase;
    hide DistBase;
    hide LengthExtra;
    hide DistExtra;
    var z, k := Decode(litlens, v).sym, Decode(litlens, v).len;
    v1 := Drop(v, k + LengthExtra(z - 257));
    v2 := 0;
    if Decode(distlens, v1).Symbol? {
      v2 := Drop(v, k + LengthExtra(z - 257) + Decode(distlens, v1).len);
    }
  }

  /** A block whose next token cannot be applied, or does not fit, cannot be decoded. */
  lemma TokenNeeded(h: seq<byte>, done: seq<Token>, t: Token, k: nat, rest: BlockResult)
    requires Valid(h, done)
    ensures var b := After(done + [t], k, rest);
      (b.Done? || b.Unspecified?) && Valid(h, b.toks) ==>
        Applicable(Deflate.Expand(h, done), t) && |Apply(Deflate.Expand(h, done), t)| <= |Deflate.Expand(h, b.toks)|
  {
    hide Apply;
    var b := After(done + [t], k, rest);
    if (b.Done? || b.Unspecified?) && Valid(h, b.toks) {
      var n := |done| + 1;
      assert b.toks[..n] == done + [t];
      ExpandLength(h, b.toks, n);
      ExpandSnoc(h, done, t);
    }
  }

  lemma TokenGrows(h: seq<byte>, t: Token)
    requires t.Copy? ==> t.len >= 3
    ensures Applicable(h, t) ==> |Apply(h, t)| > |h|
  {
  }

  lemma LengthsDone(sizes: seq<nat>, input: seq<byte>, at: nat, need: nat, acc: seq<nat>)
    requires need <= |acc| <= MAX_LENGTHS
    ensures ReadLengths(sizes, input, at, need, acc) == Lengths(acc, at)
  {
  }

  /** One more symbol, and there is room for it, unless there are too many. */
  lemma LengthsStep(sizes: seq<nat>, input: seq<byte>, at: nat, need: nat, acc: seq<nat>)
    requires |acc| <= MAX_LENGTHS && |acc| < need
    ensures var d := Decode(sizes, Drop(BytesVal(input), at)); var r := ReadLengths(sizes, input, at, need, acc);
      if d.NoCode? then r == BadLengths
      else r != NoPrevious ==>
        && (d.sym == 16 ==> acc != [])
        && var acc' := acc + RunOf(d.sym, acc, Drop(Drop(BytesVal(input), at), d.len));
        && r == ReadLengths(sizes, input, at + d.len + RunBits(d.sym), need, acc')
        && (|acc'| > MAX_LENGTHS ==> r == TooMany)
  {
    hide Low;
    hide Drop;
    hide Decode;
  }

  const ZLENGTH_BASE: seq<nat> := [
    3, 4, 5, 6, 7, 8, 9, 10, 11, 13,
    15, 17, 19, 23, 27, 31, 35, 43, 51, 59,
    67, 83, 99, 115, 131, 163, 195, 227, 258, 0, 0]

  const ZLENGTH_EXTRA: seq<nat> := [
    0, 0, 0, 0, 0, 0, 0, 0, 1, 1, 1, 1, 2, 2, 2, 2, 3, 3, 3, 3, 4, 4, 4, 4, 5, 5, 5, 5, 0, 0, 0]

  const ZDIST_BASE: seq<nat> := [
    1, 2, 3, 4, 5, 7, 9, 13, 17, 25, 33, 49, 65, 97, 129, 193,
    257, 385, 513, 769, 1025, 1537, 2049, 3073, 4097, 6145, 8193, 12289, 16385, 24577, 0, 0]

  const ZDIST_EXTRA: seq<nat> := [
    0, 0, 0, 0, 1, 1, 2, 2, 3, 3, 4, 4, 5, 5, 6, 6, 7, 7, 8, 8, 9, 9, 10, 10, 11, 11, 12, 12, 13, 13, 0, 0]

  lemma LengthTables(i: nat)
    requires i < LENGTH_CODES
    ensures ZLENGTH_BASE[i] == LengthBase(i) && ZLENGTH_EXTRA[i] == LengthExtra(i) <= 13
  {
    hide LengthBase;
    LengthBaseTable(i);
    assert ZLENGTH_BASE[..29] == LENGTH_BASE;
    if i < 8 {} else if i < 12 {} else if i < 16 {} else if i < 20 {} else if i < 24 {} else if i < 28 {}
  }

  lemma DistTables(i: nat)
    requires i < DIST_CODES
    ensures ZDIST_BASE[i] == DistBase(i) && ZDIST_EXTRA[i] == DistExtra(i) <= 13
  {
    hide DistBase;
    DistBaseTable(i);
    assert ZDIST_BASE[..30] == DIST_BASE;
    if i < 4 {} else if i < 8 {} else if i < 12 {} else if i < 16 {} else if i < 20 {} else if i < 24 {} else if i < 28 {}
  }

  lemma CopyNone(out: seq<byte>, dist: nat)
    requires 1 <= dist <= |out|
    ensures CopyBytes(out, 0, dist) == out
  {
  }

  lemma LowFast(v: nat)
    ensures Low(v, FAST_BITS) < FAST_SIZE
  {
    SmallPowers();
  }

  /** An entry of the fast table is the answer; an empty entry means that no short code begins the
      stream. */
  lemma FastAnswer(z: ZHuffman, lens: seq<nat>, v: nat, f: nat)
    requires z.Represents(lens) && f == Low(v, FAST_BITS) && f < FAST_SIZE
    ensures z.fast[f] != 0 ==> z.fast[f] / 512 <= FAST_BITS && Decode(lens, v) == Symbol(z.fast[f] % 512, z.fast[f] / 512)
    ensures z.fast[f] == 0 ==> Code(v, FAST_BITS) >= EndCode(lens, FAST_BITS)
  {
    hide LimitsUpTo;
    hide ValuesUpTo;
    hide Low;
    hide Code;
    hide Decode;
    hide EndCode;
    hide FirstCode;
    assert z.fast[..][f] == z.fast[f];
    if z.fast[f] != 0 {
      var s :| 0 <= s < |lens| && IsFast(lens, s, f);
      CodeOfLow(v, lens[s], FAST_BITS);
      DecodeHit(lens, v, s);
    }
    if Code(v, FAST_BITS) < EndCode(lens, FAST_BITS) {
      var s := FastSymbol(lens, v);
      assert IsFast(lens, s, f);
    }
  }

  /** A stream within the codes of up to nine bits begins with one of them. */
  lemma FastSymbol(lens: seq<nat>, v: nat) returns (s: nat)
    requires Code(v, FAST_BITS) < EndCode(lens, FAST_BITS)
    ensures s < |lens| && IsFast(lens, s, Low(v, FAST_BITS))
  {
    var m := FindLength(lens, v, FAST_BITS);
    CodeOfLow(v, m, FAST_BITS);
    s := SymbolWithin(lens, m, Code(v, m));
  }

  lemma MissSlow(lens: seq<nat>, v: nat, n: nat)
    requires 16 <= n && Code(Low(v, n), 15) >= EndCode(lens, 15)
    ensures Decode(lens, v) == NoCode
  {
    CodeOfLow(v, 15, n);
    DecodeMiss(lens, v);
  }

  /** A stream past the codes of `s - 1` bits and within those of `s` bits has a code of `s` bits. */
  lemma HitSlow(lens: seq<nat>, v: nat, n: nat, s: nat) returns (sym: nat)
    requires 16 <= n && 2 <= s <= 15
    requires Code(Low(v, n), s - 1) >= EndCode(lens, s - 1) && Code(Low(v, n), s) < EndCode(lens, s)
    ensures sym < |lens| && lens[sym] == s && Decode(lens, v) == Symbol(sym, s)
    ensures Slot(lens, sym) == Code(Low(v, n), s) - FirstCode(lens, s) + Offset(lens, s)
  {
    hide Code;
    hide Decode;
    hide Low;
    NextFirst(lens, Low(v, n), s);
    CodeOfLow(v, s, n);
    sym := SymbolOfRank(lens, s, Code(v, s) - FirstCode(lens, s));
    DecodeHit(lens, v, sym);
  }

  lemma CodeBits(c: nat, k: nat)
    ensures Code(c, k) == BitReverse(c, k)
    ensures k == 16 ==> Code(c, k) < 0x10000
  {
    SmallPowers();
  }

  lemma NextFirst(lens: seq<nat>, v: nat, s: nat)
    requires s >= 2 && Code(v, s - 1) >= EndCode(lens, s - 1)
    ensures Code(v, s) >= FirstCode(lens, s)
  {
    CodeSnoc(v, s - 1);
  }

  /** The left-aligned limit of the codes of `s` bits. */
  lemma LimitAt(z: ZHuffman, lens: seq<nat>, s: nat, c: nat)
    requires z.Represents(lens) && 1 <= s <= 16
    ensures s == 16 ==> z.maxcode[s] == 0x10000
    ensures s < 16 ==> (Code(c, 16) < z.maxcode[s] <==> Code(c, s) < EndCode(lens, s))
    ensures s < 16 ==> Drop(Code(c, 16), 16 - s) == Code(c, s)
    ensures s < 16 ==> z.firstcode[s] == FirstCode(lens, s) && z.firstsymbol[s] == Offset(lens, s)
  {
    hide ValuesUpTo;
    hide FastUpTo;
    hide Code;
    hide EndCode;
    hide FirstCode;
    if s < 16 {
      CodeBelow(c, s, 16 - s, EndCode(lens, s));
      assert z.maxcode[..][s] == z.maxcode[s] && z.firstcode[..][s] == z.firstcode[s] && z.firstsymbol[..][s] == z.firstsymbol[s];
    }
  }

  lemma ValueAt(z: ZHuffman, lens: seq<nat>, s: nat, b: int)
    requires z.Represents(lens) && s < |lens| && lens[s] > 0 && b == Slot(lens, s)
    ensures 0 <= b < z.size.Length && 0 <= b < z.value.Length && z.size[b] == lens[s] && z.value[b] == s
  {
    hide LimitsUpTo;
    hide FastUpTo;
    assert z.size[..][b] == z.size[b] && z.value[..][b] == z.value[b];
  }
}
