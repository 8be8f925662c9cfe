/** The LZW decoder for GIF images in DuiLib/Utils/stb_image.c, against Appendix F of the GIF89a
    specification.  The decoder keeps each string as a link to a shorter one and a last byte; the
    specification keeps the strings.
  */
module GifLzw {
  import opened Bits
  import opened GifSpec

  // ---------- the data ----------

  /** The byte at a position, and zero after the end. */
  function ByteOf(input: seq<byte>, pos: nat): byte {
    if pos < |input| then input[pos] else 0
  }

  function Chunk(input: seq<byte>, pos: nat, n: nat): (r: seq<byte>)
    ensures |r| == n
    decreases n
  {
    if n == 0 then [] else [ByteOf(input, pos)] + Chunk(input, pos + 1, n - 1)
  }

  /** The data of all sub-blocks from a position on, up to the block without data. */
  function Data(input: seq<byte>, pos: nat): seq<byte>
    decreases |input| - pos
  {
    if ByteOf(input, pos) == 0 then []
    else Chunk(input, pos + 1, input[pos]) + Data(input, pos + 1 + input[pos])
  }

  /** What is left of the data when `len` bytes are left of the sub-block. */
  function Rest(input: seq<byte>, pos: nat, len: nat): seq<byte> {
    Chunk(input, pos, len) + Data(input, pos + len)
  }

  /** After the end of the input it does not matter where. */
  lemma {:induction false} RestBeyond(input: seq<byte>, pos: nat, len: nat)
    requires pos >= |input|
    ensures Rest(input, pos, len) == Rest(input, pos + 1, len)
    decreases len
  {
    if len > 0 {
      RestBeyond(input, pos + 1, len - 1);
      assert Rest(input, pos, len) == [0] + Rest(input, pos + 1, len - 1);
      assert Rest(input, pos + 1, len) == [0] + Rest(input, pos + 2, len - 1);
    }
  }

  lemma RestByte(input: seq<byte>, pos: nat, len: nat)
    requires len > 0
    ensures Rest(input, pos, len) == [ByteOf(input, pos)] + Rest(input, pos + 1, len - 1)
    ensures pos >= |input| ==> Rest(input, pos, len) == [ByteOf(input, pos)] + Rest(input, pos, len - 1)
  {
    if pos >= |input| {
      RestBeyond(input, pos, len - 1);
    }
  }

  lemma RestBlock(input: seq<byte>, pos: nat)
    ensures Rest(input, pos, 0) == if ByteOf(input, pos) == 0 then [] else Rest(input, pos + 1, input[pos])
  {
    assert Rest(input, pos, 0) == Data(input, pos);
  }

  /** Where the sub-blocks from a position on end, after the block without data. */
  function EndOf(input: seq<byte>, pos: nat): nat
    decreases |input| - pos
  {
    if pos >= |input| then |input|
    else if input[pos] == 0 then pos + 1
    else EndOf(input, pos + 1 + input[pos])
  }

  /** The reader is there, or somewhere after the end of the input. */
  predicate Stands(input: seq<byte>, pos: nat, end: nat) {
    pos == end || (end == |input| && pos >= |input|)
  }

  // ---------- the table ----------

  /** stbi__gif_lzw */
  datatype Entry = Entry(prefix: int, first: byte, suffix: byte)

  /** The entry `i` stands for the string `dict[i]`. */
  ghost predicate StandsFor(cs: nat, e: Entry, dict: seq<seq<byte>>, i: nat)
    requires i < |dict|
  {
    && dict[i] != [] && e.first == dict[i][0]
    && -1 <= e.prefix < i
    && (e.prefix < 0 ==> dict[i] == [e.suffix])
    && (e.prefix >= 0 ==> IsString(cs, e.prefix) && dict[i] == dict[e.prefix] + [e.suffix])
  }

  ghost predicate Table(cs: nat, codes: seq<Entry>, dict: seq<seq<byte>>) {
    && |dict| <= |codes| == TABLE_SIZE
    && (forall i: nat {:trigger StandsFor(cs, codes[i], dict, i)} :: i < |dict| && IsString(cs, i) ==> StandsFor(cs, codes[i], dict, i))
  }

  class Gif {
    const input: seq<byte>
    var pos: nat
    const codes: array<Entry>
    var out: seq<byte>

    constructor (bytes: seq<byte>)
      ensures input == bytes && pos == 0 && codes.Length == TABLE_SIZE && fresh(codes) && out == []
    {
      input, pos, out := bytes, 0, [];
      codes := new Entry[TABLE_SIZE];
    }

    /** stbi__get8 */
    method Get8() returns (b: byte)
      modifies this`pos
      ensures b == ByteOf(input, old(pos))
      ensures pos == if old(pos) < |input| then old(pos) + 1 else old(pos)
    {
      if pos < |input| {
        b := input[pos];
        pos := pos + 1;
      } else {
        b := 0;
      }
    }

    /** stbi__out_gif_code: the bytes of a string, first the prefix. */
    method OutCode(code: nat, ghost cs: nat, ghost dict: seq<seq<byte>>)
      requires Table(cs, codes[..], dict) && code < |dict| && IsString(cs, code)
      modifies this`out
      ensures out == old(out) + dict[code]
      decreases code
    {
      assert StandsFor(cs, codes[..][code], dict, code);
      if codes[code].prefix >= 0 {
        OutCode(codes[code].prefix, cs, dict);
      }
      out := out + [codes[code].suffix];
    }

    /** The strings of one byte. */
    method Init(cs: nat)
      requires 2 <= cs <= 8 && codes.Length == TABLE_SIZE
      modifies codes
      ensures Pow2(cs) <= 256 && Table(cs, codes[..], Start(cs).dict)
    {
      CodeSizes(cs);
      var code := 0;
      while code < Pow2(cs)
        invariant code <= Pow2(cs) && forall i {:trigger codes[i]} :: 0 <= i < code ==> codes[i] == Entry(-1, i, i)
      {
        codes[code] := Entry(-1, code, code);
        code := code + 1;
      }
      RootsStand(cs, codes[..]);
    }

    /** A new entry: the string before, and one more byte. */
    method Add(avail: nat, oldcode: nat, code: nat, ghost cs: nat, ghost st: Lzw)
      requires Valid(cs, st) && Table(cs, codes[..], st.dict) && codes.Length == TABLE_SIZE && avail == |st.dict| < TABLE_SIZE
      requires oldcode == st.prev && code <= avail && IsString(cs, code)
      modifies codes
      ensures StepOf(cs, st, code, false).Emit? && Table(cs, codes[..], StepOf(cs, st, code, false).next.dict)
    {
      hide Pow2;
      ghost var before := codes[..];
      assert StandsFor(cs, codes[..][oldcode], st.dict, oldcode);
      if code < avail {
        assert StandsFor(cs, codes[..][code], st.dict, code);
      }
      codes[avail] := codes[avail].(prefix := oldcode);
      codes[avail] := codes[avail].(first := codes[oldcode].first);
      // the count has grown by now, so that the code is never equal to it, and its first byte, which has
      // just been set when it is the new entry, is always taken
      assert code != avail + 1;
      codes[avail] := codes[avail].(suffix := codes[code].first);
      Grown(cs, before, codes[..], st, code);
    }

    /** The decoder has taken `at` bits of the data, and has `validBits` more in the buffer; it is `len`
        bytes from the end of the sub-block. */
    ghost predicate Reading(data: seq<byte>, at: nat, bits: nat, validBits: nat, len: nat)
      reads this`pos
    {
      && (at + validBits) % 8 == 0 && (at + validBits) / 8 <= |data|
      && bits == Low(Drop(BytesVal(data), at), validBits)
      && data[(at + validBits) / 8..] == Rest(input, pos, len)
    }

    /** One more byte into the buffer; false when there is none. */
    method FillBits(bits0: nat, validBits0: nat, len0: nat, ghost data: seq<byte>, ghost at: nat)
      returns (ok: bool, bits: nat, validBits: nat, len: nat)
      requires Reading(data, at, bits0, validBits0, len0)
      modifies this`pos
      ensures if ok then Reading(data, at, bits, validBits, len) && validBits == validBits0 + 8 else at + validBits0 == 8 * |data|
      ensures if ok then EndOf(input, pos + len) == EndOf(input, old(pos) + len0) else Stands(input, pos, EndOf(input, old(pos) + len0))
    {
      hide Low;
      hide Drop;
      hide BytesVal;
      hide BitOr;
      hide Shl;
      hide Rest;
      ok, bits, validBits, len := true, bits0, validBits0, len0;
      ghost var k := (at + validBits) / 8;
      if len == 0 {
        // start new block
        RestBlock(input, pos);
        len := Get8();
        if len == 0 {
          ok := false;
          return;
        }
      }
      RestByte(input, pos, len);
      len := len - 1;
      var b := Get8();
      assert data[k] == data[k..][0] == b && data[k + 1..] == data[k..][1..];
      ByteAt(data, k);
      DropDrop(BytesVal(data), at, validBits);
      OrBits(Drop(BytesVal(data), at), validBits, validBits, 8);
      bits := BitOr(bits, Shl(b, validBits));
      validBits := validBits + 8;
    }

    /** Skip the rest of the sub-block and all others. */
    method SkipBlocks(len0: nat)
      modifies this`pos
      ensures Stands(input, pos, EndOf(input, old(pos) + len0))
    {
      pos := pos + len0;
      var len := Get8();
      while len > 0
        invariant if len > 0 then EndOf(input, pos + len) == EndOf(input, old(pos) + len0) else Stands(input, pos, EndOf(input, old(pos) + len0))
        invariant len > 0 ==> pos <= |input|
        decreases |input| + 1 - pos, len
      {
        pos := pos + len;
        len := Get8();
      }
    }

    /** The next code; it has `codesize` bits. */
    method TakeCode(bits0: nat, validBits0: nat, codesize: nat, ghost len: nat, ghost data: seq<byte>, ghost at: nat)
      returns (code: nat, bits: nat, validBits: nat)
      requires Reading(data, at, bits0, validBits0, len) && codesize <= validBits0
      ensures code == Low(Drop(BytesVal(data), at), codesize)
      ensures Reading(data, at + codesize, bits, validBits, len) && validBits == validBits0 - codesize
    {
      hide Low;
      hide Drop;
      hide BytesVal;
      hide Rest;
      ghost var s := Drop(BytesVal(data), at);
      LowLow(s, codesize, validBits0);
      DropLow(s, codesize, validBits0);
      DropDrop(BytesVal(data), at, codesize);
      code := Low(bits0, codesize);
      bits := Drop(bits0, codesize);
      validBits := validBits0 - codesize;
    }

    /** What a code that is neither the clear code nor the end code does; false when it is illegal. */
    method TakeString(avail0: nat, oldcode0: int, codesize0: nat, first: bool, code: nat, ghost cs: nat, ghost st: Lzw)
      returns (ok: bool, avail: nat, oldcode: int, codesize: nat)
      requires Valid(cs, st) && Table(cs, codes[..], st.dict) && codes.Length == TABLE_SIZE && IsString(cs, code)
      requires avail0 == |st.dict| && oldcode0 == st.prev && codesize0 == st.width
      modifies codes, this`out
      ensures ok <==> !first && StepOf(cs, st, code, false).Emit?
      ensures !ok ==> out == old(out)
      ensures ok ==>
                var step := StepOf(cs, st, code, false);
                && out == old(out) + step.s && Table(cs, codes[..], step.next.dict)
                && avail == |step.next.dict| && oldcode == step.next.prev && codesize == step.next.width
    {
      hide Pow2;
      hide StandsFor;
      ok, avail, oldcode, codesize := false, avail0, oldcode0, codesize0;
      if code > avail || first {
        return;
      }
      if oldcode >= 0 {
        avail := avail + 1;
        if avail > TABLE_SIZE {
          return;
        }
        Add(avail0, oldcode, code, cs, st);
      } else if code == avail {
        return;
      }
      Emitted(cs, st, code);
      OutCode(code, cs, StepOf(cs, st, code, false).next.dict);
      WidthGrows(cs, st, code);
      if avail % Pow2(codesize) == 0 && avail <= 0x0FFF {
        codesize := codesize + 1;
      }
      oldcode := code;
      ok := true;
    }

    /** stbi__process_gif_raster: decode the raster data. */
    method ProcessRaster() returns (r: Raster)
      requires codes.Length == TABLE_SIZE
      // code sizes 2 to 8 are those of the specification
      requires 2 <= ByteOf(input, pos) <= 8 || ByteOf(input, pos) > 12
      modifies this`pos, this`out, codes
      ensures ByteOf(input, old(pos)) > 12 ==> r == NoImage && out == old(out)
      ensures ByteOf(input, old(pos)) <= 12 ==>
                var d := Shown(ByteOf(input, old(pos)), Data(input, old(pos) + 1), false);
                out == old(out) + d.0 && r == if d.1 == Corrupt then Error else Image
      // and this is what Appendix F shows exactly when few codes come between clear codes
      ensures ByteOf(input, old(pos)) <= 12 ==>
                var cs, data := ByteOf(input, old(pos)), Data(input, old(pos) + 1); var d := Shown(cs, data, true);
                FewCodesIn(cs, data) <==> out == old(out) + d.0 && r == if d.1 == Corrupt then Error else Image
      // after an image the input stands behind its data
      ensures r == Image ==> Stands(input, pos, EndOf(input, old(pos) + 1))
    {
      hide Shown;
      hide FewCodesIn;
      hide Data;
      hide EndOf;
      var lzwCs := Get8();
      if lzwCs > 12 {
        return NoImage;
      }
      r := DecodeRaster(lzwCs);
    }

    method DecodeRaster(lzwCs: nat) returns (r: Raster)
      requires codes.Length == TABLE_SIZE && 2 <= lzwCs <= 8
      modifies this`pos, this`out, codes
      ensures var d := Shown(lzwCs, Data(input, old(pos)), false);
        out == old(out) + d.0 && r == if d.1 == Corrupt then Error else Image
      ensures var d := Shown(lzwCs, Data(input, old(pos)), true);
        FewCodesIn(lzwCs, Data(input, old(pos))) <==> out == old(out) + d.0 && r == if d.1 == Corrupt then Error else Image
      ensures r == Image ==> Stands(input, pos, EndOf(input, old(pos)))
    {
      hide Pow2;
      hide StandsFor;
      hide Decode;
      hide Low;
      hide Drop;
      hide BytesVal;
      hide Rest;
      hide StepOf;
      hide Table;
      hide Valid;
      hide Start;
      hide Data;
      hide EndOf;
      hide Shown;
      hide Roots;
      hide FewCodesIn;
      ghost var cs := lzwCs;
      StartValid(cs);
      Init(lzwCs);
      var clear := Pow2(lzwCs);
      var first := true;
      var codesize: nat, bits: nat, validBits: nat := lzwCs + 1, 0, 0;
      var avail: nat, oldcode: int, len: nat := clear + 2, -1, 0;
      ghost var data, v := Data(input, pos), BytesVal(Data(input, pos));
      ghost var at: nat, st := 0, Start(cs);
      ghost var done: seq<byte> := [];
      AtStart(cs, input, pos, done);
      ShownIff(cs, data);
      while true
        invariant Reading(data, at, bits, validBits, len)
        invariant Valid(cs, st) && Table(cs, codes[..], st.dict)
        invariant avail == |st.dict| && oldcode == st.prev && codesize == st.width >= 1
        invariant out == old(out) + done && EndOf(input, pos + len) == EndOf(input, old(pos))
        invariant Shown(cs, data, false) == Behind(done, Decode(cs, st, !first, Drop(v, at), 8 * |data| - at, false))
        decreases 8 * |data| - at, 8 * |data| - at - validBits
      {
        if validBits < codesize {
          var ok;
          ok, bits, validBits, len := FillBits(bits, validBits, len, data, at);
          if !ok {
            NoMore(cs, st, !first, Drop(v, at), 8 * |data| - at);
            return Image;
          }
        } else {
          var code;
          code, bits, validBits := TakeCode(bits, validBits, codesize, len, data, at);
          NextCode(cs, st, !first, v, at, 8 * |data|, code, done);
          at := at + codesize;
          if code == clear {
            codesize, avail, oldcode, first := lzwCs + 1, clear + 2, -1, false;
            KeepRoots(cs, codes[..], st);
            st := Start(cs);
          } else if code == clear + 1 {
            SkipBlocks(len);
            return Image;
          } else {
            var ok;
            ok, avail, oldcode, codesize := TakeString(avail, oldcode, codesize, first, code, cs, st);
            if !ok {
              return Error;
            }
            done := done + StepOf(cs, st, code, false).s;
            st := StepOf(cs, st, code, false).next;
          }
        }
      }
    }
  }

  lemma KeepRoots(cs: nat, codes: seq<Entry>, st: Lzw)
    requires Valid(cs, st) && Table(cs, codes, st.dict)
    ensures Table(cs, codes, Start(cs).dict) && Valid(cs, Start(cs)) && |Start(cs).dict| == Pow2(cs) + 2
  {
    hide Pow2;
    StartValid(cs);
    var d := Start(cs).dict;
    assert d == st.dict[..|d|];
    forall i: nat {:trigger StandsFor(cs, codes[i], d, i)} | i < |d| && IsString(cs, i) ensures StandsFor(cs, codes[i], d, i) {
      assert StandsFor(cs, codes[i], st.dict, i);
    }
  }

  lemma AtStart(cs: nat, input: seq<byte>, pos: nat, done: seq<byte>)
    requires 2 <= cs <= 8 && done == []
    ensures var data, v := Data(input, pos), BytesVal(Data(input, pos));
      && data[0..] == Rest(input, pos, 0) && Low(Drop(v, 0), 0) == 0
      && Pow2(cs) <= 256 && Valid(cs, Start(cs)) && |Start(cs).dict| == Pow2(cs) + 2 && Start(cs).prev == -1 && Start(cs).width == cs + 1
      && Shown(cs, data, false) == Behind(done, Decode(cs, Start(cs), false, Drop(v, 0), 8 * |data| - 0, false))
  {
    StartValid(cs);
    var data, v := Data(input, pos), BytesVal(Data(input, pos));
    assert Drop(v, 0) == v;
    var r := Decode(cs, Start(cs), false, v, 8 * |data|, false);
    assert [] + r.0 == r.0;
  }

  lemma NoMore(cs: nat, st: Lzw, started: bool, v: nat, n: nat)
    requires Valid(cs, st) && n < st.width
    ensures Decode(cs, st, started, v, n, false) == ([], OutOfData)
  {
  }

  lemma NextCode(cs: nat, st: Lzw, started: bool, v: nat, at: nat, total: nat, code: nat, done: seq<byte>)
    requires Valid(cs, st) && at + st.width <= total && code == Low(Drop(v, at), st.width)
    ensures 2 <= cs <= 8 && Pow2(cs) <= 256 && Valid(cs, Start(cs))
    ensures StepOf(cs, st, code, false).Clear? <==> code == Pow2(cs)
    ensures StepOf(cs, st, code, false).Stop? <==> code == Pow2(cs) + 1
    ensures var r, v', n' := Behind(done, Decode(cs, st, started, Drop(v, at), total - at, false)), Drop(v, at + st.width), total - at - st.width;
      match StepOf(cs, st, code, false)
      case Clear => r == Behind(done, Decode(cs, Start(cs), true, v', n', false))
      case Stop => r == (done, Complete)
      case Bad => r == (done, Corrupt)
      case Emit(s, next) =>
        if started then Valid(cs, next) && next.width >= 1 && r == Behind(done + s, Decode(cs, next, true, v', n', false)) else r == (done, Corrupt)
  {
    hide StepOf;
    hide Valid;
    hide Low;
    hide Drop;
    hide Decode;
    hide Start;
    hide Behind;
    hide Pow2;
    StartOf(cs, st);
    StartValid(cs);
    DropDrop(v, at, st.width);
    StepKind(cs, st, code);
    if StepOf(cs, st, code, false).Emit? {
      AfterString(cs, st, started, v, at, total, code, done);
    } else {
      AfterOther(cs, st, started, v, at, total, code, done);
    }
  }

  lemma AfterOther(cs: nat, st: Lzw, started: bool, v: nat, at: nat, total: nat, code: nat, done: seq<byte>)
    requires Valid(cs, st) && at + st.width <= total && code == Low(Drop(v, at), st.width) && Drop(v, at + st.width) == Drop(Drop(v, at), st.width)
    requires Valid(cs, Start(cs)) && !StepOf(cs, st, code, false).Emit?
    ensures Behind(done, Decode(cs, st, started, Drop(v, at), total - at, false)) ==
            if StepOf(cs, st, code, false).Clear? then
              Behind(done, Decode(cs, Start(cs), true, Drop(v, at + st.width), total - at - st.width, false))
            else (done, if StepOf(cs, st, code, false).Stop? then Complete else Corrupt)
  {
    hide StepOf;
    hide Valid;
    hide Low;
    hide Drop;
    hide Start;
    assert done + [] == done;
  }

  lemma AfterString(cs: nat, st: Lzw, started: bool, v: nat, at: nat, total: nat, code: nat, done: seq<byte>)
    requires Valid(cs, st) && at + st.width <= total && code == Low(Drop(v, at), st.width) && Drop(v, at + st.width) == Drop(Drop(v, at), st.width)
    requires StepOf(cs, st, code, false).Emit?
    ensures var step := StepOf(cs, st, code, false);
      && Valid(cs, step.next) && step.next.width >= 1
      && Behind(done, Decode(cs, st, started, Drop(v, at), total - at, false)) ==
         if started then Behind(done + step.s, Decode(cs, step.next, true, Drop(v, at + st.width), total - at - st.width, false)) else (done, Corrupt)
  {
    hide StepOf;
    hide Valid;
    hide Low;
    hide Drop;
    hide Start;
    var step := StepOf(cs, st, code, false);
    StepValid(cs, st, code, false);
    StartOf(cs, step.next);
    assert done + [] == done;
    var r := Decode(cs, step.next, true, Drop(v, at + st.width), total - at - st.width, false);
    assert done + (step.s + r.0) == done + step.s + r.0;
  }

  lemma StepKind(cs: nat, st: Lzw, code: nat)
    requires Valid(cs, st)
    ensures StepOf(cs, st, code, false).Clear? <==> code == Pow2(cs)
    ensures StepOf(cs, st, code, false).Stop? <==> code == Pow2(cs) + 1
  {
  }

  /** The count is a multiple of the number of values of a code only when it is that number. */
  lemma WidthGrows(cs: nat, st: Lzw, code: nat)
    requires Valid(cs, st) && IsString(cs, code) && StepOf(cs, st, code, false).Emit?
    ensures var n, w := |StepOf(cs, st, code, false).next.dict|, st.width;
      StepOf(cs, st, code, false).next.width == if n % Pow2(w) == 0 && n <= 0x0FFF then w + 1 else w
  {
    hide Pow2;
    hide Start;
    StepWidth(cs, st, code);
    var n, w := |StepOf(cs, st, code, false).next.dict|, st.width;
    Multiples(n, Pow2(w));
    TwelveBits();
    if w < MAX_WIDTH {
      Pow2Mono(w, 11);
    }
  }

  lemma StepWidth(cs: nat, st: Lzw, code: nat)
    requires Valid(cs, st) && IsString(cs, code) && StepOf(cs, st, code, false).Emit?
    ensures var next := StepOf(cs, st, code, false).next;
      && 0 < |next.dict| <= Pow2(st.width) && st.width <= MAX_WIDTH
      && next.width == Widen(|next.dict|, st.width)
  {
    hide Start;
    CodeSizes(cs);
    TwelveBits();
    if st.prev < 0 {
      Pow2Mono(cs + 1, st.width);
    }
  }

  lemma Multiples(n: nat, m: nat)
    requires 0 < n <= m
    ensures n % m == 0 <==> n == m
  {
  }

  lemma TwelveBits()
    ensures Pow2(12) == 4096 && Pow2(11) == 2048
  {
    assert Pow2(6) == 64;
  }

  lemma Emitted(cs: nat, st: Lzw, code: nat)
    requires Valid(cs, st) && IsString(cs, code) && StepOf(cs, st, code, false).Emit?
    ensures var step := StepOf(cs, st, code, false); code < |step.next.dict| && step.next.dict[code] == step.s
  {
  }

  datatype Raster = NoImage | Image | Error

  /** A result that comes after the bytes `done`. */
  function Behind(done: seq<byte>, r: (seq<byte>, End)): (seq<byte>, End) {
    (done + r.0, r.1)
  }

  lemma RootsStand(cs: nat, codes: seq<Entry>)
    requires 2 <= cs <= 8 && Pow2(cs) <= 256 && |codes| == TABLE_SIZE
    requires forall i {:trigger codes[i]} :: 0 <= i < Pow2(cs) ==> codes[i] == Entry(-1, i, i)
    ensures Table(cs, codes, Start(cs).dict)
  {
    hide Pow2;
  }

  lemma Grown(cs: nat, codes: seq<Entry>, codes': seq<Entry>, st: Lzw, code: nat)
    requires Valid(cs, st) && Table(cs, codes, st.dict) && |st.dict| < TABLE_SIZE && |codes'| == TABLE_SIZE
    requires st.prev >= 0 && code <= |st.dict| && IsString(cs, code)
    requires forall i {:trigger codes'[i]} :: 0 <= i < TABLE_SIZE && i != |st.dict| ==> codes'[i] == codes[i]
    requires codes'[|st.dict|] == Entry(st.prev, codes[st.prev].first, (if code == |st.dict| then codes[st.prev].first else codes[code].first))
    ensures StepOf(cs, st, code, false).Emit? && Table(cs, codes', StepOf(cs, st, code, false).next.dict)
  {
    hide Pow2;
    var dict, dict', n := st.dict, StepOf(cs, st, code, false).next.dict, |st.dict|;
    assert StandsFor(cs, codes[st.prev], dict, st.prev);
    if code < n {
      assert StandsFor(cs, codes[code], dict, code);
    }
    forall i: nat {:trigger StandsFor(cs, codes'[i], dict', i)} | i < |dict'| && IsString(cs, i)
      ensures StandsFor(cs, codes'[i], dict', i)
    {
      if i < n {
        assert StandsFor(cs, codes[i], dict, i);
      }
    }
  }
}
