/** LZW encoding for GIF images, Appendix F of the GIF89a specification, and that the decoding of GifSpec gives the
    image back. */
module GifEncode {
  import opened Bits
  import opened GifSpec

  // ---------- the encoder ----------

  /** The table after a clear code: the strings of one index, and nothing for the clear code and the end code. */
  function Alphabet(cs: nat): (r: seq<seq<byte>>)
    requires Pow2(cs) <= 256
    ensures |r| == Pow2(cs) + 2
  {
    seq(Pow2(cs), i requires 0 <= i < Pow2(cs) => [i as byte]) + [[], []]
  }

  /** The code of a string. */
  function Find(table: seq<seq<byte>>, s: seq<byte>): (i: nat)
    requires s in table
    ensures i < |table| && table[i] == s
  {
    if table[|table| - 1] == s then |table| - 1 else Find(table[..|table| - 1], s)
  }

  /** How many codes have a meaning for the decoder when `k` string codes have come since the last clear code. */
  function Known(cs: nat, k: nat): nat {
    var n := Pow2(cs) + 2 + if k == 0 then 0 else k - 1;
    if n < TABLE_SIZE then n else TABLE_SIZE
  }

  /** The least width from `w` on, twelve at most, in which `n` can be written. */
  function WidthFor(n: nat, w: nat): nat
    decreases MAX_WIDTH - w
  {
    if w >= MAX_WIDTH || n < Pow2(w) then w else WidthFor(n, w + 1)
  }

  /** The width of a code after `k` string codes. */
  function CodeWidth(cs: nat, k: nat): nat {
    WidthFor(Known(cs, k), cs + 1)
  }

  /** The codes and their widths for the string `cur`, which is in the table, and the indices behind it: take the
      longest string in the table, and enter it with the next index.  The table is cleared after every `m` strings,
      and takes no more strings when it is full. */
  function EncodeFrom(cs: nat, m: nat, table: seq<seq<byte>>, cur: seq<byte>, rest: seq<byte>, k: nat): seq<(nat, nat)>
    requires Pow2(cs) <= 256 && cur in table && forall i :: 0 <= i < |rest| ==> rest[i] < Pow2(cs)
    requires forall b: byte {:trigger [b]} :: b < Pow2(cs) ==> [b] in table
    decreases |rest|
  {
    if rest == [] then [(Find(table, cur), CodeWidth(cs, k)), (Pow2(cs) + 1, CodeWidth(cs, k + 1))]
    else if cur + [rest[0]] in table then EncodeFrom(cs, m, table, cur + [rest[0]], rest[1..], k)
    else if k + 1 >= m then
      OneIndex(cs);
      [(Find(table, cur), CodeWidth(cs, k)), (Pow2(cs), CodeWidth(cs, k + 1))] + EncodeFrom(cs, m, Alphabet(cs), [rest[0]], rest[1..], 0)
    else
      [(Find(table, cur), CodeWidth(cs, k))] + EncodeFrom(cs, m, Entered(table, cur + [rest[0]]), [rest[0]], rest[1..], k + 1)
  }

  function Entered(table: seq<seq<byte>>, s: seq<byte>): (r: seq<seq<byte>>)
    ensures table <= r
  {
    if |table| < TABLE_SIZE then table + [s] else table
  }

  lemma OneIndex(cs: nat)
    requires Pow2(cs) <= 256
    ensures forall b: byte {:trigger [b]} :: b < Pow2(cs) ==> [b] in Alphabet(cs)
  {
    forall b: byte {:trigger [b]} | b < Pow2(cs) ensures [b] in Alphabet(cs) {
      assert Alphabet(cs)[b] == [b];
    }
  }

  /** An image: a clear code, the indices, and the end code. */
  function Encode(cs: nat, m: nat, image: seq<byte>): seq<(nat, nat)>
    requires Pow2(cs) <= 256 && forall i :: 0 <= i < |image| ==> image[i] < Pow2(cs)
  {
    OneIndex(cs);
    [(Pow2(cs), cs + 1)] +
    if image == [] then [(Pow2(cs) + 1, cs + 1)] else EncodeFrom(cs, m, Alphabet(cs), [image[0]], image[1..], 0)
  }

  /** The codes one after the other, the first in the lowest bits, and `tail` behind them. */
  function Pack(codes: seq<(nat, nat)>, tail: nat): nat {
    if codes == [] then tail else codes[0].0 + Shl(Pack(codes[1..], tail), codes[0].1)
  }

  function Size(codes: seq<(nat, nat)>): nat {
    if codes == [] then 0 else codes[0].1 + Size(codes[1..])
  }

  // ---------- widths ----------

  lemma Pow2Next(w: nat)
    ensures Pow2(w + 1) == 2 * Pow2(w) && Pow2(w) >= 1
  {
  }

  // ---------- encoder and decoder side by side ----------

  /** The decoder after `k` strings: it has all strings of the encoder but the last, which it completes with the
      first index of the next one. */
  ghost predicate Abreast(cs: nat, st: Lzw, table: seq<seq<byte>>, cur: seq<byte>, k: nat) {
    && Valid(cs, st) && cur != [] && cur in table && |table| <= TABLE_SIZE && |st.dict| == Known(cs, k) && st.width == CodeWidth(cs, k)
    && (if k == 0 then st.prev == -1 && st.dict == table
        else
          && 0 <= st.prev
          && (if |st.dict| < |table| then |table| == |st.dict| + 1 && table == st.dict + [st.dict[st.prev] + [cur[0]]]
              else st.dict == table && |table| == TABLE_SIZE))
  }

  /** The state of the decoder when it has read the code of `cur`. */
  ghost function After(cs: nat, st: Lzw, table: seq<seq<byte>>, cur: seq<byte>, k: nat): Lzw
    requires cur in table
  {
    Lzw(table, Find(table, cur), CodeWidth(cs, k + 1))
  }

  lemma ReadsString(cs: nat, st: Lzw, table: seq<seq<byte>>, cur: seq<byte>, k: nat, goOn: bool)
    requires Abreast(cs, st, table, cur, k) && (goOn || k < 4095 - Pow2(cs))
    ensures Find(table, cur) < Pow2(st.width)
    ensures StepOf(cs, st, Find(table, cur), goOn) == Emit(cur, After(cs, st, table, cur, k))
    ensures |table| == Known(cs, k + 1)
  {
    hide Start;
    hide Pow2;
    hide WidthFor;
    hide Find;
    hide Known;
    hide CodeWidth;
    CodeSizes(cs);
    FindString(cs, st, table, cur, k);
    NextWidth(cs, st, k);
    TopWidth();
    KnownNext(cs, k);
    if k > 0 && |st.dict| < |table| {
      assert table[Find(table, cur)] == cur;
    }
  }

  lemma KnownNext(cs: nat, k: nat)
    ensures Known(cs, 0) == Known(cs, 1)
    ensures k > 0 ==> Known(cs, k + 1) == if Known(cs, k) < TABLE_SIZE then Known(cs, k) + 1 else TABLE_SIZE
    ensures k < 4095 - Pow2(cs) && k > 0 ==> Known(cs, k) < TABLE_SIZE
    ensures Pow2(cs) <= 256 ==> Known(cs, 0) == Pow2(cs) + 2
  {
  }

  lemma TopWidth()
    ensures Pow2(MAX_WIDTH) == TABLE_SIZE
  {
    assert Pow2(4) == 16;
    assert Pow2(8) == 256;
  }

  /** It is the code of a string. */
  lemma FindString(cs: nat, st: Lzw, table: seq<seq<byte>>, cur: seq<byte>, k: nat)
    requires Abreast(cs, st, table, cur, k)
    ensures IsString(cs, Find(table, cur)) && Find(table, cur) <= |st.dict|
  {
    hide Pow2;
    hide WidthFor;
    CodeSizes(cs);
    StartStrings(Pow2(cs));
    var i := Find(table, cur);
    assert Start(cs).dict[Pow2(cs)] == [] && Start(cs).dict[Pow2(cs) + 1] == [];
    assert st.dict[Pow2(cs)] == [] && st.dict[Pow2(cs) + 1] == [];
    assert table[Pow2(cs)] == [] && table[Pow2(cs) + 1] == [];
  }

  lemma NextWidth(cs: nat, st: Lzw, k: nat)
    requires Valid(cs, st) && |st.dict| == Known(cs, k) && st.width == CodeWidth(cs, k)
    ensures Known(cs, k + 1) == Known(cs, k) ==> CodeWidth(cs, k + 1) == st.width
    ensures Known(cs, k + 1) != Known(cs, k) ==>
              Known(cs, k + 1) == |st.dict| + 1 && CodeWidth(cs, k + 1) == Widen(|st.dict| + 1, st.width)
  {
    hide Pow2;
    hide Start;
    if Known(cs, k + 1) != Known(cs, k) {
      WidenTo(|st.dict|, cs + 1, st.width);
    }
  }

  lemma {:induction false} WidenTo(n: nat, w: nat, to: nat)
    requires w <= MAX_WIDTH && to == WidthFor(n, w)
    ensures WidthFor(n + 1, w) == Widen(n + 1, to)
    decreases MAX_WIDTH - w
  {
    hide Pow2;
    Pow2Next(w);
    if w < MAX_WIDTH && n >= Pow2(w) {
      WidenTo(n, w + 1, to);
    } else if w < MAX_WIDTH && n + 1 == Pow2(w) {
      assert WidthFor(n + 1, w + 1) == w + 1;
    }
  }

  /** With one more string and index, they are abreast again. */
  lemma NextString(cs: nat, st: Lzw, table: seq<seq<byte>>, cur: seq<byte>, k: nat, goOn: bool, b: byte)
    requires Abreast(cs, st, table, cur, k) && (goOn || k < 4095 - Pow2(cs)) && [b] in table
    ensures Abreast(cs, After(cs, st, table, cur, k), Entered(table, cur + [b]), [b], k + 1)
  {
    hide Start;
    hide Pow2;
    hide CodeWidth;
    ReadsString(cs, st, table, cur, k, goOn);
    StepValid(cs, st, Find(table, cur), goOn);
    TableFits(cs, k);
  }

  lemma TableFits(cs: nat, k: nat)
    ensures Known(cs, k) <= TABLE_SIZE
  {
  }

  lemma StartsAbreast(cs: nat, b: byte)
    requires 2 <= cs <= 8 && Pow2(cs) <= 256 && b < Pow2(cs)
    ensures Abreast(cs, Start(cs), Alphabet(cs), [b], 0) && CodeWidth(cs, 0) == cs + 1 && Start(cs).width == cs + 1
  {
    hide Pow2;
    CodeSizes(cs);
    StartValid(cs);
    StartStrings(Pow2(cs));
    OneIndex(cs);
    var d, a := Start(cs).dict, Alphabet(cs);
    assert d == a by {
      forall i | 0 <= i < |d| ensures d[i] == a[i] {
      }
    }
    WidthStart(cs);
  }

  lemma WidthStart(cs: nat)
    requires 2 <= cs <= 8
    ensures CodeWidth(cs, 0) == cs + 1
  {
    hide Pow2;
    CodeSizes(cs);
    Pow2Mono(cs + 1, 9);
    NinthPower();
  }

  lemma NinthPower()
    ensures Pow2(9) == 512
  {
    assert Pow2(4) == 16;
  }

  // ---------- reading what has been packed ----------

  predicate FirstFits(codes: seq<(nat, nat)>) {
    codes != [] && codes[0].0 < Pow2(codes[0].1)
  }

  /** Codes that fit their widths take no more bits than these. */
  lemma PackStep(codes: seq<(nat, nat)>)
    requires FirstFits(codes) && Pack(codes[1..], 0) < Pow2(Size(codes[1..]))
    ensures Pack(codes, 0) < Pow2(Size(codes))
  {
    hide Pow2;
    hide Shl;
    var x, w, rest := codes[0].0, codes[0].1, Pack(codes[1..], 0);
    ShlMono(rest + 1, Pow2(Size(codes[1..])), w);
    ShlAdd(rest, 1, w);
    Pow2Shl(Size(codes[1..]), w);
    Pow2Shl(0, w);
    NoPower();
  }

  lemma NoPower()
    ensures Pow2(0) == 1
  {
  }

  lemma UnpackFirst(codes: seq<(nat, nat)>, tail: nat)
    requires codes != [] && codes[0].0 < Pow2(codes[0].1)
    ensures Low(Pack(codes, tail), codes[0].1) == codes[0].0 && Drop(Pack(codes, tail), codes[0].1) == Pack(codes[1..], tail)
  {
    Join(codes[0].0, Pack(codes[1..], tail), codes[0].1);
  }

  /** The clear code and the end code. */
  lemma ReadsMark(cs: nat, st: Lzw, goOn: bool)
    requires Valid(cs, st)
    ensures Pow2(cs) + 1 < Pow2(st.width) && StepOf(cs, st, Pow2(cs), goOn) == Clear && StepOf(cs, st, Pow2(cs) + 1, goOn) == Stop
  {
    hide Start;
    CodeSizes(cs);
    Pow2Mono(cs + 1, st.width);
  }

  lemma DecodeString(cs: nat, st: Lzw, table: seq<seq<byte>>, cur: seq<byte>, k: nat, goOn: bool, codes: seq<(nat, nat)>, tail: nat, n: nat)
    requires Abreast(cs, st, table, cur, k) && (goOn || k < 4095 - Pow2(cs))
    requires codes != [] && codes[0] == (Find(table, cur), CodeWidth(cs, k)) && n >= Size(codes)
    ensures Valid(cs, After(cs, st, table, cur, k)) && n >= st.width && n - st.width >= Size(codes[1..]) && FirstFits(codes)
    ensures var r := Decode(cs, After(cs, st, table, cur, k), true, Pack(codes[1..], tail), n - st.width, goOn);
      Decode(cs, st, true, Pack(codes, tail), n, goOn) == (cur + r.0, r.1)
  {
    hide StepOf;
    hide Low;
    hide Drop;
    hide Pack;
    hide CodeWidth;
    hide Known;
    hide Valid;
    ReadsString(cs, st, table, cur, k, goOn);
    StepValid(cs, st, Find(table, cur), goOn);
    UnpackFirst(codes, tail);
  }

  lemma DecodeEnd(cs: nat, st: Lzw, goOn: bool, codes: seq<(nat, nat)>, tail: nat, n: nat)
    requires Valid(cs, st) && codes == [(Pow2(cs) + 1, st.width)] && n >= Size(codes)
    ensures Pack(codes, 0) < Pow2(Size(codes))
    ensures forall started :: Decode(cs, st, started, Pack(codes, tail), n, goOn) == ([], Complete)
  {
    hide StepOf;
    hide Low;
    hide Drop;
    hide Pack;
    hide Valid;
    ReadsMark(cs, st, goOn);
    UnpackFirst(codes, tail);
    NothingPacked();
    PackStep(codes);
  }

  lemma NothingPacked()
    ensures Pack([], 0) < Pow2(Size([]))
  {
  }

  lemma DecodeClear(cs: nat, st: Lzw, started: bool, goOn: bool, codes: seq<(nat, nat)>, tail: nat, n: nat)
    requires Valid(cs, st) && codes != [] && codes[0] == (Pow2(cs), st.width) && n >= Size(codes)
    ensures 2 <= cs <= 8 && Pow2(cs) <= 256 && Valid(cs, Start(cs)) && n >= st.width && n - st.width >= Size(codes[1..]) && FirstFits(codes)
    ensures Decode(cs, st, started, Pack(codes, tail), n, goOn) == Decode(cs, Start(cs), true, Pack(codes[1..], tail), n - st.width, goOn)
  {
    hide StepOf;
    hide Low;
    hide Drop;
    hide Pack;
    hide Start;
    StartValid(cs);
    ReadsMark(cs, st, goOn);
    UnpackFirst(codes, tail);
  }

  /** What the encoder writes next. */
  lemma NextCodes(cs: nat, m: nat, table: seq<seq<byte>>, cur: seq<byte>, rest: seq<byte>, k: nat)
    requires Pow2(cs) <= 256 && cur in table && (forall i :: 0 <= i < |rest| ==> rest[i] < Pow2(cs))
    requires forall b: byte {:trigger [b]} :: b < Pow2(cs) ==> [b] in table
    requires rest == [] || cur + [rest[0]] !in table
    ensures var codes := EncodeFrom(cs, m, table, cur, rest, k);
      && codes != [] && codes[0] == (Find(table, cur), CodeWidth(cs, k))
      && (rest == [] ==> codes[1..] == [(Pow2(cs) + 1, CodeWidth(cs, k + 1))])
    ensures rest != [] && k + 1 < m ==>
              && [rest[0]] in Entered(table, cur + [rest[0]])
              && (forall b: byte {:trigger [b]} :: b < Pow2(cs) ==> [b] in Entered(table, cur + [rest[0]]))
              && EncodeFrom(cs, m, table, cur, rest, k)[1..] == EncodeFrom(cs, m, Entered(table, cur + [rest[0]]), [rest[0]], rest[1..], k + 1)
    ensures rest != [] && k + 1 >= m ==>
              && [rest[0]] in Alphabet(cs) && (forall b: byte {:trigger [b]} :: b < Pow2(cs) ==> [b] in Alphabet(cs))
              && var codes := EncodeFrom(cs, m, table, cur, rest, k)[1..];
                codes != [] && codes[0] == (Pow2(cs), CodeWidth(cs, k + 1)) && codes[1..] == EncodeFrom(cs, m, Alphabet(cs), [rest[0]], rest[1..], 0)
  {
    hide CodeWidth;
    hide Alphabet;
    hide Entered;
    hide Find;
    hide Pow2;
    if rest != [] {
      assert [rest[0]] in table;
      StillThere(cs, table, cur + [rest[0]]);
      OneIndex(cs);
      if k + 1 >= m {
        var next := EncodeFrom(cs, m, Alphabet(cs), [rest[0]], rest[1..], 0);
        assert EncodeFrom(cs, m, table, cur, rest, k)[1..] == [(Pow2(cs), CodeWidth(cs, k + 1))] + next;
      }
    }
  }

  lemma LongerCodes(cs: nat, m: nat, table: seq<seq<byte>>, cur: seq<byte>, rest: seq<byte>, k: nat)
    requires Pow2(cs) <= 256 && cur in table && (forall i :: 0 <= i < |rest| ==> rest[i] < Pow2(cs))
    requires forall b: byte {:trigger [b]} :: b < Pow2(cs) ==> [b] in table
    requires rest != [] && cur + [rest[0]] in table
    ensures EncodeFrom(cs, m, table, cur, rest, k) == EncodeFrom(cs, m, table, cur + [rest[0]], rest[1..], k)
  {
  }

  /** Decoding gives the string and the indices behind it. */
  lemma {:induction false} DecodeEncoded(cs: nat, m: nat, st: Lzw, table: seq<seq<byte>>, cur: seq<byte>, rest: seq<byte>, k: nat,
                                         goOn: bool, tail: nat, n: nat)
    requires Abreast(cs, st, table, cur, k) && Pow2(cs) <= 256 && (goOn || k < m <= 4095 - Pow2(cs)) && cur in table && Valid(cs, st)
    requires forall i :: 0 <= i < |rest| ==> rest[i] < Pow2(cs)
    requires forall b: byte {:trigger [b]} :: b < Pow2(cs) ==> [b] in table
    requires n >= Size(EncodeFrom(cs, m, table, cur, rest, k))
    ensures Decode(cs, st, true, Pack(EncodeFrom(cs, m, table, cur, rest, k), tail), n, goOn) == (cur + rest, Complete)
    ensures Pack(EncodeFrom(cs, m, table, cur, rest, k), 0) < Pow2(Size(EncodeFrom(cs, m, table, cur, rest, k)))
    decreases |rest|
  {
    hide *;
    var codes := EncodeFrom(cs, m, table, cur, rest, k);
    AbreastSize(cs, st, table, cur, k);
    if rest != [] && cur + [rest[0]] in table {
      LongerCodes(cs, m, table, cur, rest, k);
      LongerAbreast(cs, st, table, cur, rest[0], k);
      DecodeEncoded(cs, m, st, table, cur + [rest[0]], rest[1..], k, goOn, tail, n);
      assert cur + [rest[0]] + rest[1..] == cur + rest;
    } else {
      NextCodes(cs, m, table, cur, rest, k);
      DecodeString(cs, st, table, cur, k, goOn, codes, tail, n);
      var next := After(cs, st, table, cur, k);
      AfterWidth(cs, st, table, cur, k);
      if rest == [] {
        DecodeEnd(cs, next, goOn, codes[1..], tail, n - st.width);
        assert cur + [] == cur + rest;
      } else {
        assert cur + ([rest[0]] + rest[1..]) == cur + rest;
        if k + 1 >= m {
          StartsAbreast(cs, rest[0]);
          DecodeClear(cs, next, true, goOn, codes[1..], tail, n - st.width);
          DecodeEncoded(cs, m, Start(cs), Alphabet(cs), [rest[0]], rest[1..], 0, goOn, tail, n - st.width - next.width);
          PackStep(codes[1..]);
        } else {
          assert [rest[0]] in table;
          NextString(cs, st, table, cur, k, goOn, rest[0]);
          DecodeEncoded(cs, m, next, Entered(table, cur + [rest[0]]), [rest[0]], rest[1..], k + 1, goOn, tail, n - st.width);
        }
      }
      PackStep(codes);
    }
  }

  lemma AbreastSize(cs: nat, st: Lzw, table: seq<seq<byte>>, cur: seq<byte>, k: nat)
    requires Abreast(cs, st, table, cur, k)
    ensures 2 <= cs <= 8 && Valid(cs, st) && st.width == CodeWidth(cs, k) && cur in table
  {
  }

  lemma AfterWidth(cs: nat, st: Lzw, table: seq<seq<byte>>, cur: seq<byte>, k: nat)
    requires cur in table
    ensures After(cs, st, table, cur, k).width == CodeWidth(cs, k + 1)
  {
  }

  lemma LongerAbreast(cs: nat, st: Lzw, table: seq<seq<byte>>, cur: seq<byte>, b: byte, k: nat)
    requires Abreast(cs, st, table, cur, k) && cur + [b] in table
    ensures Abreast(cs, st, table, cur + [b], k)
  {
  }

  lemma StillThere(cs: nat, table: seq<seq<byte>>, s: seq<byte>)
    requires forall b: byte {:trigger [b]} :: b < Pow2(cs) ==> [b] in table
    ensures forall b: byte {:trigger [b]} :: b < Pow2(cs) ==> [b] in Entered(table, s)
  {
  }

  /** The image comes back: by Appendix F whenever the table is cleared, or never, and by a decoder that gives up on a
      full table when it is cleared in time. */
  lemma ImageBack(cs: nat, m: nat, image: seq<byte>, goOn: bool, tail: nat, n: nat)
    requires 2 <= cs <= 8 && Pow2(cs) <= 256 && (forall i :: 0 <= i < |image| ==> image[i] < Pow2(cs))
    requires (goOn || 1 <= m <= 4095 - Pow2(cs)) && n >= Size(Encode(cs, m, image))
    ensures Valid(cs, Start(cs))
    ensures Decode(cs, Start(cs), false, Pack(Encode(cs, m, image), tail), n, goOn) == (image, Complete)
    ensures Pack(Encode(cs, m, image), 0) < Pow2(Size(Encode(cs, m, image)))
  {
    hide *;
    StartValid(cs);
    OneIndex(cs);
    ZeroIndex(cs);
    StartsAbreast(cs, 0);
    var codes := Encode(cs, m, image);
    ImageCodes(cs, m, image);
    DecodeClear(cs, Start(cs), false, goOn, codes, tail, n);
    if image == [] {
      DecodeEnd(cs, Start(cs), goOn, codes[1..], tail, n - (cs + 1));
    } else {
      StartsAbreast(cs, image[0]);
      DecodeEncoded(cs, m, Start(cs), Alphabet(cs), [image[0]], image[1..], 0, goOn, tail, n - (cs + 1));
      assert [image[0]] + image[1..] == image;
    }
    PackStep(codes);
  }

  lemma ImageCodes(cs: nat, m: nat, image: seq<byte>)
    requires Pow2(cs) <= 256 && forall i :: 0 <= i < |image| ==> image[i] < Pow2(cs)
    ensures var codes := Encode(cs, m, image);
      && codes != [] && codes[0] == (Pow2(cs), cs + 1)
      && (image == [] ==> codes[1..] == [(Pow2(cs) + 1, cs + 1)])
    ensures image != [] ==>
              && [image[0]] in Alphabet(cs) && (forall b: byte {:trigger [b]} :: b < Pow2(cs) ==> [b] in Alphabet(cs))
              && Encode(cs, m, image)[1..] == EncodeFrom(cs, m, Alphabet(cs), [image[0]], image[1..], 0)
  {
    hide EncodeFrom;
    hide Alphabet;
    hide Pow2;
    OneIndex(cs);
  }

  lemma ZeroIndex(cs: nat)
    ensures Pow2(cs) > 0
  {
  }
}
