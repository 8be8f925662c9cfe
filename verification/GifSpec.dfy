/** LZW decoding for GIF images, Appendix F of the GIF89a specification: the decoder keeps the strings. */
module GifSpec {
  import opened Bits

  const TABLE_SIZE: nat := 4096
  const MAX_WIDTH: nat := 12

  /** The strings so far, the code before (or -1 after a clear code), and the width of the next code. */
  datatype Lzw = Lzw(dict: seq<seq<byte>>, prev: int, width: nat)

  datatype Step = Clear | Stop | Bad | Emit(s: seq<byte>, next: Lzw)

  /** The strings of one byte, and the places of the clear code and the end code. */
  function Roots(n: nat): (r: seq<seq<byte>>)
    requires n <= 256
    ensures |r| == n && forall i :: 0 <= i < n ==> r[i] == [i]
  {
    if n == 0 then [] else Roots(n - 1) + [[n - 1]]
  }

  function Start(cs: nat): Lzw
    requires Pow2(cs) <= 256
  {
    Lzw(Roots(Pow2(cs)) + [[], []], -1, cs + 1)
  }

  /** A code becomes wider when the strings have used up its values, up to twelve bits. */
  function Widen(size: nat, width: nat): nat {
    if size == Pow2(width) && width < MAX_WIDTH then width + 1 else width
  }

  /** All strings but those of the clear code and the end code are there. */
  predicate Valid(cs: nat, st: Lzw) {
    && 2 <= cs <= 8 && Pow2(cs) <= 256 && Start(cs).dict <= st.dict && Pow2(cs) + 2 <= |st.dict| <= TABLE_SIZE
    && (forall i {:trigger st.dict[i]} :: 0 <= i < |st.dict| && IsString(cs, i) ==> st.dict[i] != [])
    && -1 <= st.prev < |st.dict| && (st.prev >= 0 ==> IsString(cs, st.prev))
    && cs < st.width <= MAX_WIDTH && |st.dict| <= Pow2(st.width)
    && (st.prev < 0 ==> |st.dict| == Pow2(cs) + 2)
    && (|st.dict| == Pow2(st.width) ==> st.width == MAX_WIDTH)
  }

  predicate IsString(cs: nat, i: int) {
    i != Pow2(cs) && i != Pow2(cs) + 1
  }

  /** What a code means: a new string is the one before with the first byte of this one; this one may be
      the new string itself.  When the table is full no strings are added until it is cleared. */
  function AppendixStep(cs: nat, st: Lzw, code: nat): Step
    requires Valid(cs, st)
  {
    if code == Pow2(cs) then Clear
    else if code == Pow2(cs) + 1 then Stop
    else if code > |st.dict| then Bad
    else if st.prev < 0 || |st.dict| == TABLE_SIZE then
      (if code < |st.dict| then Emit(st.dict[code], st.(prev := code)) else Bad)
    else
      var before := st.dict[st.prev];
      var s := if code < |st.dict| then st.dict[code] else before + [before[0]];
      var dict := st.dict + [before + [s[0]]];
      Emit(s, Lzw(dict, code, Widen(|dict|, st.width)))
  }

  /** A string code comes when the table is full. */
  predicate Overflows(cs: nat, st: Lzw, code: nat) {
    IsString(cs, code) && code <= |st.dict| == TABLE_SIZE && st.prev >= 0
  }

  /** A decoder may go on with a full table, or give up. */
  function StepOf(cs: nat, st: Lzw, code: nat, goOn: bool): Step
    requires Valid(cs, st)
  {
    if !goOn && Overflows(cs, st, code) then Bad else AppendixStep(cs, st, code)
  }

  datatype End = Complete | OutOfData | Corrupt

  /** What `n` bits of stream `v` decode to, and how it ends; with `goOn` this is Appendix F. */
  function Decode(cs: nat, st: Lzw, started: bool, v: nat, n: nat, goOn: bool): (seq<byte>, End)
    requires Valid(cs, st)
    decreases n
  {
    if n < st.width then ([], OutOfData)
    else
      var v', n' := Drop(v, st.width), n - st.width;
      match StepOf(cs, st, Low(v, st.width), goOn)
      case Clear => StartValid(cs); Decode(cs, Start(cs), true, v', n', goOn)
      case Stop => ([], Complete)
      case Bad => ([], Corrupt)
      case Emit(s, next) =>
        if !started then ([], Corrupt)
        else
          StepValid(cs, st, Low(v, st.width), goOn);
          var r := Decode(cs, next, true, v', n', goOn);
          (s + r.0, r.1)
  }

  /** What the data of a raster with code size `cs` shows. */
  function Shown(cs: nat, data: seq<byte>, goOn: bool): (seq<byte>, End)
    requires 2 <= cs <= 8
  {
    StartValid(cs);
    Decode(cs, Start(cs), false, BytesVal(data), 8 * |data|, goOn)
  }

  lemma StartValid(cs: nat)
    requires 2 <= cs <= 8
    ensures Pow2(cs) <= 256 && Valid(cs, Start(cs))
  {
    hide Pow2;
    hide Roots;
    CodeSizes(cs);
    StartStrings(Pow2(cs));
  }

  lemma StartStrings(n: nat)
    requires n <= 256
    ensures var d := Roots(n) + [[], []];
      |d| == n + 2 && forall i {:trigger d[i]} :: 0 <= i < n + 2 && i != n && i != n + 1 ==> d[i] == [i]
  {
    hide Roots;
    var r := Roots(n);
    assert forall i {:trigger r[i]} :: 0 <= i < n ==> r[i] == [i];
  }

  lemma CodeSizes(cs: nat)
    requires 2 <= cs <= 8
    ensures 4 <= Pow2(cs) <= 256 && Pow2(cs + 1) == 2 * Pow2(cs)
  {
    Pow2Mono(2, cs);
    Pow2Mono(cs, 8);
    assert Pow2(2) == 4;
    assert Pow2(4) == 16;
    assert Pow2(8) == 256;
  }

  lemma StepValid(cs: nat, st: Lzw, code: nat, goOn: bool)
    requires Valid(cs, st) && StepOf(cs, st, code, goOn).Emit?
    ensures Valid(cs, StepOf(cs, st, code, goOn).next) && StepOf(cs, st, code, goOn).s != []
  {
    hide Start;
    assert Pow2(st.width + 1) == 2 * Pow2(st.width);
    CodeSizes(cs);
    var next := StepOf(cs, st, code, goOn).next;
    assert st.dict <= next.dict;
  }

  // ---------- full tables ----------

  /** At most 4095 - 2^cs string codes come between two clear codes before the end; `count` have come since
      the last one. */
  predicate FewCodes(cs: nat, st: Lzw, started: bool, v: nat, n: nat, count: nat)
    requires Valid(cs, st)
    decreases n
  {
    if n < st.width then true
    else
      var v', n' := Drop(v, st.width), n - st.width;
      match AppendixStep(cs, st, Low(v, st.width))
      case Clear => StartValid(cs); FewCodes(cs, Start(cs), true, v', n', 0)
      case Stop => true
      case Bad => true
      case Emit(_, next) =>
        if !started then true
        else
          StepValid(cs, st, Low(v, st.width), true);
          count < 4095 - Pow2(cs) && FewCodes(cs, next, true, v', n', count + 1)
  }

  predicate FewCodesIn(cs: nat, data: seq<byte>)
    requires 2 <= cs <= 8
  {
    StartValid(cs);
    FewCodes(cs, Start(cs), false, BytesVal(data), 8 * |data|, 0)
  }

  /** The table has as many strings as codes have come. */
  predicate Counted(cs: nat, st: Lzw, count: nat) {
    if st.prev < 0 then count == 0
    else count >= 1 && |st.dict| == if Pow2(cs) + 1 + count < TABLE_SIZE then Pow2(cs) + 1 + count else TABLE_SIZE
  }

  lemma CountedNext(cs: nat, st: Lzw, code: nat, count: nat)
    requires Valid(cs, st) && Counted(cs, st, count) && AppendixStep(cs, st, code).Emit?
    ensures Counted(cs, AppendixStep(cs, st, code).next, count + 1)
    ensures Overflows(cs, st, code) <==> count >= 4095 - Pow2(cs)
  {
    hide Pow2;
    hide Start;
    CodeSizes(cs);
  }

  lemma StartCounted(cs: nat)
    requires 2 <= cs <= 8
    ensures Pow2(cs) <= 256 && Valid(cs, Start(cs)) && Counted(cs, Start(cs), 0)
  {
    StartValid(cs);
  }

  /** A decoder that gives up on a full table shows what Appendix F does exactly when few codes come between
      clear codes; otherwise it shows less. */
  lemma {:induction false} GivingUp(cs: nat, st: Lzw, started: bool, v: nat, n: nat, count: nat)
    requires Valid(cs, st) && Counted(cs, st, count)
    ensures var a, b := Decode(cs, st, started, v, n, false), Decode(cs, st, started, v, n, true);
      if FewCodes(cs, st, started, v, n, count) then a == b else |a.0| < |b.0| && a.1 == Corrupt
    decreases n
  {
    hide AppendixStep;
    hide Valid;
    hide Start;
    hide Low;
    hide Drop;
    hide Counted;
    hide Overflows;
    StartOf(cs, st);
    if n >= st.width {
      var code, v', n' := Low(v, st.width), Drop(v, st.width), n - st.width;
      StepKinds(cs, st, code);
      match AppendixStep(cs, st, code) {
        case Clear =>
          StartCounted(cs);
          GivingUp(cs, Start(cs), true, v', n', 0);
        case Stop =>
        case Bad =>
        case Emit(s, next) =>
          if started {
            StepValid(cs, st, code, true);
            CountedNext(cs, st, code, count);
            GivingUp(cs, next, true, v', n', count + 1);
          }
      }
    }
  }

  lemma StartOf(cs: nat, st: Lzw)
    requires Valid(cs, st)
    ensures 2 <= cs <= 8 && st.width >= 1
  {
  }

  /** Only a string overflows a table. */
  lemma StepKinds(cs: nat, st: Lzw, code: nat)
    requires Valid(cs, st)
    ensures AppendixStep(cs, st, code).Clear? || AppendixStep(cs, st, code).Stop? ==> !Overflows(cs, st, code)
  {
  }

  lemma ShownIff(cs: nat, data: seq<byte>)
    requires 2 <= cs <= 8
    ensures var a, b := Shown(cs, data, false), Shown(cs, data, true);
      if FewCodesIn(cs, data) then a == b else |a.0| < |b.0| && a.1 == Corrupt
  {
    hide Decode;
    hide FewCodes;
    StartCounted(cs);
    GivingUp(cs, Start(cs), false, BytesVal(data), 8 * |data|, 0);
  }

  // ---------- an image that fills the table ----------

  /** Zeros are codes of the first string. */
  lemma ZeroCode(st: Lzw)
    requires Valid(2, st)
    ensures AppendixStep(2, st, 0).Emit? && 1 <= st.width <= 12 && Pow2(2) == 4
    ensures Low(0, st.width) == 0 && Drop(0, st.width) == 0
  {
    LowZero(st.width);
    DropZero(st.width);
    CodeSizes(2);
    assert Pow2(2) == 4;
  }

  /** Zeros decode to the end of the data, */
  lemma {:induction false} ZerosEnd(st: Lzw, n: nat)
    requires Valid(2, st)
    ensures Decode(2, st, true, 0, n, true).1 == OutOfData
    decreases n
  {
    hide Valid;
    hide Start;
    hide AppendixStep;
    hide Low;
    hide Drop;
    ZeroCode(st);
    if n >= st.width {
      StepValid(2, st, 0, true);
      ZerosEnd(AppendixStep(2, st, 0).next, n - st.width);
    }
  }

  /** and they overflow the table when there are enough of them. */
  lemma {:induction false} ZerosOverflow(st: Lzw, n: nat, count: nat)
    requires Valid(2, st) && Counted(2, st, count) && count <= 4091 && n >= 12 * (4092 - count)
    ensures !FewCodes(2, st, true, 0, n, count)
    decreases n
  {
    hide Valid;
    hide Start;
    hide Counted;
    hide AppendixStep;
    hide Low;
    hide Drop;
    hide Pow2;
    ZeroCode(st);
    if count < 4091 {
      StepValid(2, st, 0, true);
      CountedNext(2, st, 0, count);
      ZerosOverflow(AppendixStep(2, st, 0).next, n - st.width, count + 1);
    }
  }

  /** A clear code, and more zeros than the table has room for. */
  function TooLong(): seq<byte> {
    [4] + seq(6200, _ => 0)
  }

  lemma {:induction false} NoBits(n: nat)
    ensures BytesVal(seq(n, _ => 0)) == 0
  {
    if n > 0 {
      NoBits(n - 1);
      assert seq(n, _ => 0)[1..] == seq(n - 1, _ => 0);
    }
  }

  /** Appendix F shows this to the end of its data; a decoder that gives up stops with an error. */
  lemma FullTable()
    ensures !FewCodesIn(2, TooLong()) && Shown(2, TooLong(), true).1 == OutOfData
    ensures Shown(2, TooLong(), false).1 == Corrupt && |Shown(2, TooLong(), false).0| < |Shown(2, TooLong(), true).0|
  {
    hide Decode;
    hide FewCodes;
    var n := 8 * |TooLong()|;
    assert TooLong()[1..] == seq(6200, _ => 0);
    NoBits(6200);
    StartCounted(2);
    ClearFirst(n);
    ZerosEnd(Start(2), n - 3);
    ZerosOverflow(Start(2), n - 3, 0);
    ShownIff(2, TooLong());
  }

  lemma ClearFirst(n: nat)
    requires n >= 3
    ensures Valid(2, Start(2))
    ensures Decode(2, Start(2), false, 4, n, true) == Decode(2, Start(2), true, 0, n - 3, true)
    ensures FewCodes(2, Start(2), false, 4, n, 0) == FewCodes(2, Start(2), true, 0, n - 3, 0)
  {
    hide Start;
    StartValid(2);
    StartWidth();
    assert Pow2(2) == 4;
    assert Low(4, 3) == 4;
    assert Drop(4, 3) == 0 by { assert Drop(2, 2) == Drop(1, 1) == Drop(0, 0); }
  }

  lemma StartWidth()
    ensures Pow2(2) <= 256 && Start(2).width == 3
  {
    assert Pow2(2) == 4;
  }
}
