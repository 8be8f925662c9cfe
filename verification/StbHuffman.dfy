/** The Huffman tables of the one-shot decoder: a table indexed by the next nine bits, and a
    comparison with left-aligned code limits for longer codes.
    Models stbi__zhuffman, stbi__zbuild_huffman and stbi__zhuffman_decode in
    DuiLib/Utils/stb_image.c.
  */
module StbHuffman {
  import opened Bits
  import opened Canonical

  const FAST_BITS: nat := 9
  const FAST_SIZE: nat := 512
  const MAX_SYMBOLS: nat := 288

  // ---------- what the tables say ----------

  /** Symbol `s` has a short code, and the index `f` begins with it. */
  ghost predicate IsFast(lens: seq<nat>, s: nat, f: nat) {
    s < |lens| && 1 <= lens[s] <= FAST_BITS && Code(f, lens[s]) == CodeOf(lens, s)
  }

  /** The fast table answers for the first `n` symbols: an entry holds the length and the symbol
      of the short code its index begins with, and 0 when there is none. */
  ghost predicate FastUpTo(fast: seq<nat>, lens: seq<nat>, n: nat)
    requires n <= |lens|
  {
    && |fast| == FAST_SIZE
    && (forall f, s :: 0 <= f < FAST_SIZE && 0 <= s < n && IsFast(lens, s, f) ==> fast[f] == lens[s] * 512 + s)
    && (forall f :: 0 <= f < FAST_SIZE && fast[f] != 0 ==> exists s :: 0 <= s < n && IsFast(lens, s, f))
  }

  ghost predicate ValuesUpTo(size: seq<nat>, value: seq<nat>, lens: seq<nat>, n: nat)
    requires n <= |lens|
  {
    && |size| == |value| == MAX_SYMBOLS >= |lens|
    && (forall s :: 0 <= s < n && lens[s] > 0 ==>
          && Slot(lens, s) < MAX_SYMBOLS
          && size[Slot(lens, s)] == lens[s]
          && value[Slot(lens, s)] == s)
  }

  ghost predicate LimitsUpTo(firstcode: seq<nat>, firstsymbol: seq<nat>, maxcode: seq<nat>, lens: seq<nat>, n: nat) {
    && |firstcode| == |firstsymbol| == 16 && |maxcode| == 17 && n <= 16
    && (forall k {:trigger firstcode[k]} {:trigger firstsymbol[k]} {:trigger maxcode[k]} :: 1 <= k < n ==>
          && firstcode[k] == FirstCode(lens, k)
          && firstsymbol[k] == Offset(lens, k)
          && maxcode[k] == Shl(EndCode(lens, k), 16 - k))
  }

  /** stbi__bit_reverse */
  function BitReverse(v: nat, bits: nat): nat {
    Code(v, bits)
  }

  // ---------- one more symbol ----------

  /** Index `f` begins with the code `c` of `len` bits exactly when its low bits are the reversed
      code. */
  lemma FastIndex(f: nat, c: nat, len: nat)
    requires c < Pow2(len)
    ensures Code(f, len) == c <==> Low(f, len) == BitReverse(c, len)
  {
    CodeInvolution(f, len);
    CodeInvolution(c, len);
    LowSmall(c, len);
    CodeLow(f, len);
  }

  lemma FastStep(old_: seq<nat>, new_: seq<nat>, lens: seq<nat>, i: nat)
    requires i < |lens| <= MAX_SYMBOLS && ValidLengths(lens)
    requires FastUpTo(old_, lens, i) && |new_| == FAST_SIZE
    requires forall f :: 0 <= f < FAST_SIZE ==> new_[f] == if IsFast(lens, i, f) then lens[i] * 512 + i else old_[f]
    ensures FastUpTo(new_, lens, i + 1)
  {
    forall f, s | 0 <= f < FAST_SIZE && 0 <= s < i + 1 && IsFast(lens, s, f)
      ensures new_[f] == lens[s] * 512 + s
    {
      if IsFast(lens, i, f) {
        DecodeHit(lens, f, s);
        DecodeHit(lens, f, i);
      }
    }
    forall f | 0 <= f < FAST_SIZE && new_[f] != 0
      ensures exists s :: 0 <= s < i + 1 && IsFast(lens, s, f)
    {
      if IsFast(lens, i, f) {
      } else {
        var s :| 0 <= s < i && IsFast(lens, s, f);
      }
    }
  }

  lemma SlotBound(lens: seq<nat>, s: nat)
    requires s < |lens| && lens[s] > 0
    ensures Slot(lens, s) < |lens|
  {
    RankBound(lens, s);
    OffsetBound(lens, lens[s]);
  }

  lemma ValuesStep(size: seq<nat>, value: seq<nat>, size': seq<nat>, value': seq<nat>, lens: seq<nat>, i: nat)
    requires i < |lens| && lens[i] > 0 && ValuesUpTo(size, value, lens, i)
    requires Slot(lens, i) < |lens|
    requires size' == size[Slot(lens, i) := lens[i]] && value' == value[Slot(lens, i) := i]
    ensures ValuesUpTo(size', value', lens, i + 1)
  {
    forall s | 0 <= s < i && lens[s] > 0 ensures Slot(lens, s) != Slot(lens, i) {
      if Slot(lens, s) == Slot(lens, i) {
        SlotInjective(lens, s, i);
      }
    }
  }

  // ---------- the tables ----------

  // ---------- the codes of each length ----------

  lemma NoCodeYet(lens: seq<nat>)
    ensures FirstCode(lens, 1) == 0 && Offset(lens, 1) == 0
  {
  }

  lemma CodeAfter(lens: seq<nat>, i: nat)
    requires i >= 1
    ensures EndCode(lens, i) == FirstCode(lens, i) + Count(lens, i) && FirstCode(lens, i + 1) == 2 * EndCode(lens, i)
    ensures Offset(lens, i + 1) == Offset(lens, i) + Count(lens, i)
    ensures Count(lens, i) == 0 && (i > 1 ==> EndCode(lens, i - 1) <= Pow2(i - 1)) ==> EndCode(lens, i) <= Pow2(i)
  {
    hide Count;
  }

  lemma TooManyFrom(lens: seq<nat>, i: nat)
    requires 1 <= i <= 15 && EndCode(lens, i) > Pow2(i)
    ensures !NotOversubscribed(lens)
  {
    hide Count;
    hide EndCode;
    EndGrows(lens, i, 15);
  }

  lemma LastFits(lens: seq<nat>)
    ensures EndCode(lens, 15) <= Pow2(15) ==> NotOversubscribed(lens)
  {
    hide EndCode;
  }

  class ZHuffman {
    const fast: array<nat>
    const firstcode: array<nat>
    const maxcode: array<nat>
    const firstsymbol: array<nat>
    const size: array<nat>
    const value: array<nat>

    ghost predicate Allocated() {
      && fast.Length == FAST_SIZE
      && firstcode.Length == 16 && maxcode.Length == 17 && firstsymbol.Length == 16
      && size.Length == MAX_SYMBOLS && value.Length == MAX_SYMBOLS
      && fast !in {firstcode, maxcode, firstsymbol, size, value}
      && firstcode !in {maxcode, firstsymbol, size, value}
      && maxcode !in {firstsymbol, size, value}
      && firstsymbol !in {size, value}
      && size != value
    }

    ghost function Repr(): set<object> {
      {fast, firstcode, maxcode, firstsymbol, size, value}
    }

    /** The tables hold the code given by `lens`. */
    ghost predicate Represents(lens: seq<nat>)
      reads Repr()
    {
      && Allocated()
      && ValidLengths(lens) && |lens| <= MAX_SYMBOLS && NotOversubscribed(lens)
      && LimitsUpTo(firstcode[..], firstsymbol[..], maxcode[..], lens, 16) && maxcode[16] == 0x10000
      && ValuesUpTo(size[..], value[..], lens, |lens|)
      && FastUpTo(fast[..], lens, |lens|)
    }

    constructor ()
      ensures Allocated() && fresh(Repr())
    {
      fast := new nat[FAST_SIZE];
      firstcode := new nat[16];
      maxcode := new nat[17];
      firstsymbol := new nat[16];
      size := new nat[MAX_SYMBOLS];
      value := new nat[MAX_SYMBOLS];
    }

    /** stbi__zbuild_huffman: fails exactly on over-subscribed lengths. */
    method Build(sizelist: seq<nat>) returns (ok: bool)
      requires Allocated()
      requires ValidLengths(sizelist) && |sizelist| <= MAX_SYMBOLS
      modifies Repr()
      ensures ok <==> NotOversubscribed(sizelist)
      ensures ok ==> Represents(sizelist)
    {
      hide Code;
      hide Pow2;
      hide Represents;
      for i := 0 to FAST_SIZE
        invariant forall f :: 0 <= f < i ==> fast[f] == 0
      {
        fast[i] := 0;
      }
      var sizes := CountSizes(sizelist);
      for i := 1 to 16 {
        if sizes[i] > Pow2(i) {
          EndGrows(sizelist, i, 15);
          return false;
        }
      }
      var nextCode: array<nat>;
      ok, nextCode := this.FirstCodes(sizelist, sizes);
      if ok {
        this.Fill(sizelist, nextCode);
      }
    }

    method FirstCodes(sizelist: seq<nat>, sizes: array<nat>) returns (ok: bool, nextCode: array<nat>)
      requires Allocated() && sizes !in Repr() && sizes.Length == 17
      requires forall k {:trigger sizes[k]} :: 1 <= k < 17 ==> sizes[k] == Count(sizelist, k)
      modifies firstcode, maxcode, firstsymbol
      ensures fresh(nextCode) && nextCode.Length == 16
      ensures ok <==> NotOversubscribed(sizelist)
      ensures ok ==> LimitsUpTo(firstcode[..], firstsymbol[..], maxcode[..], sizelist, 16) && maxcode[16] == 0x10000
      ensures ok ==> forall k {:trigger nextCode[k]} :: 1 <= k < 16 ==> nextCode[k] == FirstCode(sizelist, k)
    {
      hide Count;
      hide FirstCode;
      hide EndCode;
      hide Offset;
      hide Shl;
      hide NotOversubscribed;
      hide LimitsUpTo;
      NoCodeYet(sizelist);
      nextCode := new nat[16];
      var code, k := 0, 0;
      for i := 1 to 16
        invariant code == FirstCode(sizelist, i) && k == Offset(sizelist, i)
        invariant i > 1 ==> EndCode(sizelist, i - 1) <= Pow2(i - 1)
        invariant forall j {:trigger nextCode[j]} :: 1 <= j < i ==> nextCode[j] == FirstCode(sizelist, j)
        invariant forall j {:trigger firstcode[j]} :: 1 <= j < i ==> firstcode[j] == FirstCode(sizelist, j)
        invariant forall j {:trigger firstsymbol[j]} :: 1 <= j < i ==> firstsymbol[j] == Offset(sizelist, j)
        invariant forall j {:trigger maxcode[j]} :: 1 <= j < i ==> maxcode[j] == Shl(EndCode(sizelist, j), 16 - j)
      {
        nextCode[i] := code;
        firstcode[i] := code;
        firstsymbol[i] := k;
        code := code + sizes[i];
        CodeAfter(sizelist, i);
        if sizes[i] != 0 && code - 1 >= Pow2(i) {
          TooManyFrom(sizelist, i);
          return false, nextCode;
        }
        maxcode[i] := Shl(code, 16 - i);
        code := 2 * code;
        k := k + sizes[i];
      }
      LastFits(sizelist);
      maxcode[16] := 0x10000;
      LimitsHold(sizelist);
      ok := true;
    }

    lemma LimitsHold(lens: seq<nat>)
      requires Allocated()
      requires forall j {:trigger firstcode[j]} :: 1 <= j < 16 ==> firstcode[j] == FirstCode(lens, j)
      requires forall j {:trigger firstsymbol[j]} :: 1 <= j < 16 ==> firstsymbol[j] == Offset(lens, j)
      requires forall j {:trigger maxcode[j]} :: 1 <= j < 16 ==> maxcode[j] == Shl(EndCode(lens, j), 16 - j)
      ensures LimitsUpTo(firstcode[..], firstsymbol[..], maxcode[..], lens, 16)
    {
      hide FirstCode;
      hide EndCode;
      hide Offset;
      hide Shl;
    }

    method Fill(sizelist: seq<nat>, nextCode: array<nat>)
      requires Allocated() && nextCode !in Repr() && nextCode.Length == 16
      requires ValidLengths(sizelist) && |sizelist| <= MAX_SYMBOLS && NotOversubscribed(sizelist)
      requires LimitsUpTo(firstcode[..], firstsymbol[..], maxcode[..], sizelist, 16) && maxcode[16] == 0x10000
      requires forall k {:trigger nextCode[k]} :: 1 <= k < 16 ==> nextCode[k] == FirstCode(sizelist, k)
      requires forall f :: 0 <= f < FAST_SIZE ==> fast[f] == 0
      modifies fast, size, value, nextCode
      ensures Represents(sizelist)
    {
      hide Count;
      hide FirstCode;
      hide NotOversubscribed;
      hide Pow2;
      for i := 0 to |sizelist|
        invariant forall j {:trigger nextCode[j]} :: 1 <= j < 16 ==> nextCode[j] == FirstCode(sizelist, j) + Count(sizelist[..i], j)
        invariant ValuesUpTo(size[..], value[..], sizelist, i)
        invariant FastUpTo(fast[..], sizelist, i)
      {
        var s := sizelist[i];
        if s != 0 {
          ghost var size0, value0, fast0 := size[..], value[..], fast[..];
          var c := nextCode[s] - firstcode[s] + firstsymbol[s];
          SlotBound(sizelist, i);
          size[c] := s;
          value[c] := i;
          ValuesStep(size0, value0, size[..], value[..], sizelist, i);
          if s <= FAST_BITS {
            CodeFits(sizelist, i);
            FillFast(nextCode[s], s, s * 512 + i);
          }
          FastStep(fast0, fast[..], sizelist, i);
          nextCode[s] := nextCode[s] + 1;
        } else {
          FastStep(fast[..], fast[..], sizelist, i);
        }
        forall j | 1 <= j < 16
          ensures Count(sizelist[..i + 1], j) == Count(sizelist[..i], j) + (if s == j then 1 else 0)
        {
          CountStep(sizelist, i, j);
        }
      }
    }

    /** The loop over the entries of one short code. */
    method FillFast(code: nat, s: nat, fastv: nat)
      requires fast.Length == FAST_SIZE && 1 <= s <= FAST_BITS && code < Pow2(s)
      modifies fast
      ensures forall f :: 0 <= f < FAST_SIZE ==> fast[f] == if Code(f, s) == code then fastv else old(fast[f])
    {
      hide Code;
      var k := BitReverse(code, s);
      FastIndex(k, code, s);
      ghost var first := k;
      LowSmall(k, s);
      while k < FAST_SIZE
        invariant first <= k && Low(k, s) == first
        invariant forall f :: 0 <= f < FAST_SIZE ==>
                    fast[f] == if Low(f, s) == first && f < k then fastv else old(fast[f])
      {
        fast[k] := fastv;
        forall f: nat {
          NextWithSameLow(k, f, s);
        }
        k := k + Pow2(s);
      }
      forall f | 0 <= f < FAST_SIZE ensures fast[f] == if Code(f, s) == code then fastv else old(fast[f]) {
        FastIndex(f, code, s);
      }
    }
  }

  method CountSizes(sizelist: seq<nat>) returns (sizes: array<nat>)
    requires ValidLengths(sizelist)
    ensures fresh(sizes) && sizes.Length == 17
    ensures forall k {:trigger sizes[k]} :: 1 <= k < 17 ==> sizes[k] == Count(sizelist, k)
  {
    sizes := new nat[17](_ => 0);
    for i := 0 to |sizelist|
      invariant forall k :: 0 <= k < 17 ==> sizes[k] == Count(sizelist[..i], k)
    {
      forall k | 0 <= k < 17
        ensures Count(sizelist[..i + 1], k) == Count(sizelist[..i], k) + (if sizelist[i] == k then 1 else 0)
      {
        CountStep(sizelist, i, k);
      }
      sizes[sizelist[i]] := sizes[sizelist[i]] + 1;
    }
    assert sizelist[..|sizelist|] == sizelist;
    sizes[0] := 0;
  }
}
