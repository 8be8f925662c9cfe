/** Canonical Huffman codes of DEFLATE: sections 3.2.1 and 3.2.2 of RFC 1951.

    This is the specification shared by the two decoders of the repository.  A code is given by
    a list of code lengths, one for each symbol, 0 for an unused symbol.
  */
module Canonical {
  import opened Bits

  const MAX_BITS: nat := 15

  datatype Decoded = Symbol(sym: nat, len: nat) | NoCode

  ghost predicate ValidLengths(lens: seq<nat>) {
    forall i :: 0 <= i < |lens| ==> lens[i] <= MAX_BITS
  }

  /** How many symbols have code length `k`. */
  function Count(lens: seq<nat>, k: nat): (n: nat)
    ensures n <= |lens|
  {
    if lens == [] then 0
    else Count(lens[..|lens| - 1], k) + (if lens[|lens| - 1] == k then 1 else 0)
  }

  /** The smallest code of length `k`, step 2 of section 3.2.2. */
  function FirstCode(lens: seq<nat>, k: nat): nat {
    if k <= 1 then 0 else 2 * (FirstCode(lens, k - 1) + Count(lens, k - 1))
  }

  /** One more than the largest code of length `k`. */
  function EndCode(lens: seq<nat>, k: nat): nat {
    FirstCode(lens, k) + (if k == 0 then 0 else Count(lens, k))
  }

  /** How many symbols of the same length come before symbol `s`. */
  function Rank(lens: seq<nat>, s: nat): nat
    requires s < |lens|
  {
    Count(lens[..s], lens[s])
  }

  /** The code of symbol `s`, step 3 of section 3.2.2. */
  function CodeOf(lens: seq<nat>, s: nat): nat
    requires s < |lens|
  {
    FirstCode(lens, lens[s]) + Rank(lens, s)
  }

  ghost predicate HasCode(lens: seq<nat>, s: nat, k: nat, code: nat) {
    s < |lens| && lens[s] == k && CodeOf(lens, s) == code
  }

  /** The simple decoder: read one bit after the other until some symbol has the code read. */
  ghost function Decode(lens: seq<nat>, v: nat): Decoded {
    DecodeFrom(lens, v, 0, 0)
  }

  ghost function DecodeFrom(lens: seq<nat>, v: nat, k: nat, code: nat): Decoded
    decreases MAX_BITS - k
  {
    if k >= MAX_BITS then NoCode
    else
      var k', code' := k + 1, 2 * code + v % 2;
      if exists s :: HasCode(lens, s, k', code') then
        var s :| HasCode(lens, s, k', code');
        Symbol(s, k')
      else
        DecodeFrom(lens, v / 2, k', code')
  }

  /** The codes of length at most `MAX_BITS` do not need more room than there is: the Kraft sum,
      in units of the longest code, is at most one. */
  ghost predicate NotOversubscribed(lens: seq<nat>) {
    EndCode(lens, MAX_BITS) <= Pow2(MAX_BITS)
  }

  // ---------- ranks ----------

  lemma {:induction false} CountPrefix(lens: seq<nat>, i: nat, j: nat, k: nat)
    requires i <= j <= |lens|
    ensures Count(lens[..i], k) <= Count(lens[..j], k)
  {
    if i < j {
      assert lens[..j][..j - 1] == lens[..j - 1];
      CountPrefix(lens, i, j - 1, k);
    }
  }

  lemma {:induction false} CountStep(lens: seq<nat>, i: nat, k: nat)
    requires i < |lens|
    ensures Count(lens[..i + 1], k) == Count(lens[..i], k) + (if lens[i] == k then 1 else 0)
  {
    assert lens[..i + 1][..i] == lens[..i];
  }

  /** A symbol's rank is below the number of symbols of its length. */
  lemma RankBound(lens: seq<nat>, s: nat)
    requires s < |lens|
    ensures Rank(lens, s) < Count(lens, lens[s])
  {
    CountStep(lens, s, lens[s]);
    CountPrefix(lens, s + 1, |lens|, lens[s]);
    assert lens[..|lens|] == lens;
  }

  /** Symbols of the same length have different ranks. */
  lemma RankInjective(lens: seq<nat>, s: nat, s': nat)
    requires s < |lens| && s' < |lens| && lens[s] == lens[s'] && Rank(lens, s) == Rank(lens, s')
    ensures s == s'
  {
    var lo, hi := if s < s' then s else s', if s < s' then s' else s;
    if lo < hi {
      CountStep(lens, lo, lens[s]);
      CountPrefix(lens, lo + 1, hi, lens[s]);
    }
  }

  /** Every rank below the count belongs to a symbol. */
  lemma {:induction false} SymbolOfRank(lens: seq<nat>, k: nat, t: nat) returns (s: nat)
    requires t < Count(lens, k)
    ensures s < |lens| && lens[s] == k && Rank(lens, s) == t
  {
    var n := |lens| - 1;
    if lens[n] == k && Count(lens[..n], k) == t {
      s := n;
    } else {
      s := SymbolOfRank(lens[..n], k, t);
      assert lens[..n][..s] == lens[..s];
    }
  }

  /** Every code from the first to the last of its length belongs to a symbol. */
  lemma SymbolWithin(lens: seq<nat>, k: nat, c: nat) returns (s: nat)
    requires 1 <= k && FirstCode(lens, k) <= c < EndCode(lens, k)
    ensures s < |lens| && lens[s] == k && CodeOf(lens, s) == c
  {
    s := SymbolOfRank(lens, k, c - FirstCode(lens, k));
  }

  // ---------- the code space ----------

  /** Past the codes of some length, a stream stays past the codes of every shorter length. */
  lemma {:induction false} PastShorter(lens: seq<nat>, v: nat, j: nat, k: nat)
    requires 1 <= j < k && Code(v, k) >= FirstCode(lens, k)
    ensures Code(v, j) >= EndCode(lens, j)
  {
    CodeSnoc(v, k - 1);
    if j < k - 1 {
      PastShorter(lens, v, j, k - 1);
    }
  }

  lemma NoCodeAt(lens: seq<nat>, v: nat, k: nat)
    requires 1 <= k && Code(v, k) >= EndCode(lens, k)
    ensures !exists s :: HasCode(lens, s, k, Code(v, k))
  {
    forall s | HasCode(lens, s, k, Code(v, k)) ensures false {
      RankBound(lens, s);
    }
  }

  /** The decoder has found nothing in its first `k` bits exactly when it is past their codes. */
  lemma {:induction false} DecodeSkips(lens: seq<nat>, v: nat, k: nat)
    requires k <= MAX_BITS
    requires forall j :: 1 <= j <= k ==> Code(v, j) >= EndCode(lens, j)
    ensures Decode(lens, v) == DecodeFrom(lens, Drop(v, k), k, Code(v, k))
    decreases k
  {
    hide *;
    if k == 0 {
      DecodeStarts(lens, v);
    } else {
      DecodeSkips(lens, v, k - 1);
      NoCodeAt(lens, v, k);
      DropStep(v, k - 1);
      CodeSnoc(v, k - 1);
      DecodeMisses(lens, Drop(v, k - 1), k - 1, Code(v, k - 1), k, Code(v, k));
    }
  }

  /** The codes of length `k` are those from FirstCode up to EndCode: a stream there decodes to
      the symbol of that rank. */
  lemma DecodeHit(lens: seq<nat>, v: nat, s: nat)
    requires s < |lens| && 1 <= lens[s] <= MAX_BITS && Code(v, lens[s]) == CodeOf(lens, s)
    ensures Decode(lens, v) == Symbol(s, lens[s])
  {
    hide DecodeFrom;
    hide EndCode;
    var k := lens[s];
    forall j | 1 <= j <= k - 1 ensures Code(v, j) >= EndCode(lens, j) {
      PastShorter(lens, v, j, k);
    }
    DecodeSkips(lens, v, k - 1);
    CodeSnoc(v, k - 1);
    DecodeFinds(lens, Drop(v, k - 1), k - 1, Code(v, k - 1), s);
  }

  lemma DecodeStarts(lens: seq<nat>, v: nat)
    ensures Decode(lens, v) == DecodeFrom(lens, Drop(v, 0), 0, Code(v, 0))
  {
    hide DecodeFrom;
  }

  lemma DecodeMisses(lens: seq<nat>, v: nat, k: nat, code: nat, k': nat, code': nat)
    requires k < MAX_BITS && k' == k + 1 && code' == 2 * code + v % 2
    requires !exists s :: HasCode(lens, s, k', code')
    ensures DecodeFrom(lens, v, k, code) == DecodeFrom(lens, v / 2, k', code')
  {
    hide HasCode;
  }

  lemma DecodeFinds(lens: seq<nat>, v: nat, k: nat, code: nat, s: nat)
    requires k < MAX_BITS && HasCode(lens, s, k + 1, 2 * code + v % 2)
    ensures DecodeFrom(lens, v, k, code) == Symbol(s, k + 1)
  {
    var k', code' := k + 1, 2 * code + v % 2;
    forall s' | HasCode(lens, s', k', code') ensures s' == s {
      RankInjective(lens, s, s');
    }
  }

  /** A stream past the codes of the longest length has no code. */
  lemma DecodeMiss(lens: seq<nat>, v: nat)
    requires Code(v, MAX_BITS) >= EndCode(lens, MAX_BITS)
    ensures Decode(lens, v) == NoCode
  {
    forall j | 1 <= j <= MAX_BITS ensures Code(v, j) >= EndCode(lens, j) {
      if j < MAX_BITS {
        PastShorter(lens, v, j, MAX_BITS);
      }
    }
    DecodeSkips(lens, v, MAX_BITS);
  }

  /** The least length whose codes the stream is not past. */
  lemma {:induction false} FindLength(lens: seq<nat>, v: nat, k: nat) returns (m: nat)
    requires 1 <= k && Code(v, k) < EndCode(lens, k)
    ensures 1 <= m <= k && FirstCode(lens, m) <= Code(v, m) < EndCode(lens, m)
  {
    CodeSnoc(v, k - 1);
    if Code(v, k) >= FirstCode(lens, k) {
      m := k;
    } else {
      m := FindLength(lens, v, k - 1);
    }
  }

  /** The bit-at-a-time decoder finds the one symbol whose code the stream begins with: no code
      is a prefix of another. */
  lemma DecodeIff(lens: seq<nat>, v: nat, s: nat, k: nat)
    requires ValidLengths(lens)
    ensures Decode(lens, v) == Symbol(s, k)
       <==> 1 <= k && HasCode(lens, s, k, Code(v, k))
  {
    if 1 <= k && HasCode(lens, s, k, Code(v, k)) {
      DecodeHit(lens, v, s);
    }
    if Decode(lens, v) == Symbol(s, k) {
      if Code(v, MAX_BITS) >= EndCode(lens, MAX_BITS) {
        DecodeMiss(lens, v);
      } else {
        var m := FindLength(lens, v, MAX_BITS);
        var s' := SymbolOfRank(lens, m, Code(v, m) - FirstCode(lens, m));
        DecodeHit(lens, v, s');
      }
    }
  }

  /** Decoding looks at no bit after the longest code. */
  lemma DecodeLow(lens: seq<nat>, v: nat, u: nat)
    requires ValidLengths(lens) && Low(v, MAX_BITS) == Low(u, MAX_BITS)
    ensures Decode(lens, v) == Decode(lens, u)
  {
    forall k: nat | k <= MAX_BITS ensures Code(v, k) == Code(u, k) {
      LowLow(v, k, MAX_BITS);
      LowLow(u, k, MAX_BITS);
      CodeLow(v, k);
      CodeLow(u, k);
    }
    if Code(v, MAX_BITS) >= EndCode(lens, MAX_BITS) {
      DecodeMiss(lens, v);
      DecodeMiss(lens, u);
    } else {
      var m := FindLength(lens, v, MAX_BITS);
      var s := SymbolOfRank(lens, m, Code(v, m) - FirstCode(lens, m));
      DecodeHit(lens, v, s);
      DecodeHit(lens, u, s);
    }
  }

  /** Over-subscription at some length stays. */
  lemma {:induction false} EndGrows(lens: seq<nat>, j: nat, k: nat)
    requires 1 <= j <= k && EndCode(lens, j) > Pow2(j)
    ensures EndCode(lens, k) > Pow2(k)
  {
    if j < k {
      EndGrows(lens, j, k - 1);
    }
  }

  /** Codes that are not over-subscribed fit their length. */
  lemma CodeFits(lens: seq<nat>, s: nat)
    requires s < |lens| && 1 <= lens[s] <= MAX_BITS && NotOversubscribed(lens)
    ensures CodeOf(lens, s) < Pow2(lens[s])
  {
    RankBound(lens, s);
    if EndCode(lens, lens[s]) > Pow2(lens[s]) {
      EndGrows(lens, lens[s], MAX_BITS);
    }
  }

  // ---------- symbols in code order ----------

  /** Where the symbols of length `k` begin in a list ordered by length, then by symbol. */
  function Offset(lens: seq<nat>, k: nat): nat {
    if k <= 1 then 0 else Offset(lens, k - 1) + Count(lens, k - 1)
  }

  function Slot(lens: seq<nat>, s: nat): nat
    requires s < |lens|
  {
    Offset(lens, lens[s]) + Rank(lens, s)
  }

  lemma {:induction false} OffsetMono(lens: seq<nat>, j: nat, k: nat)
    requires 1 <= j < k
    ensures Offset(lens, j) + Count(lens, j) <= Offset(lens, k)
  {
    if j < k - 1 {
      OffsetMono(lens, j, k - 1);
    }
  }

  /** No two used symbols share a slot. */
  lemma SlotInjective(lens: seq<nat>, s: nat, s': nat)
    requires s < |lens| && s' < |lens| && lens[s] > 0 && lens[s'] > 0
    requires Slot(lens, s) == Slot(lens, s')
    ensures s == s'
  {
    RankBound(lens, s);
    RankBound(lens, s');
    if lens[s] == lens[s'] {
      RankInjective(lens, s, s');
    } else if lens[s] < lens[s'] {
      OffsetMono(lens, lens[s], lens[s']);
    } else {
      OffsetMono(lens, lens[s'], lens[s]);
    }
  }

  /** All slots lie below the number of used symbols, which is at most the number of symbols. */
  lemma {:induction false} OffsetBound(lens: seq<nat>, k: nat)
    ensures Offset(lens, k) + (if k == 0 then 0 else Count(lens, k)) <= |lens|
  {
    if lens == [] {
      OffsetEmpty(k);
    } else {
      var n := |lens| - 1;
      OffsetBound(lens[..n], k);
      OffsetPush(lens, k);
    }
  }

  lemma {:induction false} OffsetEmpty(k: nat)
    ensures Offset([], k) == 0
  {
    if k > 1 {
      OffsetEmpty(k - 1);
    }
  }

  lemma {:induction false} OffsetPush(lens: seq<nat>, k: nat)
    requires lens != []
    ensures var n := |lens| - 1;
      Offset(lens, k) == Offset(lens[..n], k) + (if 1 <= lens[n] < k then 1 else 0)
  {
    if k > 1 {
      OffsetPush(lens, k - 1);
    }
  }

  /** The patterns that the codes of up to `d` bits of a complete code leave are at most as many as
      there are longer codes. */
  lemma {:induction false} LeftForLonger(lens: seq<nat>, d: nat, k: nat)
    requires 1 <= d <= k && EndCode(lens, k) <= Pow2(k)
    ensures EndCode(lens, d) <= Pow2(d)
    ensures Pow2(d) - EndCode(lens, d) <= Pow2(k) - EndCode(lens, k) + (Offset(lens, k) + Count(lens, k)) - (Offset(lens, d) + Count(lens, d))
  {
    if d < k {
      LeftForLonger(lens, d, k - 1);
    }
  }
}
