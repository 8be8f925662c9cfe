/** The decoding tables of a dynamic block: inflate_trees_bits and inflate_trees_dynamic in
    DuiLib/Utils/XUnzip.cpp.  Whatever code lengths they accept, their tables decode like the
    bit-at-a-time decoder.
  */
module Trees {
  import opened Bits
  import opened Canonical
  import opened Deflate
  import opened HuftSpec
  import opened HuftBuild
  import opened HuftTheorem
  import opened HuftSpace
  import opened HuftEnough
  import opened Huft

  const CPLENS: seq<nat> := [
    3, 4, 5, 6, 7, 8, 9, 10, 11, 13, 15, 17, 19, 23, 27, 31,
    35, 43, 51, 59, 67, 83, 99, 115, 131, 163, 195, 227, 258, 0, 0]

  const CPLEXT: seq<nat> := [
    0, 0, 0, 0, 0, 0, 0, 0, 1, 1, 1, 1, 2, 2, 2, 2, 3, 3, 3, 3, 4, 4, 4, 4, 5, 5, 5, 5, 0, 112, 112]

  const CPDIST: seq<nat> := [
    1, 2, 3, 4, 5, 7, 9, 13, 17, 25, 33, 49, 65, 97, 129, 193,
    257, 385, 513, 769, 1025, 1537, 2049, 3073, 4097, 6145, 8193, 12289, 16385, 24577]

  const CPDEXT: seq<nat> := [
    0, 0, 0, 0, 1, 1, 2, 2, 3, 3, 4, 4, 5, 5, 6, 6, 7, 7, 8, 8, 9, 9, 10, 10, 11, 11, 12, 12, 13, 13]

  const BIT_VALUES := Values(19, [], [])
  const LIT_VALUES := Values(257, CPLENS, CPLEXT)
  const DIST_VALUES := Values(0, CPDIST, CPDEXT)

  /** The tables at `root`, first looked up with `bits` bits, decode `lens` bit by bit. */
  ghost predicate Decodes(t: seq<Entry>, root: nat, bits: nat, vals: Values, lens: seq<nat>) {
    && (forall v: nat {:trigger Decode(lens, v)} :: Agrees(vals, Decode(lens, v), Walk(t, root, bits, v, BMAX)))
    && (forall v: nat {:trigger NarrowFrom(t, root, bits, v)} :: NarrowFrom(t, root, bits, v))
  }

  /** Complete codes, and a code of one symbol of one bit. */
  ghost predicate Acceptable(lens: seq<nat>) {
    !AllZero(lens) && (EndCode(lens, BMAX) == Pow2(BMAX) || (IsLongest(lens, 1) && EndCode(lens, BMAX) < Pow2(BMAX)))
  }

  // ---------- the codes of a block are sparse ----------

  lemma MultipleBelow(d: nat, l: nat, n: nat)
    requires l >= 1 && d % l == 0 && d < l * n && d >= l
    ensures n >= 2 && (n == 2 ==> d == l) && (n == 3 ==> d == l || d == 2 * l)
  {
    var q := d / l;
    assert d == q * l;
    if q >= n {
      MulMono(n, q, l);
    }
    if q < 1 {
      MulMono(q, 0, l);
    }
    assert 1 <= q < n;
  }

  lemma ShortestCounts(lens: seq<nat>, least: nat, l: nat)
    requires IsShortest(lens, least) && least <= l
    ensures EndCode(lens, l) > 0
  {
    EndPositive(lens, least, l);
  }

  /** With tables of at least eight bits there is at most one boundary, and some code ends before
      it. */
  lemma WideTablesSparse(lens: seq<nat>, least: nat, g: nat, l: nat)
    requires IsShortest(lens, least) && least <= l <= g <= BMAX && (l >= 8 || l == g)
    ensures Sparse(lens, g, l)
  {
    hide EndCode;
    hide Pow2;
    ShortestCounts(lens, least, l);
    forall d: nat {:trigger Dense(lens, g, l, d)} ensures !Dense(lens, g, l, d) {
      if l <= d < g && d % l == 0 {
        MultipleBelow(d, l, 2);
      }
    }
  }

  /** A complete code with few symbols leaves few patterns for longer codes. */
  lemma FewSymbolsSparse(lens: seq<nat>, least: nat, g: nat, l: nat)
    requires IsShortest(lens, least) && least <= l <= g <= BMAX && 6 <= l && |lens| < 64
    requires EndCode(lens, g) == Pow2(g)
    ensures Sparse(lens, g, l)
  {
    hide EndCode;
    hide Pow2;
    ShortestCounts(lens, least, l);
    SmallPowers();
    forall d: nat {:trigger Dense(lens, g, l, d)} ensures !Dense(lens, g, l, d) {
      if l <= d < g && d % l == 0 {
        MultipleBelow(d, l, 3);
        LeftForLonger(lens, d, g);
        OffsetBound(lens, g);
        Pow2Mono(6, l);
      }
    }
  }

  /** What a successful build of an acceptable code gives. */
  lemma TablesDecode(lens: seq<nat>, g: nat, m: nat, least: nat, vals: Values, t: seq<Entry>, t0: seq<Entry>, infos: seq<Info>, lo: nat)
    requires IsLongest(lens, g) && IsShortest(lens, least) && 1 <= least <= m <= g
    requires Built(Shape(lens, g, m), vals, t, t0, infos, lo) && Sparse(lens, g, m)
    ensures Decodes(t, lo, m, vals, lens)
  {
    hide Built;
    hide Sparse;
    hide Decode;
    hide Walk;
    hide Agrees;
    hide NarrowFrom;
    forall v: nat {:trigger Decode(lens, v)} {:trigger NarrowFrom(t, lo, m, v)}
      ensures Agrees(vals, Decode(lens, v), Walk(t, lo, m, v, BMAX)) && NarrowFrom(t, lo, m, v)
    {
      SparseAgrees(Shape(lens, g, m), vals, t, t0, infos, lo, least, v);
    }
  }

  /** Later tables do not disturb earlier ones. */
  lemma KeepBuilt(sh: Shape, vals: Values, t: seq<Entry>, t0: seq<Entry>, infos: seq<Info>, lo: nat, t': seq<Entry>)
    requires Built(sh, vals, t, t0, infos, lo) && |t'| == |t|
    requires forall e {:trigger t'[e]} :: 0 <= e < |infos| ==> t'[e] == t[e]
    ensures Built(sh, vals, t', t', infos, lo)
  {
    hide TableOK;
    hide Cons;
    hide Registry;
    forall e: nat {:trigger Live(sh, infos, lo, e)} | Live(sh, infos, lo, e) ensures Cons(sh, vals, t', infos, e) {
      assert t'[e] == t[e];
      KeepCons(sh, vals, t, infos, e, t');
    }
  }

  lemma KeepCons(sh: Shape, vals: Values, t: seq<Entry>, infos: seq<Info>, e: nat, t': seq<Entry>)
    requires e < |infos| <= |t| == |t'| && infos[e].start <= e && t'[e] == t[e]
    requires Cons(sh, vals, t, infos, e)
    ensures Cons(sh, vals, t', infos, e)
  {
    hide Code;
    hide Codes;
    hide FirstCode;
    hide PrefixAt;
  }

  /** The code that a build has accepted. */
  lemma BuildAccepts(lens: seq<nat>, g: nat, r: Status)
    requires lens != [] && ValidLengths(lens) && (!AllZero(lens) ==> IsLongest(lens, g))
    requires r == Ok || r == BufError
    requires EndCode(lens, BMAX) <= Pow2(BMAX)
    requires !AllZero(lens) ==> (r == BufError <==> EndCode(lens, BMAX) < Pow2(BMAX) && !IsLongest(lens, 1))
    requires AllZero(lens) ==> r == Ok
    ensures r == Ok && !AllZero(lens) <==> Acceptable(lens)
  {
    hide EndCode;
    hide Pow2;
    hide IsLongest;
  }

  /** Tables of the asked width for a distance code that is accepted. */
  lemma AcceptableSparse(lens: seq<nat>, least: nat, g: nat, m0: nat)
    requires ValidLengths(lens) && IsLongest(lens, g) && IsShortest(lens, least) && least <= g
    requires EndCode(lens, BMAX) <= Pow2(BMAX)
    requires m0 >= 8 || g <= m0 || (m0 >= 6 && |lens| < 64 && Acceptable(lens))
    ensures Sparse(lens, g, Clamp(m0, least, g))
  {
    hide Sparse;
    hide EndCode;
    hide Pow2;
    LongestRange(lens, least, g);
    var m := Clamp(m0, least, g);
    if m >= 8 || m == g {
      WideTablesSparse(lens, least, g, m);
    } else {
      LongestOne(lens, g);
      AtLongest(lens, g);
      FewSymbolsSparse(lens, least, g, m);
    }
  }

  lemma LongestRange(lens: seq<nat>, least: nat, g: nat)
    requires ValidLengths(lens) && IsLongest(lens, g) && IsShortest(lens, least)
    ensures 1 <= least <= g <= BMAX
  {
    CountPositive(lens, g);
    CountPositive(lens, least);
  }

  lemma LongestOne(lens: seq<nat>, g: nat)
    requires IsLongest(lens, g) && g > 1
    ensures !IsLongest(lens, 1)
  {
    CountPositive(lens, g);
  }

  lemma AtLongest(lens: seq<nat>, g: nat)
    requires ValidLengths(lens) && IsLongest(lens, g) && 1 <= g <= BMAX && EndCode(lens, BMAX) <= Pow2(BMAX)
    ensures EndCode(lens, g) <= Pow2(g) && (EndCode(lens, BMAX) == Pow2(BMAX) <==> EndCode(lens, g) == Pow2(g))
  {
    if EndCode(lens, g) > Pow2(g) {
      EndGrows(lens, g, BMAX);
    }
    SlackDoubles(lens, g, BMAX);
  }

  /** The shortest code of a complete code is short: its length is at most one more than the number
      of bits that count the symbols. */
  lemma ShortestIsShort(lens: seq<nat>, least: nat, n: nat)
    requires ValidLengths(lens) && IsShortest(lens, least) && 1 <= least && |lens| < Pow2(n) && Acceptable(lens)
    ensures least <= n || least == 1
  {
    hide EndCode;
    hide Pow2;
    if least > 1 {
      AcceptableComplete(lens, least);
      NoneShorter(lens, least, least - 1);
      LeftForLonger(lens, least - 1, BMAX);
      OffsetBound(lens, BMAX);
      if least > n {
        Pow2Mono(n, least - 1);
      }
    }
  }

  lemma AcceptableComplete(lens: seq<nat>, least: nat)
    requires IsShortest(lens, least) && 1 < least && Acceptable(lens)
    ensures EndCode(lens, BMAX) == Pow2(BMAX)
  {
    hide EndCode;
    hide Pow2;
    if IsLongest(lens, 1) {
      CountPositive(lens, least);
    }
  }

  lemma {:induction false} NoneShorter(lens: seq<nat>, least: nat, k: nat)
    requires IsShortest(lens, least) && k < least
    ensures EndCode(lens, k) == 0
  {
    if k > 0 {
      NoneShorter(lens, least, k - 1);
      if Count(lens, k) > 0 {
        CountPositive(lens, k);
      }
    }
  }

  // ---------- space ----------

  /** The greatest code length. */
  function Longest(lens: seq<nat>): nat {
    if lens == [] then 0
    else
      var n, last := Longest(lens[..|lens| - 1]), lens[|lens| - 1];
      if n < last then last else n
  }

  lemma {:induction false} LongestLen(lens: seq<nat>)
    ensures forall s :: 0 <= s < |lens| ==> lens[s] <= Longest(lens)
    ensures Longest(lens) > 0 ==> exists s :: 0 <= s < |lens| && lens[s] == Longest(lens)
    decreases |lens|
  {
    if lens != [] {
      LongestLen(lens[..|lens| - 1]);
    }
  }

  lemma LongestIs(lens: seq<nat>, g: nat)
    requires IsLongest(lens, g)
    ensures Longest(lens) == g
  {
    LongestLen(lens);
    CountPositive(lens, g);
  }

  /** What the tables of a code with a first table of `m0` bits take at most. */
  function MostEntries(lens: seq<nat>, m0: nat): nat {
    Levels(Longest(lens), m0) * Pow2(Longest(lens))
  }

  lemma MostEntriesBound(lens: seq<nat>, g: nat, m0: nat, least: nat)
    requires IsLongest(lens, g) && IsShortest(lens, least) && 1 <= least <= g && m0 >= 1
    ensures Levels(g, Clamp(m0, least, g)) * Pow2(g) <= MostEntries(lens, m0)
  {
    hide Pow2;
    hide IsLongest;
    hide IsShortest;
    LongestIs(lens, g);
    var m := Clamp(m0, least, g);
    if g > m0 {
      LevelWider(g - 1, m0, m);
      MulMono(Levels(g, m), Levels(g, m0), Pow2(g));
    }
  }

  /** Codes of up to nine and eight bits take no more than 1024 entries. */
  lemma ShortEntries(lens: seq<nat>, m0: nat, n: nat)
    requires (forall s :: 0 <= s < |lens| ==> lens[s] <= n) && ((m0 == 9 && n == 9) || (m0 == 6 && n == 8) || (m0 == 7 && n == 7))
    ensures MostEntries(lens, m0) <= 512
  {
    LongestLen(lens);
    var g := Longest(lens);
    assert g <= n;
    SmallPowers();
    Pow2Mono(g, n);
    if g <= m0 {
      assert Levels(g, m0) <= 1;
      MulMono(Levels(g, m0), 1, Pow2(g));
    } else {
      assert Levels(g, m0) == 2;
    }
  }

  const LIT_SPACE: nat := 928
  const DIST_SPACE: nat := 268

  /** The entries for a code with a first table of nine bits and up to 288 symbols, or of six bits and up to 30. */
  function SpaceFor(lens: seq<nat>, m0: nat): nat {
    if m0 == 9 && |lens| <= 288 then LIT_SPACE else if m0 == 6 && |lens| <= 30 then DIST_SPACE else MANY + 1
  }

  lemma EnoughFor(lens: seq<nat>, g: nat, least: nat, m0: nat)
    requires IsLongest(lens, g) && IsShortest(lens, least) && 1 <= least <= g <= BMAX && Clamp(m0, least, g) <= m0
    requires (m0 == 9 && |lens| <= 288) || (m0 == 6 && |lens| <= 30)
    ensures g <= 3 * Clamp(m0, least, g)
    ensures Enough(Shape(lens, g, Clamp(m0, least, g))) <= SpaceFor(lens, m0)
  {
    hide Pow2;
    hide IsLongest;
    hide IsShortest;
    var l := Clamp(m0, least, g);
    SmallPowers();
    Pow2Mono(l, m0);
    if l < g {
      assert l == m0;
      Pow2Mono(if 2 * l <= g then l else g - l, 6);
      if 2 * l < g {
        Pow2Mono(g - 2 * l, 3);
      }
    }
  }

  /** There is room for all tables of a code that is accepted. */
  lemma RoomForAccepted(lens: seq<nat>, g: nat, least: nat, m0: nat, infos: seq<Info>, lo: nat)
    requires lens != [] && ValidLengths(lens) && Acceptable(lens) && IsLongest(lens, g) && IsShortest(lens, least)
    requires (m0 == 9 && |lens| <= 288) || (m0 == 6 && |lens| <= 30)
    requires var sh := Shape(lens, g, Clamp(m0, least, g)); Registry(sh, infos, lo) && NeededOnce(sh, infos, lo)
    ensures |infos| <= lo + SpaceFor(lens, m0)
    ensures OutOfSpace(Shape(lens, g, Clamp(m0, least, g)), infos, lo) ==> lo + SpaceFor(lens, m0) > MANY
  {
    hide *;
    LongestRange(lens, least, g);
    var l := Clamp(m0, least, g);
    var sh := Shape(lens, g, l);
    WidthAtMost(lens, least, g, m0, if m0 == 9 then 9 else 5);
    EnoughFor(lens, g, least, m0);
    if IsComplete(lens) {
      CompleteShape(lens, g, least, m0);
      EnoughEntries(sh, infos, lo);
      if OutOfSpace(sh, infos, lo) {
        SpaceEnough(sh, infos, lo);
      }
    } else {
      SingleSpace(lens, g, least, m0);
      EntriesBound(sh, infos, lo) by {
        OnceIs(sh, infos, lo);
      }
      if OutOfSpace(sh, infos, lo) {
        SpaceNeeded(sh, infos, lo);
      }
    }
  }

  lemma OnceIs(sh: Shape, infos: seq<Info>, lo: nat)
    requires NeededOnce(sh, infos, lo)
    ensures NoTableTwice(infos, lo)
  {
  }

  ghost predicate IsComplete(lens: seq<nat>) {
    EndCode(lens, BMAX) == Pow2(BMAX)
  }

  lemma CompleteShape(lens: seq<nat>, g: nat, least: nat, m0: nat)
    requires lens != [] && ValidLengths(lens) && Acceptable(lens) && IsComplete(lens) && IsLongest(lens, g) && IsShortest(lens, least)
    requires 1 <= least <= g <= BMAX && ((m0 == 9 && |lens| <= 288) || (m0 == 6 && |lens| <= 30))
    requires Clamp(m0, least, g) <= m0 && g <= 3 * Clamp(m0, least, g)
    ensures ThreeLevels(Shape(lens, g, Clamp(m0, least, g)))
  {
    hide EndCode;
    hide Pow2;
    hide Sparse;
    hide Acceptable;
    AtLongest(lens, g);
    AcceptableSparse(lens, least, g, m0);
  }

  lemma SingleSpace(lens: seq<nat>, g: nat, least: nat, m0: nat)
    requires Acceptable(lens) && !IsComplete(lens) && IsLongest(lens, g) && 1 <= least <= g && m0 in {6, 9}
    requires (m0 == 9 && |lens| <= 288) || (m0 == 6 && |lens| <= 30)
    ensures Levels(g, Clamp(m0, least, g)) * Pow2(g) <= 2 <= SpaceFor(lens, m0)
  {
    hide EndCode;
    CountPositive(lens, g);
    CountPositive(lens, 1);
    assert g == 1 && Clamp(m0, least, g) == 1;
    assert Levels(1, 1) == 1;
    SmallPowers();
  }

  /** `infos` describes, from entry `lo` on, different tables of this code, each of which some code enters. */
  ghost predicate TablesOf(lens: seq<nat>, m0: nat, infos: seq<Info>, lo: nat) {
    exists g: nat, least: nat {:trigger Clamp(m0, least, g)} ::
      && IsLongest(lens, g) && IsShortest(lens, least)
      && var sh := Shape(lens, g, Clamp(m0, least, g)); Registry(sh, infos, lo) && NeededOnce(sh, infos, lo)
  }

  /** So it does, and there is no room for one more that some code enters. */
  ghost predicate Starved(lens: seq<nat>, m0: nat, infos: seq<Info>, lo: nat) {
    exists g: nat, least: nat {:trigger Clamp(m0, least, g)} ::
      && IsLongest(lens, g) && IsShortest(lens, least)
      && var sh := Shape(lens, g, Clamp(m0, least, g)); Registry(sh, infos, lo) && NeededOnce(sh, infos, lo) && OutOfSpace(sh, infos, lo)
  }

  /** One build, and its tables. */
  method BuildOne(lens: seq<nat>, vals: Values, m0: nat, hp: array<Entry>, hn0: nat, v: array<nat>)
    returns (r: Status, t: nat, m: nat, hn: nat, ghost g: nat, ghost least: nat, ghost infos: seq<Info>)
    requires lens != [] && ValidLengths(lens) && vals.Covers(|lens|) && |lens| <= v.Length
    requires hp.Length == MANY && hn0 <= MANY
    requires m0 >= 1 && (m0 >= 8 || (forall i :: 0 <= i < |lens| ==> lens[i] <= m0) || (m0 >= 6 && |lens| < 64))
    modifies hp, v
    ensures forall e {:trigger hp[e]} :: 0 <= e < hn0 ==> hp[e] == old(hp[e])
    ensures AllZero(lens) ==> r == Ok && m == 0 && hn == hn0 && hp[..] == old(hp[..])
    ensures !AllZero(lens) ==> m > 0
    ensures r != MemError ==> (r == Ok && m > 0 <==> Acceptable(lens))
    // the entries taken are those of different tables of the code; space runs out only when one more of them
    // does not fit, which takes a long code
    ensures r == MemError ==> EndCode(lens, BMAX) <= Pow2(BMAX) && Starved(lens, m0, infos, hn0)
    ensures r == Ok && m > 0 ==> TablesOf(lens, m0, infos, hn0)
    ensures hn0 + MostEntries(lens, m0) <= MANY ==> r != MemError
    ensures r == Ok ==> hn <= hn0 + MostEntries(lens, m0)
    // and does not happen to a code that is accepted
    ensures Acceptable(lens) && hn0 + SpaceFor(lens, m0) <= MANY ==> r == Ok && hn <= hn0 + SpaceFor(lens, m0)
    ensures r == DataError <==> EndCode(lens, BMAX) > Pow2(BMAX)
    ensures r == Ok && m > 0 ==>
              && Built(Shape(lens, g, m), vals, hp[..], old(hp[..]), infos, t) && |infos| == hn <= MANY
              && IsLongest(lens, g) && IsShortest(lens, least) && 1 <= least <= m <= g && Sparse(lens, g, m)
              && Decodes(hp[..], t, m, vals, lens) && m == Clamp(m0, least, g)
  {
    hide *;
    least := 0;
    r, t, m, hn, g, infos := Build(lens, vals, m0, hp, hn0, v);
    if r == Ok || r == BufError {
      BuildAccepts(lens, g, r);
    }
    AcceptableNot(lens);
    if m > 0 {
      least :| IsShortest(lens, least) && m == Clamp(m0, least, g);
      LongestRange(lens, least, g);
      MostEntriesBound(lens, g, m0, least);
      if r != DataError {
        SpaceTaken(lens, g, least, m0, infos, hn0);
        if Acceptable(lens) && hn0 + SpaceFor(lens, m0) <= MANY {
          SpaceCases(lens, m0);
          RoomForAccepted(lens, g, least, m0, infos, hn0);
        }
      }
    }
    if r == Ok && m > 0 {
      if forall i :: 0 <= i < |lens| ==> lens[i] <= m0 {
        WithinLongest(lens, g, m0);
      }
      AcceptableSparse(lens, least, g, m0);
      ClampRange(m0, least, g);
      TablesDecode(lens, g, m, least, vals, hp[..], old(hp[..]), infos, t);
    }
  }

  lemma SpaceTaken(lens: seq<nat>, g: nat, least: nat, m0: nat, infos: seq<Info>, lo: nat)
    requires IsLongest(lens, g) && IsShortest(lens, least)
    requires var sh := Shape(lens, g, Clamp(m0, least, g)); Registry(sh, infos, lo) && NeededOnce(sh, infos, lo)
    ensures TablesOf(lens, m0, infos, lo)
    ensures OutOfSpace(Shape(lens, g, Clamp(m0, least, g)), infos, lo) ==> Starved(lens, m0, infos, lo)
    ensures |infos| <= lo + Levels(g, Clamp(m0, least, g)) * Pow2(g)
  {
    hide Registry;
    hide NoTableTwice;
    hide OutOfSpace;
    hide Levels;
    hide Pow2;
    hide IsLongest;
    hide IsShortest;
    EntriesBound(Shape(lens, g, Clamp(m0, least, g)), infos, lo);
  }

  lemma SpaceCases(lens: seq<nat>, m0: nat)
    requires SpaceFor(lens, m0) <= MANY
    ensures (m0 == 9 && |lens| <= 288) || (m0 == 6 && |lens| <= 30)
  {
  }

  lemma AcceptableNot(lens: seq<nat>)
    ensures Acceptable(lens) ==> !AllZero(lens) && EndCode(lens, BMAX) <= Pow2(BMAX)
  {
    hide EndCode;
    hide Pow2;
    hide IsLongest;
  }

  lemma WithinLongest(lens: seq<nat>, g: nat, m0: nat)
    requires IsLongest(lens, g) && forall i :: 0 <= i < |lens| ==> lens[i] <= m0
    ensures g <= m0
  {
    CountPositive(lens, g);
  }

  /** inflate_trees_bits: the table for 19 code lengths of up to seven bits. */
  method TreesBits(c: seq<nat>, hp: array<Entry>) returns (r: Status, bb: nat, tb: nat)
    requires |c| == 19 && (forall i :: 0 <= i < 19 ==> c[i] <= 7) && hp.Length == MANY
    modifies hp
    // there is always room
    ensures (r == Ok <==> Acceptable(c)) && (r == DataError <==> !Acceptable(c))
    ensures r == Ok ==> bb > 0 && Decodes(hp[..], tb, bb, BIT_VALUES, c)
  {
    hide Decodes;
    hide Acceptable;
    hide Built;
    hide MostEntries;
    hide Starved;
    hide TablesOf;
    ShortEntries(c, 7, 7);
    var v := new nat[19];
    ghost var g, least, infos;
    var hn;
    r, tb, bb, hn, g, least, infos := BuildOne(c, BIT_VALUES, 7, hp, 0, v);
    if r == DataError {
      AcceptableNot(c);
    } else if r == BufError || (r == Ok && bb == 0) {
      r := DataError;
    }
  }

  /** inflate_trees_dynamic: the tables of both codes of a block, one after the other in `hp`. */
  method TreesDynamic(nl: nat, nd: nat, c: seq<nat>, hp: array<Entry>)
    returns (r: Status, bl: nat, bd: nat, tl: nat, td: nat, ghost infos1: seq<Info>, ghost infos2: seq<Info>)
    requires 257 <= nl <= 288 && 1 <= nd <= 30 && |c| == nl + nd && ValidLengths(c) && hp.Length == MANY
    modifies hp
    // accepted exactly when both codes are acceptable; there may be no distance code when there are no length
    // codes.  The space is always enough for such codes
    ensures r == Ok <==> Acceptable(c[..nl]) && (Acceptable(c[nl..]) || (AllZero(c[nl..]) && nl == 257))
    ensures r == Ok || r == DataError || r == MemError
    // space runs out only when different tables of the first code, or all tables of it and different ones of
    // the second, each entered by a code, have taken the entries up to some point, and the next does not fit
    ensures r == MemError ==>
              || (EndCode(c[..nl], BMAX) <= Pow2(BMAX) && Starved(c[..nl], 9, infos1, 0))
              || (Acceptable(c[..nl]) && EndCode(c[nl..], BMAX) <= Pow2(BMAX)
                  && TablesOf(c[..nl], 9, infos1, 0) && Starved(c[nl..], 6, infos2, |infos1|))
    // which takes long codes: longer than nine bits, or distance codes longer than eight
    ensures MostEntries(c[..nl], 9) + MostEntries(c[nl..], 6) <= MANY ==> r != MemError
    ensures (forall s :: 0 <= s < nl ==> c[s] <= 9) && (forall s :: nl <= s < |c| ==> c[s] <= 8) ==> r != MemError
    ensures r == Ok ==> 0 < bl <= 9 && Decodes(hp[..], tl, bl, LIT_VALUES, c[..nl])
    ensures r == Ok && bd > 0 ==> bd <= 6 && Decodes(hp[..], td, bd, DIST_VALUES, c[nl..])
    ensures r == Ok && bd == 0 ==> nl == 257
  {
    hide *;
    bd, td := 0, 0;
    var v := new nat[288];
    PartsValid(c, nl);
    infos1, infos2 := [], [];
    ghost var g1, g2, least1, least2;
    ShortParts(c, nl);
    BothFit(c, nl);
    var hn;
    r, tl, bl, hn, g1, least1, infos1 := BuildOne(c[..nl], LIT_VALUES, 9, hp, 0, v);
    if r != Ok || bl == 0 {
      if r != DataError && r != MemError {
        r := DataError;
      }
      return;
    }
    WidthAtMost(c[..nl], least1, g1, 9, 9);
    ghost var t0, t1 := old(hp[..]), hp[..];
    r, td, bd, hn, g2, least2, infos2 := BuildOne(c[nl..], DIST_VALUES, 6, hp, hn, v);
    KeepBuilt(Shape(c[..nl], g1, bl), LIT_VALUES, t1, t0, infos1, tl, hp[..]);
    TablesDecode(c[..nl], g1, bl, least1, LIT_VALUES, hp[..], hp[..], infos1, tl);
    if r != Ok || (bd == 0 && nl > 257) {
      if r == BufError || (r != DataError && r != MemError) {
        r := DataError;
      }
      return;
    }
    if bd > 0 {
      WidthAtMost(c[nl..], least2, g2, 6, 5);
    }
  }

  /** The first table is no wider than asked for. */
  lemma WidthAtMost(lens: seq<nat>, least: nat, g: nat, m0: nat, n: nat)
    requires ValidLengths(lens) && IsShortest(lens, least) && 1 <= least <= g && Acceptable(lens)
    requires 1 <= n <= m0 && ((n == 9 && |lens| <= 288) || (n == 5 && |lens| <= 30))
    ensures Clamp(m0, least, g) <= m0
  {
    hide Acceptable;
    hide IsShortest;
    SmallPowers();
    ShortestIsShort(lens, least, n);
  }

  lemma BothFit(c: seq<nat>, nl: nat)
    requires nl <= |c| && nl <= 288 && |c| - nl <= 30
    ensures 0 + SpaceFor(c[..nl], 9) <= MANY && SpaceFor(c[..nl], 9) + SpaceFor(c[nl..], 6) <= MANY
  {
  }

  lemma ShortParts(c: seq<nat>, nl: nat)
    requires nl <= |c|
    ensures (forall s :: 0 <= s < nl ==> c[s] <= 9) && (forall s :: nl <= s < |c| ==> c[s] <= 8) ==>
              MostEntries(c[..nl], 9) + MostEntries(c[nl..], 6) <= MANY
  {
    hide MostEntries;
    if (forall s :: 0 <= s < nl ==> c[s] <= 9) && (forall s :: nl <= s < |c| ==> c[s] <= 8) {
      ShortEntries(c[..nl], 9, 9);
      ShortEntries(c[nl..], 6, 8);
    }
  }

  lemma PartsValid(c: seq<nat>, nl: nat)
    requires ValidLengths(c) && nl <= |c| && nl <= 288 && |c| - nl <= 30
    ensures ValidLengths(c[..nl]) && ValidLengths(c[nl..])
    ensures LIT_VALUES.Covers(nl) && DIST_VALUES.Covers(|c| - nl)
  {
  }
}
