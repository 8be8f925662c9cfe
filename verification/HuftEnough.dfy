/** The space for the tables of a complete code, for huft_build in DuiLib/Utils/XUnzip.cpp: how many entries they
    take at most when the tables are made on no more than three levels. */
module HuftEnough {
  import opened Bits
  import opened Canonical
  import opened HuftSpec
  import opened HuftBuild
  import opened HuftSpace
  import opened HuftTheorem

  /** A complete code whose tables are on three levels at most. */
  ghost predicate ThreeLevels(sh: Shape) {
    sh.Valid() && EndCode(sh.lens, sh.g) == Pow2(sh.g) && Sparse(sh.lens, sh.g, sh.l) && sh.g <= 3 * sh.l
  }

  /** A code shorter than the table is wide is in it. */
  ghost predicate Mixed(sh: Shape, I: Info)
    requires I.j >= 1
  {
    Code(I.pat, I.w + I.j - 1) < EndCode(sh.lens, I.w + I.j - 1)
  }

  /** What a number of codes take on a level behind the first. */
  function LevelSize(sh: Shape, w: nat): nat {
    |sh.lens| + 2 * Pow2(if w + sh.l <= sh.g then sh.l else if w <= sh.g then sh.g - w else 0)
  }

  /** Where the numbers of a level begin. */
  function Base(sh: Shape, w: nat): nat {
    if w == 0 then 0 else Pow2(sh.l) + (if w == sh.l then 0 else LevelSize(sh, sh.l))
  }

  /** How many entries there are at most. */
  function Enough(sh: Shape): nat {
    Pow2(sh.l) + (if sh.g <= sh.l then 0 else LevelSize(sh, sh.l)) + (if sh.g <= 2 * sh.l then 0 else LevelSize(sh, 2 * sh.l))
  }

  /** The bits that lead to entry `i` of a table, the first one most significant. */
  ghost function ValueOf(I: Info, i: nat): nat {
    Code(I.Prefix(i), I.w + I.j)
  }

  /** A number for an entry among those of its level.  When all codes in the table are at least as long as it is
      wide, it is the place of the code of the entry in the order of codes; otherwise, by the width of the
      table, since only one table of each width is like that. */
  ghost function InLevel(sh: Shape, I: Info, i: nat): int
    requires I.j >= 1
  {
    if I.w == 0 then i
    else if Mixed(sh, I) then |sh.lens| + Pow2(I.j) + i
    else Offset(sh.lens, I.w + I.j) + ValueOf(I, i) - FirstCode(sh.lens, I.w + I.j)
  }

  ghost function Place(sh: Shape, I: Info, i: nat): int
    requires I.j >= 1
  {
    Base(sh, I.w) + InLevel(sh, I, i)
  }

  /** What is known of every table. */
  ghost predicate Good(sh: Shape, I: Info) {
    TableOK(sh, I) && Narrowest(sh, I) && I.j <= sh.l
  }

  // ---------- the levels ----------

  lemma LevelsAre(sh: Shape, I: Info)
    requires ThreeLevels(sh) && Good(sh, I)
    ensures I.w == 0 || I.w == sh.l || I.w == 2 * sh.l
    ensures I.w < sh.g && (I.w == 0 ==> I.pat == 0) && I.pat < Pow2(I.w) && 1 <= I.j <= sh.g - I.w && I.j <= sh.l
  {
    hide Code;
    hide EndCode;
    hide Sparse;
    hide Narrowest;
    var l := sh.l;
    if 0 < I.w {
      ZeroMod(l);
      MultiplesApart(0, I.w, l);
      if l < I.w {
        MultiplesApart(l, I.w, l);
        if 2 * l < I.w {
          TwoMod(l);
          MultiplesApart(2 * l, I.w, l);
        }
      }
    }
  }

  lemma ZeroMod(l: nat)
    requires l >= 1
    ensures 0 % l == 0 && l % l == 0
  {
  }

  lemma TwoMod(l: nat)
    requires l >= 1
    ensures 2 * l % l == 0
  {
    AddMod(l, l);
    ZeroMod(l);
  }

  // ---------- tables of codes of one length ----------

  /** The value of an entry goes on from the pattern of its table. */
  lemma ValueIs(I: Info, i: nat)
    requires I.pat < Pow2(I.w) && i < Pow2(I.j) && I.j >= 1
    ensures ValueOf(I, i) == Shl(Code(I.pat, I.w), I.j) + Code(i, I.j) < Pow2(I.w + I.j)
    ensures Code(I.pat, I.w + I.j - 1) == Shl(Code(I.pat, I.w), I.j - 1)
    ensures 2 * Code(I.pat, I.w + I.j - 1) <= ValueOf(I, i)
  {
    hide Low;
    hide Drop;
    hide Shl;
    var p := I.Prefix(i);
    PrefixBits(I, i, I.j);
    CodeAppend(p, I.w, I.j);
    CodeLow(p, I.w);
    LowSmall(I.pat, I.w);
    PatternIsLeast(I.pat, I.pat, I.w, I.w + I.j - 1);
    ShlTwice(Code(I.pat, I.w), I.j);
    CodeFitsIn(p, I.w + I.j);
  }

  lemma ShlTwice(x: nat, n: nat)
    requires n >= 1
    ensures Shl(x, n) == 2 * Shl(x, n - 1)
  {
    ShlShl(x, n - 1, 1);
    ShlOne(Shl(x, n - 1));
  }

  lemma ShlOne(x: nat)
    ensures Shl(x, 1) == 2 * x
  {
  }

  lemma CodeFitsIn(p: nat, n: nat)
    ensures Code(p, n) < Pow2(n)
  {
  }

  /** The place of such an entry is that of a code, or of codes that go on. */
  lemma PlainRange(sh: Shape, I: Info, i: nat)
    requires ThreeLevels(sh) && Good(sh, I) && I.w > 0 && !Mixed(sh, I) && i < Pow2(I.j)
    ensures var n := I.w + I.j;
      Offset(sh.lens, n) <= InLevel(sh, I, i) < |sh.lens| && InLevel(sh, I, i) == Offset(sh.lens, n) + ValueOf(I, i) - FirstCode(sh.lens, n)
    ensures I.j < sh.l && I.w + I.j < sh.g ==> InLevel(sh, I, i) < Offset(sh.lens, I.w + I.j) + Count(sh.lens, I.w + I.j)
  {
    hide Code;
    hide Count;
    hide Pow2;
    hide Shl;
    hide Sparse;
    hide ValueOf;
    var n := I.w + I.j;
    ValueIs(I, i);
    FirstIs(sh.lens, n);
    LeftForLonger(sh.lens, n, sh.g);
    OffsetBound(sh.lens, sh.g);
    if I.j < sh.l && n < sh.g {
      BelowNext(I, i);
    }
  }

  lemma FirstIs(lens: seq<nat>, n: nat)
    requires n >= 2
    ensures FirstCode(lens, n) == 2 * EndCode(lens, n - 1) && EndCode(lens, n) == FirstCode(lens, n) + Count(lens, n)
  {
  }

  lemma BelowNext(I: Info, i: nat)
    requires I.pat < Pow2(I.w) && i < Pow2(I.j) && I.j >= 1
    ensures ValueOf(I, i) < Code(I.pat, I.w + I.j) + Pow2(I.j)
  {
    hide Low;
    hide Drop;
    hide Shl;
    hide Pow2;
    ValueIs(I, i);
    LowSmall(I.pat, I.w);
    PatternIsLeast(I.pat, I.pat, I.w, I.w + I.j);
    CodeFitsIn(i, I.j);
  }

  /** Entries with the same place have the same bits before them. */
  lemma PlainUnique(sh: Shape, I: Info, i: nat, J: Info, k: nat)
    requires ThreeLevels(sh) && Good(sh, I) && Good(sh, J) && I.w == J.w > 0 && !Mixed(sh, I) && !Mixed(sh, J)
    requires i < Pow2(I.j) && k < Pow2(J.j) && InLevel(sh, I, i) == InLevel(sh, J, k)
    ensures I.pat == J.pat
  {
    hide Code;
    hide Count;
    hide Offset;
    hide Pow2;
    hide Sparse;
    hide Mixed;
    PlainRange(sh, I, i);
    PlainRange(sh, J, k);
    if I.j < J.j {
      OffsetMono(sh.lens, I.w + I.j, J.w + J.j);
    } else if J.j < I.j {
      OffsetMono(sh.lens, J.w + J.j, I.w + I.j);
    } else {
      SameValue(I, i, J, k);
    }
  }

  lemma SameValue(I: Info, i: nat, J: Info, k: nat)
    requires I.pat < Pow2(I.w) && J.pat < Pow2(J.w) && i < Pow2(I.j) && k < Pow2(J.j) && I.w == J.w && I.j == J.j
    requires ValueOf(I, i) == ValueOf(J, k)
    ensures I.pat == J.pat
  {
    hide Code;
    hide Low;
    hide Drop;
    hide Pow2;
    var n := I.w + I.j;
    PrefixBits(I, i, I.j);
    PrefixBits(J, k, J.j);
    CodeInvolution(I.Prefix(i), n);
    CodeInvolution(J.Prefix(k), n);
    LowSmall(I.Prefix(i), n);
    LowSmall(J.Prefix(k), n);
  }

  // ---------- tables of codes of several lengths ----------

  /** On each level, only one table of each width has codes that are shorter than it is wide. */
  lemma MixedUnique(sh: Shape, I: Info, J: Info)
    requires Good(sh, I) && Good(sh, J) && I.w == J.w && I.j == J.j && Mixed(sh, I) && Mixed(sh, J)
    ensures I.pat == J.pat
  {
    hide EndCode;
    hide Code;
    hide Shl;
    hide Pow2;
    ValueIs(I, ZeroBelow(I.j));
    ValueIs(J, ZeroBelow(J.j));
    var p, q := Code(I.pat, I.w), Code(J.pat, J.w);
    if p < q {
      ShlApart(p, q, I.j - 1);
    } else if q < p {
      ShlApart(q, p, I.j - 1);
    }
    CodeInvolution(I.pat, I.w);
    CodeInvolution(J.pat, J.w);
    LowSmall(I.pat, I.w);
    LowSmall(J.pat, J.w);
  }

  function ZeroBelow(n: nat): (r: nat)
    ensures r < Pow2(n)
  {
    0
  }

  lemma ShlApart(p: nat, q: nat, n: nat)
    requires p < q
    ensures Shl(p, n) + Pow2(n) <= Shl(q, n)
  {
    ShlMono(p + 1, q, n);
    ShlAdd(p, 1, n);
    Pow2Shl(0, n);
    OnePower();
  }

  lemma OnePower()
    ensures Pow2(0) == 1
  {
  }

  // ---------- all tables ----------

  lemma PlaceRange(sh: Shape, I: Info, i: nat)
    requires ThreeLevels(sh) && Good(sh, I) && i < Pow2(I.j)
    ensures 0 <= InLevel(sh, I, i) < if I.w == 0 then Pow2(sh.l) else LevelSize(sh, I.w)
  {
    hide Code;
    hide Count;
    hide EndCode;
    hide FirstCode;
    hide Offset;
    hide Pow2;
    hide Sparse;
    hide Mixed;
    LevelsAre(sh, I);
    if I.w == 0 {
      Pow2Mono(I.j, sh.l);
    } else if Mixed(sh, I) {
      Pow2Mono(I.j, if I.w + sh.l <= sh.g then sh.l else sh.g - I.w);
    } else {
      PlainRange(sh, I, i);
    }
  }

  lemma PlaceWithin(sh: Shape, I: Info, i: nat)
    requires ThreeLevels(sh) && Good(sh, I) && i < Pow2(I.j)
    ensures 0 <= Place(sh, I, i) < Enough(sh)
  {
    hide EndCode;
    hide Pow2;
    hide Sparse;
    hide Good;
    hide InLevel;
    hide LevelSize;
    LevelsAre(sh, I);
    PlaceRange(sh, I, i);
  }

  /** Different tables do not share a place, and the entries of one have different places. */
  lemma PlaceUnique(sh: Shape, I: Info, i: nat, J: Info, k: nat)
    requires ThreeLevels(sh) && Good(sh, I) && Good(sh, J) && i < Pow2(I.j) && k < Pow2(J.j)
    requires Place(sh, I, i) == Place(sh, J, k)
    ensures I.w == J.w && I.pat == J.pat
  {
    hide EndCode;
    hide Pow2;
    hide Sparse;
    hide Good;
    hide InLevel;
    hide LevelSize;
    LevelsAre(sh, I);
    LevelsAre(sh, J);
    PlaceRange(sh, I, i);
    PlaceRange(sh, J, k);
    if I.w > 0 {
      SamePlace(sh, I, i, J, k);
    }
  }

  lemma SamePlace(sh: Shape, I: Info, i: nat, J: Info, k: nat)
    requires ThreeLevels(sh) && Good(sh, I) && Good(sh, J) && i < Pow2(I.j) && k < Pow2(J.j) && I.w == J.w > 0
    requires InLevel(sh, I, i) == InLevel(sh, J, k)
    ensures I.pat == J.pat
  {
    hide EndCode;
    hide Sparse;
    hide Mixed;
    hide ValueOf;
    hide Offset;
    hide FirstCode;
    if !Mixed(sh, I) && !Mixed(sh, J) {
      PlainUnique(sh, I, i, J, k);
    } else if Mixed(sh, I) && Mixed(sh, J) {
      if I.j < J.j {
        TwicePower(I.j, J.j);
      } else if J.j < I.j {
        TwicePower(J.j, I.j);
      } else {
        MixedUnique(sh, I, J);
      }
    } else if Mixed(sh, I) {
      PlainRange(sh, J, k);
    } else {
      PlainRange(sh, I, i);
    }
  }

  lemma TwicePower(a: nat, b: nat)
    requires a < b
    ensures 2 * Pow2(a) <= Pow2(b)
  {
    Pow2Mono(a + 1, b);
  }

  lemma EntryPlace(sh: Shape, infos: seq<Info>, lo: nat, e: nat)
    requires ThreeLevels(sh) && Registry(sh, infos, lo) && NeededOnce(sh, infos, lo) && lo <= e < |infos|
    ensures Good(sh, infos[e]) && infos[e].start <= e && e - infos[e].start < Pow2(infos[e].j)
  {
    hide Entered;
    hide Narrowest;
    hide Sparse;
    assert InTable(infos, lo, e) && TableOK(sh, infos[e]) && Narrowest(sh, infos[e]);
    SparseIsNarrow(sh, infos[e]);
  }

  /** The tables of such a code take no more entries than that. */
  lemma EnoughEntries(sh: Shape, infos: seq<Info>, lo: nat)
    requires ThreeLevels(sh) && Registry(sh, infos, lo) && NeededOnce(sh, infos, lo)
    ensures |infos| - lo <= Enough(sh)
  {
    hide *;
    RegistryFrom(sh, infos, lo);
    forall e: nat | lo <= e < |infos|
      ensures Good(sh, infos[e]) && infos[e].j >= 1 && infos[e].start <= e && 0 <= Place(sh, infos[e], e - infos[e].start) < Enough(sh)
    {
      EntryPlace(sh, infos, lo, e);
      PlaceWithin(sh, infos[e], e - infos[e].start);
      WidthPositive(sh, infos[e]);
    }
    var s: seq<nat> := seq(|infos| - lo, i requires 0 <= i < |infos| - lo => Place(sh, infos[lo + i], lo + i - infos[lo + i].start));
    forall i, j | 0 <= i < j < |s| ensures s[i] != s[j] {
      PlacesDiffer(sh, infos, lo, lo + i, lo + j);
    }
    Pigeons(s, Enough(sh));
  }

  lemma PlacesDiffer(sh: Shape, infos: seq<Info>, lo: nat, e: nat, e': nat)
    requires ThreeLevels(sh) && Registry(sh, infos, lo) && NeededOnce(sh, infos, lo) && lo <= e < e' < |infos|
    requires infos[e].start <= e && infos[e'].start <= e' && infos[e].j >= 1 && infos[e'].j >= 1
    ensures Place(sh, infos[e], e - infos[e].start) != Place(sh, infos[e'], e' - infos[e'].start)
  {
    hide ThreeLevels;
    hide Registry;
    hide NoTableTwice;
    hide Good;
    hide Place;
    hide Pow2;
    if Place(sh, infos[e], e - infos[e].start) == Place(sh, infos[e'], e' - infos[e'].start) {
      EntryPlace(sh, infos, lo, e);
      EntryPlace(sh, infos, lo, e');
      PlaceUnique(sh, infos[e], e - infos[e].start, infos[e'], e' - infos[e'].start);
      SameTable(infos, lo, e, e');
      SameEntry(sh, infos[e], e - infos[e].start, e' - infos[e].start);
    }
  }

  lemma WidthPositive(sh: Shape, I: Info)
    requires Good(sh, I)
    ensures I.j >= 1
  {
  }

  lemma SameEntry(sh: Shape, I: Info, i: nat, k: nat)
    requires ThreeLevels(sh) && Good(sh, I) && i < Pow2(I.j) && k < Pow2(I.j) && Place(sh, I, i) == Place(sh, I, k)
    ensures i == k
  {
    hide EndCode;
    hide Sparse;
    hide Code;
    hide Shl;
    hide Base;
    hide Mixed;
    LevelsAre(sh, I);
    if I.w > 0 && !Mixed(sh, I) {
      ValueIs(I, i);
      ValueIs(I, k);
      CodeInvolution(i, I.j);
      CodeInvolution(k, I.j);
      LowSmall(i, I.j);
      LowSmall(k, I.j);
    }
  }

  /** Space does not run out before that. */
  lemma SpaceEnough(sh: Shape, infos: seq<Info>, lo: nat)
    requires ThreeLevels(sh) && Registry(sh, infos, lo) && NeededOnce(sh, infos, lo) && OutOfSpace(sh, infos, lo)
    ensures lo + Enough(sh) > MANY
  {
    hide TableOK;
    hide Entered;
    hide Narrowest;
    hide Registry;
    hide NoTableTwice;
    hide ThreeLevels;
    hide Enough;
    hide Pow2;
    var I :| Missing(sh, infos, lo, I) && |infos| + Pow2(I.j) > MANY;
    RegistryFrom(sh, infos, lo);
    PushNew(sh, infos, lo, I);
    PushRegistry(sh, infos, lo, I);
    EnoughEntries(sh, NewInfos(infos, I), lo);
  }
}
