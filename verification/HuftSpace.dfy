/** How much space the tables of huft_build take (DuiLib/Utils/XUnzip.cpp): no table is made twice. */
module HuftSpace {
  import opened Bits
  import opened Canonical
  import opened HuftSpec
  import opened HuftBuild

  /** Tables that are entered by the same bits are the same. */
  ghost predicate NoTableTwice(infos: seq<Info>, lo: nat) {
    forall e: nat, e': nat {:trigger infos[e], infos[e']} :: lo <= e < |infos| && lo <= e' < |infos| ==>
      infos[e].w == infos[e'].w && infos[e].pat == infos[e'].pat ==> infos[e] == infos[e']
  }

  /** Some code is longer than `w` bits and begins with the bits `pat`. */
  ghost predicate Entered(sh: Shape, w: nat, pat: nat) {
    exists k: nat, code: nat {:trigger Code(code, k)} ::
      w < k <= sh.g && FirstCode(sh.lens, k) <= code < sh.Limit(k) && Low(Code(code, k), w) == pat
  }

  /** A table one bit narrower would leave patterns for longer codes. */
  ghost predicate Narrowest(sh: Shape, I: Info) {
    && 1 <= I.j
    && var n := I.w + I.j - 1; Code(I.pat, n) + Pow2(I.j - 1) > EndCode(sh.lens, n)
  }

  /** Every table is entered by a code and no wider than needed, and there are no two for the same bits. */
  ghost predicate NeededOnce(sh: Shape, infos: seq<Info>, lo: nat) {
    && NoTableTwice(infos, lo)
    && (forall e {:trigger infos[e]} :: lo <= e < |infos| ==> Entered(sh, infos[e].w, infos[e].pat) && Narrowest(sh, infos[e]))
  }

  /** The table `I` is still to be made: a code enters it, and there is none for these bits. */
  ghost predicate Missing(sh: Shape, infos: seq<Info>, lo: nat, I: Info) {
    && TableOK(sh, I) && I.start == |infos| && Entered(sh, I.w, I.pat) && Narrowest(sh, I)
    && (forall e: nat {:trigger infos[e]} :: lo <= e < |infos| && infos[e].w == I.w ==> infos[e].pat != I.pat)
  }

  /** The next table does not fit. */
  ghost predicate OutOfSpace(sh: Shape, infos: seq<Info>, lo: nat) {
    exists I: Info {:trigger Missing(sh, infos, lo, I)} :: Missing(sh, infos, lo, I) && |infos| + Pow2(I.j) > MANY
  }

  lemma OpensMissing(sh: Shape, vals: Values, t: seq<Entry>, t0: seq<Entry>, infos: seq<Info>, lo: nat,
                     u: seq<nat>, x: seq<nat>, h: int, k: nat, code: nat, I: Info)
    requires Building(sh, vals, t, t0, infos, lo, u, x, h, k, code) && Opens(sh, t, infos, lo, u, x, h, k, code, I)
    requires k <= sh.g && FirstCode(sh.lens, k) <= code < sh.Limit(k) && Narrowest(sh, I)
    ensures Missing(sh, infos, lo, I)
  {
    hide Building;
    hide Code;
    hide Low;
    hide Pow2;
    hide Narrowest;
    hide FirstCode;
    Pow2Mono(I.w, k);
    CodeInvolution(I.pat, k);
    LowSmall(I.pat, k);
    LowSmall(I.pat, I.w);
    assert TableOK(sh, I);
    assert Low(Code(code, k), I.w) == I.pat;
    forall e: nat {:trigger infos[e]} | lo <= e < |infos| && infos[e].w == I.w ensures infos[e].pat != I.pat {
      NewTable(sh, vals, t, t0, infos, lo, u, x, h, k, code, I, e);
    }
  }

  /** The table that the next code opens is none of those there are: the tables on the stack are at other
      levels, and the others are entered by codes before. */
  lemma NewTable(sh: Shape, vals: Values, t: seq<Entry>, t0: seq<Entry>, infos: seq<Info>, lo: nat,
                 u: seq<nat>, x: seq<nat>, h: int, k: nat, code: nat, I: Info, e: nat)
    requires Building(sh, vals, t, t0, infos, lo, u, x, h, k, code) && Opens(sh, t, infos, lo, u, x, h, k, code, I)
    requires lo <= e < |infos| && infos[e].w == I.w
    ensures infos[e].pat != I.pat
  {
    hide Linked;
    hide Written;
    hide Untouched;
    hide TableOK;
    hide Code;
    hide Low;
    assert InTable(infos, lo, e);
    var s := infos[e].start;
    assert infos[s] == infos[e];
    PowPositive(infos[s].Eff(sh.l));
    assert Live(sh, infos, lo, s);
    ShlNothing(infos[s].w);
    if OnStack(u, h, s) {
      var m: nat :| m <= h && u[m] == s;
      LevelBelow(sh, infos, lo, u, x, h, m);
    }
  }

  lemma LevelBelow(sh: Shape, infos: seq<Info>, lo: nat, u: seq<nat>, x: seq<nat>, h: int, m: nat)
    requires StackOK(sh, infos, lo, u, x, h) && m <= h && sh.l >= 1
    ensures u[m] < |infos| && u[h] < |infos| && infos[u[m]].w <= infos[u[h]].w
  {
  }

  lemma PowPositive(n: nat)
    ensures Pow2(n) >= 1
  {
  }

  lemma ShlNothing(n: nat)
    ensures Shl(0, n) == 0
  {
    ShlZero(n);
  }

  lemma PushNew(sh: Shape, infos: seq<Info>, lo: nat, I: Info)
    requires NeededOnce(sh, infos, lo) && lo <= |infos| && Missing(sh, infos, lo, I)
    ensures NeededOnce(sh, NewInfos(infos, I), lo)
  {
    hide Entered;
    hide Narrowest;
    hide TableOK;
    var r := NewInfos(infos, I);
    forall e: nat, e': nat {:trigger r[e], r[e']} | lo <= e < |r| && lo <= e' < |r| && r[e].w == r[e'].w && r[e].pat == r[e'].pat
      ensures r[e] == r[e']
    {
      assert e < |infos| ==> r[e] == infos[e];
      assert e' < |infos| ==> r[e'] == infos[e'];
    }
    forall e {:trigger r[e]} | lo <= e < |r| ensures Entered(sh, r[e].w, r[e].pat) && Narrowest(sh, r[e]) {
      assert e < |infos| ==> r[e] == infos[e];
    }
  }

  // ---------- counting entries ----------

  /** How many levels of tables of width `l` there are above bit `w`. */
  function Level(w: nat, l: nat): nat {
    if l == 0 || w < l then 0 else 1 + Level(w - l, l)
  }

  /** How many levels there are for codes of up to `g` bits. */
  function Levels(g: nat, l: nat): nat {
    if g == 0 then 0 else 1 + Level(g - 1, l)
  }

  lemma {:induction false} LevelMono(w: nat, w': nat, l: nat)
    requires w <= w'
    ensures Level(w, l) <= Level(w', l)
    decreases w'
  {
    if l > 0 && w >= l {
      LevelMono(w - l, w' - l, l);
    }
  }

  /** Wider tables have no more levels. */
  lemma {:induction false} LevelWider(w: nat, l: nat, l': nat)
    requires 1 <= l <= l'
    ensures Level(w, l') <= Level(w, l)
    decreases w
  {
    if w >= l' {
      LevelWider(w - l', l, l');
      LevelMono(w - l', w - l, l);
    }
  }

  lemma LevelUnique(w: nat, w': nat, l: nat)
    requires l >= 1 && w % l == 0 && w' % l == 0 && Level(w, l) == Level(w', l)
    ensures w == w'
  {
    if w < w' {
      LevelApart(w, w', l);
    } else if w' < w {
      LevelApart(w', w, l);
    }
  }

  lemma LevelApart(w: nat, w': nat, l: nat)
    requires l >= 1 && w % l == 0 && w' % l == 0 && w < w'
    ensures Level(w, l) < Level(w', l)
  {
    MultiplesApart(w, w', l);
    LevelMono(w + l, w', l);
  }

  /** A number for an entry, from the level of its table and the bits that lead to it. */
  ghost function Number(infos: seq<Info>, g: nat, l: nat, e: nat): nat
    requires e < |infos| && infos[e].start <= e
  {
    Level(infos[e].w, l) * Pow2(g) + PrefixAt(infos, e)
  }

  lemma PrefixFits(sh: Shape, infos: seq<Info>, lo: nat, e: nat)
    requires Registry(sh, infos, lo) && lo <= e < |infos|
    ensures infos[e].start <= e && infos[e].w < sh.g
    ensures infos[e].pat < Pow2(infos[e].w) && PrefixAt(infos, e) < Pow2(sh.g)
  {
    hide Pow2;
    hide Shl;
    hide Code;
    assert InTable(infos, lo, e) && TableOK(sh, infos[e]);
    var I, i := infos[e], e - infos[e].start;
    ShlMono(i + 1, Pow2(I.j), I.w);
    ShlAdd(i, 1, I.w);
    Pow2Shl(I.j, I.w);
    Pow2Shl(0, I.w);
    ZeroPower();
    Pow2Mono(I.j + I.w, sh.g);
  }

  lemma ZeroPower()
    ensures Pow2(0) == 1
  {
  }

  lemma NumberRange(sh: Shape, infos: seq<Info>, lo: nat, e: nat)
    requires Registry(sh, infos, lo) && lo <= e < |infos|
    ensures infos[e].start <= e && Number(infos, sh.g, sh.l, e) < Levels(sh.g, sh.l) * Pow2(sh.g)
  {
    hide Pow2;
    hide PrefixAt;
    PrefixFits(sh, infos, lo, e);
    hide Level;
    LevelMono(infos[e].w, sh.g - 1, sh.l);
    MulMono(Level(infos[e].w, sh.l) + 1, Levels(sh.g, sh.l), Pow2(sh.g));
    MulDist(Level(infos[e].w, sh.l), 1, Pow2(sh.g));
  }

  /** Different entries have different numbers. */
  lemma NumberUnique(sh: Shape, infos: seq<Info>, lo: nat, e: nat, e': nat)
    requires Registry(sh, infos, lo) && NoTableTwice(infos, lo) && lo <= e < |infos| && lo <= e' < |infos|
    requires infos[e].start <= e && infos[e'].start <= e' && Number(infos, sh.g, sh.l, e) == Number(infos, sh.g, sh.l, e')
    ensures e == e'
  {
    hide Pow2;
    hide Shl;
    hide Registry;
    hide NoTableTwice;
    PrefixFits(sh, infos, lo, e);
    PrefixFits(sh, infos, lo, e');
    var P := Pow2(sh.g);
    var n, n' := Level(infos[e].w, sh.l), Level(infos[e'].w, sh.l);
    MulSwap(n, P);
    MulSwap(n', P);
    QuotientUnique(Number(infos, sh.g, sh.l, e), P, n, PrefixAt(infos, e));
    QuotientUnique(Number(infos, sh.g, sh.l, e), P, n', PrefixAt(infos, e'));
    LevelsOf(sh, infos, lo, e);
    LevelsOf(sh, infos, lo, e');
    LevelUnique(infos[e].w, infos[e'].w, sh.l);
    Join(infos[e].pat, e - infos[e].start, infos[e].w);
    Join(infos[e'].pat, e' - infos[e'].start, infos[e'].w);
    SameTable(infos, lo, e, e');
  }

  lemma LevelsOf(sh: Shape, infos: seq<Info>, lo: nat, e: nat)
    requires Registry(sh, infos, lo) && lo <= e < |infos|
    ensures sh.l >= 1 && infos[e].w % sh.l == 0
  {
    assert TableOK(sh, infos[e]);
  }

  lemma SameTable(infos: seq<Info>, lo: nat, e: nat, e': nat)
    requires NoTableTwice(infos, lo) && lo <= e < |infos| && lo <= e' < |infos|
    requires infos[e].w == infos[e'].w && infos[e].pat == infos[e'].pat
    ensures infos[e] == infos[e']
  {
  }

  lemma MulSwap(a: nat, b: nat)
    ensures a * b == b * a
  {
  }

  /** Distinct numbers below `n` are at most `n`. */
  lemma {:induction false} Pigeons(s: seq<nat>, n: nat)
    requires forall i :: 0 <= i < |s| ==> s[i] < n
    requires forall i, j :: 0 <= i < j < |s| ==> s[i] != s[j]
    ensures |s| <= n
    decreases n
  {
    if s != [] {
      assert s[0] < n;
      var m: nat := n - 1;
      if m in s {
        var i :| 0 <= i < |s| && s[i] == m;
        Pigeons(s[..i] + s[i + 1..], m);
      } else {
        Pigeons(s, m);
      }
    }
  }

  /** The tables of a code take no more entries than its levels have patterns. */
  lemma EntriesBound(sh: Shape, infos: seq<Info>, lo: nat)
    requires Registry(sh, infos, lo) && NoTableTwice(infos, lo)
    ensures |infos| - lo <= Levels(sh.g, sh.l) * Pow2(sh.g)
  {
    hide Registry;
    hide NoTableTwice;
    hide Number;
    assert lo <= |infos| by { RegistryFrom(sh, infos, lo); }
    forall e: nat | lo <= e < |infos| ensures infos[e].start <= e && Number(infos, sh.g, sh.l, e) < Levels(sh.g, sh.l) * Pow2(sh.g) {
      NumberRange(sh, infos, lo, e);
    }
    var s := seq(|infos| - lo, i requires 0 <= i < |infos| - lo => Number(infos, sh.g, sh.l, lo + i));
    forall i, j | 0 <= i < j < |s| ensures s[i] != s[j] {
      if s[i] == s[j] {
        NumberUnique(sh, infos, lo, lo + i, lo + j);
      }
    }
    Pigeons(s, Levels(sh.g, sh.l) * Pow2(sh.g));
  }

  lemma RegistryFrom(sh: Shape, infos: seq<Info>, lo: nat)
    requires Registry(sh, infos, lo)
    ensures lo <= |infos|
  {
  }
}
